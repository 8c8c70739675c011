/**
 * Sequence helpers shared by the model: list comprehensions (`Filter`), picking elements by
 * position (`Select`) and Python's stable `sorted(..., reverse=True)` on a key (`Order`).
 */
module Sequences {

  predicate NoDuplicates<T(==)>(s: seq<T>)
  {
    forall i, j :: 0 <= i < j < |s| ==> s[i] != s[j]
  }

  /** `[x for x in s if keep(x)]` */
  function Filter<T>(s: seq<T>, keep: T -> bool): (r: seq<T>)
    ensures forall k :: 0 <= k < |r| ==> r[k] in s && keep(r[k])
    ensures forall k :: 0 <= k < |s| && keep(s[k]) ==> s[k] in r
    ensures multiset(r) <= multiset(s)
    decreases |s|
  {
    if s == [] then []
    else
      assert s == [s[0]] + s[1..];
      (if keep(s[0]) then [s[0]] else []) + Filter(s[1..], keep)
  }

  ghost predicate InRange(idx: seq<nat>, n: nat)
  {
    forall k :: 0 <= k < |idx| ==> idx[k] < n
  }

  /** The elements of `s` at the positions `idx`, in that order. */
  function Select<T>(s: seq<T>, idx: seq<nat>): (r: seq<T>)
    requires InRange(idx, |s|)
    ensures |r| == |idx|
  {
    seq(|idx|, k requires 0 <= k < |idx| => s[idx[k]])
  }

  /** Position `i` comes before position `j` in a stable sort on non-increasing keys. */
  predicate Precedes(keys: seq<real>, i: nat, j: nat)
    requires i < |keys| && j < |keys|
  {
    keys[i] > keys[j] || (keys[i] == keys[j] && i < j)
  }

  ghost predicate SortedBy(keys: seq<real>, r: seq<nat>)
    requires InRange(r, |keys|)
  {
    forall a, b :: 0 <= a < b < |r| ==> Precedes(keys, r[a], r[b])
  }

  /** Inserts position `i` into `t`, all of whose positions come after `i`. */
  function Insert(keys: seq<real>, i: nat, t: seq<nat>): (r: seq<nat>)
    requires i < |keys| && InRange(t, |keys|) && SortedBy(keys, t)
    requires forall k :: 0 <= k < |t| ==> i < t[k]
    ensures |r| == |t| + 1
    ensures forall k :: 0 <= k < |r| ==> r[k] == i || r[k] in t
    ensures forall x :: x == i || x in t ==> x in r
    ensures InRange(r, |keys|) && SortedBy(keys, r)
    decreases |t|
  {
    if t == [] || keys[i] >= keys[t[0]] then [i] + t
    else
      var rest := Insert(keys, i, t[1..]);
      assert forall b :: 0 <= b < |rest| ==> Precedes(keys, t[0], rest[b]) by {
        forall b | 0 <= b < |rest| ensures Precedes(keys, t[0], rest[b]) {
          if rest[b] != i {
            var m :| 0 <= m < |t[1..]| && t[1..][m] == rest[b];
            assert t[m + 1] == rest[b];
          }
        }
      }
      SortedCons(keys, t[0], rest);
      [t[0]] + rest
  }

  /** A position that precedes every position of a sorted sequence can go in front of it. */
  lemma SortedCons(keys: seq<real>, x: nat, t: seq<nat>)
    requires x < |keys| && InRange(t, |keys|) && SortedBy(keys, t)
    requires forall b :: 0 <= b < |t| ==> Precedes(keys, x, t[b])
    ensures InRange([x] + t, |keys|) && SortedBy(keys, [x] + t)
  {
    var r := [x] + t;
    forall a, b | 0 <= a < b < |r| ensures Precedes(keys, r[a], r[b]) {
      assert r[b] == t[b - 1];
      if a > 0 {
        assert r[a] == t[a - 1];
      }
    }
  }

  /** A stable sort, on non-increasing keys, of the positions `lo`, ..., `|keys| - 1`. */
  function OrderFrom(keys: seq<real>, lo: nat): (r: seq<nat>)
    requires lo <= |keys|
    ensures |r| == |keys| - lo
    ensures forall k :: 0 <= k < |r| ==> lo <= r[k]
    ensures forall x :: lo <= x < |keys| ==> x in r
    ensures InRange(r, |keys|) && SortedBy(keys, r)
    decreases |keys| - lo
  {
    if lo == |keys| then [] else Insert(keys, lo, OrderFrom(keys, lo + 1))
  }

  /**
   * Python's `sorted(range(n), key=..., reverse=True)`: every position exactly once, keys
   * non-increasing, and positions with equal keys kept in their input order.
   */
  function Order(keys: seq<real>): (r: seq<nat>)
    ensures |r| == |keys| && InRange(r, |keys|)
  {
    OrderFrom(keys, 0)
  }

  lemma OrderSpec(keys: seq<real>)
    ensures var r := Order(keys);
      && (forall i :: 0 <= i < |keys| ==> i in r)
      && NoDuplicates(r)
      && (forall a, b :: 0 <= a < b < |r| ==> keys[r[a]] >= keys[r[b]])
      && (forall a, b :: 0 <= a < b < |r| && keys[r[a]] == keys[r[b]] ==> r[a] < r[b])
  {
    assert SortedBy(keys, Order(keys));
  }

  /** The first step of a filter. */
  lemma FilterUnfold<T>(s: seq<T>, keep: T -> bool)
    requires s != []
    ensures Filter(s, keep) == (if keep(s[0]) then [s[0]] else []) + Filter(s[1..], keep)
  {
  }

  lemma ConcatAssoc<T>(x: seq<T>, y: seq<T>, z: seq<T>)
    ensures x + (y + z) == (x + y) + z
  {
  }

  /** Filtering a concatenation filters each part and keeps them in order. */
  lemma {:induction false} FilterAppend<T>(a: seq<T>, b: seq<T>, keep: T -> bool)
    ensures Filter(a + b, keep) == Filter(a, keep) + Filter(b, keep)
    decreases |a|
  {
    if a == [] {
      assert a + b == b;
    } else {
      var ab := a + b;
      var h := if keep(a[0]) then [a[0]] else [];
      assert ab[0] == a[0] && ab[1..] == a[1..] + b;
      FilterUnfold(ab, keep);
      FilterUnfold(a, keep);
      FilterAppend(a[1..], b, keep);
      var fa, fb := Filter(a[1..], keep), Filter(b, keep);
      assert Filter(ab, keep) == h + (fa + fb);
      assert Filter(a, keep) == h + fa;
      ConcatAssoc(h, fa, fb);
    }
  }

  /** Nothing passes the filter when no element meets the condition. */
  lemma {:induction false} FilterNone<T>(s: seq<T>, keep: T -> bool)
    requires forall k :: 0 <= k < |s| ==> !keep(s[k])
    ensures Filter(s, keep) == []
    decreases |s|
  {
    if s != [] {
      FilterNone(s[1..], keep);
    }
  }

  /** Filtering keeps every element meeting the condition as often as it occurs, and no other. */
  lemma {:induction false} FilterCount<T>(s: seq<T>, keep: T -> bool, x: T)
    ensures multiset(Filter(s, keep))[x] == if keep(x) then multiset(s)[x] else 0
    decreases |s|
  {
    if s != [] {
      assert s == [s[0]] + s[1..];
      FilterCount(s[1..], keep, x);
      assert Filter(s, keep) == (if keep(s[0]) then [s[0]] else []) + Filter(s[1..], keep);
    }
  }

  /** Picking a position in front of others. */
  lemma SelectCons<T>(s: seq<T>, x: nat, t: seq<nat>)
    requires x < |s| && InRange(t, |s|)
    ensures InRange([x] + t, |s|)
    ensures multiset(Select(s, [x] + t)) == multiset{s[x]} + multiset(Select(s, t))
  {
    SelectAppend(s, [x], t);
    assert Select(s, [x]) == [s[x]];
  }

  lemma {:induction false} SelectInsert<T>(s: seq<T>, keys: seq<real>, i: nat, t: seq<nat>)
    requires |keys| == |s|
    requires i < |keys| && InRange(t, |keys|) && SortedBy(keys, t)
    requires forall k :: 0 <= k < |t| ==> i < t[k]
    ensures multiset(Select(s, Insert(keys, i, t))) == multiset(Select(s, t)) + multiset{s[i]}
    decreases |t|
  {
    if t == [] || keys[i] >= keys[t[0]] {
      SelectCons(s, i, t);
    } else {
      var rest := Insert(keys, i, t[1..]);
      assert Insert(keys, i, t) == [t[0]] + rest;
      assert t == [t[0]] + t[1..];
      SelectInsert(s, keys, i, t[1..]);
      SelectCons(s, t[0], rest);
      SelectCons(s, t[0], t[1..]);
    }
  }

  lemma {:induction false} SelectOrderFrom<T>(s: seq<T>, keys: seq<real>, lo: nat)
    requires |keys| == |s| && lo <= |keys|
    ensures multiset(Select(s, OrderFrom(keys, lo))) == multiset(s[lo..])
    decreases |keys| - lo
  {
    if lo < |keys| {
      var t := OrderFrom(keys, lo + 1);
      calc {
        multiset(Select(s, OrderFrom(keys, lo)));
        multiset(Select(s, Insert(keys, lo, t)));
        { SelectInsert(s, keys, lo, t); }
        multiset(Select(s, t)) + multiset{s[lo]};
        { SelectOrderFrom(s, keys, lo + 1); }
        multiset(s[lo + 1..]) + multiset{s[lo]};
        { assert s[lo..] == [s[lo]] + s[lo + 1..]; }
        multiset(s[lo..]);
      }
    } else {
      assert OrderFrom(keys, lo) == [];
    }
  }

  /** Sorting by `Order` rearranges `s` without adding or losing elements. */
  lemma OrderPermutes<T>(s: seq<T>, keys: seq<real>)
    requires |keys| == |s|
    ensures multiset(Select(s, Order(keys))) == multiset(s)
  {
    SelectOrderFrom(s, keys, 0);
    assert s[0..] == s;
  }

  lemma SelectAppend<T>(s: seq<T>, a: seq<nat>, b: seq<nat>)
    requires InRange(a, |s|) && InRange(b, |s|)
    ensures InRange(a + b, |s|) && Select(s, a + b) == Select(s, a) + Select(s, b)
  {
  }

  /** Removing the position `last` from distinct positions below `last + 1` leaves positions below `last`. */
  lemma DropLast(idx: seq<nat>, j: nat, last: nat)
    requires InRange(idx, last + 1) && NoDuplicates(idx) && j < |idx| && idx[j] == last
    ensures InRange(idx[..j], last) && InRange(idx[j + 1..], last)
    ensures InRange(idx[..j] + idx[j + 1..], last) && NoDuplicates(idx[..j] + idx[j + 1..])
  {
    var rest := idx[..j] + idx[j + 1..];
    forall k | 0 <= k < |rest| ensures rest[k] == idx[if k < j then k else k + 1] {
    }
  }

  /** Picking every position picks every element. */
  lemma SelectCovers<T>(s: seq<T>, idx: seq<nat>)
    requires InRange(idx, |s|) && forall i :: 0 <= i < |s| ==> i in idx
    ensures forall k :: 0 <= k < |s| ==> s[k] in Select(s, idx)
  {
    forall k | 0 <= k < |s| ensures s[k] in Select(s, idx) {
      assert k in idx;
      var j :| 0 <= j < |idx| && idx[j] == k;
      assert Select(s, idx)[j] == s[k];
    }
  }

  /** Positions below `n` pick the same elements from `s` and from its first `n` elements. */
  lemma SelectPrefix<T>(s: seq<T>, n: nat, idx: seq<nat>)
    requires n <= |s| && InRange(idx, n)
    ensures InRange(idx, |s|) && Select(s[..n], idx) == Select(s, idx)
  {
  }

  /** The multiset step of `SelectDistinct` when the last position is among those picked. */
  lemma SelectWithLast<T>(s: seq<T>, idx: seq<nat>, j: nat)
    requires s != [] && InRange(idx, |s|) && j < |idx| && idx[j] == |s| - 1
    requires InRange(idx[..j], |s| - 1) && InRange(idx[j + 1..], |s| - 1)
    requires multiset(Select(s[..|s| - 1], idx[..j] + idx[j + 1..])) <= multiset(s[..|s| - 1])
    ensures multiset(Select(s, idx)) <= multiset(s)
  {
    var last := |s| - 1;
    var init, front, back := s[..last], idx[..j], idx[j + 1..];
    assert idx == front + ([last] + back);
    SelectAppend(s, front, [last] + back);
    SelectAppend(init, front, back);
    SelectPrefix(s, last, front);
    SelectPrefix(s, last, back);
    calc {
      multiset(Select(s, idx));
      multiset(Select(s, front)) + multiset(Select(s, [last] + back));
      { SelectCons(s, last, back); }
      multiset(Select(init, front)) + multiset{s[last]} + multiset(Select(init, back));
      multiset(Select(init, front + back)) + multiset{s[last]};
    <=
      multiset(init) + multiset{s[last]};
      { assert s == init + [s[last]]; }
      multiset(s);
    }
  }

  /** Picking distinct positions picks each element at most as often as it occurs. */
  lemma {:induction false} SelectDistinct<T>(s: seq<T>, idx: seq<nat>)
    requires InRange(idx, |s|) && NoDuplicates(idx)
    ensures multiset(Select(s, idx)) <= multiset(s)
    decreases |s|
  {
    if s != [] {
      var last := |s| - 1;
      var init := s[..last];
      if last in idx {
        var j :| 0 <= j < |idx| && idx[j] == last;
        DropLast(idx, j, last);
        SelectDistinct(init, idx[..j] + idx[j + 1..]);
        SelectWithLast(s, idx, j);
      } else {
        assert InRange(idx, last);
        SelectDistinct(init, idx);
        assert s == init + [s[last]];
        assert Select(s, idx) == Select(init, idx);
      }
    }
  }

  /** Removing the element at position `j`. */
  lemma RemoveAt<T>(s: seq<T>, j: nat)
    requires j < |s|
    ensures multiset(s[..j] + s[j + 1..]) + multiset{s[j]} == multiset(s)
    ensures NoDuplicates(s) ==> NoDuplicates(s[..j] + s[j + 1..]) && s[j] !in s[..j] + s[j + 1..]
  {
    var r := s[..j] + s[j + 1..];
    assert s == s[..j] + [s[j]] + s[j + 1..];
    if NoDuplicates(s) {
      forall a, b | 0 <= a < b < |r| ensures r[a] != r[b] {
        var a' := if a < j then a else a + 1;
        var b' := if b < j then b else b + 1;
        assert r[a] == s[a'] && r[b] == s[b'];
      }
      forall a | 0 <= a < |r| ensures r[a] != s[j] {
        assert r[a] == s[if a < j then a else a + 1];
      }
    }
  }

  /** A sequence has no duplicates exactly when no element occurs twice in its multiset. */
  lemma {:induction false} NoDuplicatesCount<T>(s: seq<T>)
    ensures NoDuplicates(s) <==> forall x :: multiset(s)[x] <= 1
    decreases |s|
  {
    if s != [] {
      var h, t := s[0], s[1..];
      assert s == [h] + t;
      NoDuplicatesCount(t);
      if NoDuplicates(s) {
        assert NoDuplicates(t) by {
          forall i, j | 0 <= i < j < |t| ensures t[i] != t[j] {
            assert t[i] == s[i + 1] && t[j] == s[j + 1];
          }
        }
        assert h !in t by {
          forall j | 0 <= j < |t| ensures t[j] != h {
            assert t[j] == s[j + 1];
          }
        }
      } else {
        var i, j :| 0 <= i < j < |s| && s[i] == s[j];
        if i == 0 {
          assert s[j] == t[j - 1];
          assert multiset(s)[h] >= 2;
        } else {
          assert t[i - 1] == t[j - 1];
          assert !NoDuplicates(t);
          var x :| multiset(t)[x] > 1;
          assert multiset(s)[x] > 1;
        }
      }
    }
  }

  /** Rearranging a sequence keeps it free of duplicates. */
  lemma NoDuplicatesPermutation<T>(a: seq<T>, b: seq<T>)
    requires multiset(a) == multiset(b)
    ensures NoDuplicates(a) <==> NoDuplicates(b)
  {
    NoDuplicatesCount(a);
    NoDuplicatesCount(b);
  }
}
