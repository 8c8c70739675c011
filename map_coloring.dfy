/**
 * The greedy map colouring: districts in order of decreasing number of neighbours, each taking
 * the first palette colour that none of its neighbours holds. Only `color` fields change.
 */
module MapColoring {
  import opened Wrappers
  import opened Sequences
  import opened Models

  /** The palette used when the caller gives none. */
  const DefaultPalette: seq<string> := ["red", "green", "blue", "yellow"]

  /** The palette `map_coloring` works with: the caller's, or the default when none is given. */
  function Palette(colors: Option<seq<string>>): seq<string>
  {
    if colors.None? then DefaultPalette else colors.value
  }

  /** The distinct colours of a palette. */
  function PaletteColors(palette: seq<string>): set<string>
  {
    set c | c in palette
  }

  function Degrees(districts: seq<District>): (ks: seq<real>)
    reads districts
    ensures |ks| == |districts|
  {
    seq(|districts|, k requires 0 <= k < |districts| reads districts => |districts[k].adjacentDistricts| as real)
  }

  /** A stable sort of the districts by number of listed neighbours, most first. */
  function ColoringOrder(districts: seq<District>): (r: seq<District>)
    reads districts
  {
    Select(districts, Order(Degrees(districts)))
  }

  /**
   * The colouring order rearranges the districts, the ones with more neighbours first; `r[a]`
   * is the input district at position `p[a]`, and ties keep their input order.
   */
  lemma ColoringOrderSorted(districts: seq<District>)
    ensures var r, p := ColoringOrder(districts), Order(Degrees(districts));
      && multiset(r) == multiset(districts)
      && (forall a, b :: 0 <= a < b < |r| ==> |r[a].adjacentDistricts| >= |r[b].adjacentDistricts|)
      && (forall a :: 0 <= a < |r| ==> r[a] == districts[p[a]])
      && (forall a, b :: 0 <= a < b < |r| && |r[a].adjacentDistricts| == |r[b].adjacentDistricts| ==> p[a] < p[b])
  {
    OrderPermutes(districts, Degrees(districts));
    OrderSpec(Degrees(districts));
  }

  /** The colours held by the districts of `s` that have one. */
  function ColorsOf(s: seq<District>): set<string>
    reads s
  {
    set a | a in s && a.color.Some? :: a.color.value
  }

  /** A list of districts holds at most as many colours as it has entries. */
  lemma {:induction false} ColorsOfBound(s: seq<District>)
    ensures |ColorsOf(s)| <= |s|
    decreases |s|
  {
    if s == [] {
      assert ColorsOf(s) == {};
    } else {
      var p, x := s[..|s| - 1], s[|s| - 1];
      ColorsOfBound(p);
      assert s == p + [x];
      assert ColorsOf(s) == ColorsOf(p) + if x.color.Some? then {x.color.value} else {};
    }
  }

  lemma SubsetCard<T>(a: set<T>, b: set<T>)
    requires a <= b
    ensures |a| <= |b|
    decreases a
  {
    if a != {} {
      var x :| x in a;
      SubsetCard(a - {x}, b - {x});
    }
  }

  /** The position of the first palette colour not in `used`, if there is one. */
  function FirstFree(palette: seq<string>, used: set<string>): (r: Option<nat>)
    ensures r.Some? ==> r.value < |palette| && palette[r.value] !in used
    ensures r.Some? ==> forall j :: 0 <= j < r.value ==> palette[j] in used
    ensures r.None? ==> forall j :: 0 <= j < |palette| ==> palette[j] in used
    decreases |palette|
  {
    if palette == [] then None
    else if palette[0] !in used then Some(0)
    else match FirstFree(palette[1..], used)
      case None => None
      case Some(i) => Some(i + 1)
  }

  /** A palette with more distinct colours than `used` has a colour outside `used`. */
  lemma FreeColorExists(palette: seq<string>, used: set<string>)
    requires |used| < |PaletteColors(palette)|
    ensures FirstFree(palette, used).Some?
  {
    if FirstFree(palette, used).None? {
      assert PaletteColors(palette) <= used;
      SubsetCard(PaletteColors(palette), used);
    }
  }

  /** Neighbours of two different districts of `graph` never hold the same colour. */
  ghost predicate Proper(graph: seq<District>)
    reads graph, set u, v | u in graph && v in u.adjacentDistricts :: v
  {
    forall u, v :: u in graph && v in u.adjacentDistricts && u != v && u.color.Some? && v.color.Some? ==>
      u.color != v.color
  }

  /** A map where no district and no neighbour has a colour yet. */
  ghost predicate Uncolored(graph: seq<District>)
    reads graph, set u, v | u in graph && v in u.adjacentDistricts :: v
  {
    forall u :: u in graph ==> u.color.None? && forall v :: v in u.adjacentDistricts ==> v.color.None?
  }

  lemma UncoloredProper(graph: seq<District>)
    requires Uncolored(graph)
    ensures Proper(graph)
  {
  }

  /**
   * One step of the loop in `map_coloring`: `district` takes the first palette colour that no
   * neighbour holds, and keeps its colour when every palette colour is taken. In a symmetric
   * map containing `district`, a proper colouring stays proper.
   */
  method ColorDistrict(district: District, palette: seq<string>, ghost graph: seq<District>)
    modifies district`color
    ensures var i := FirstFree(palette, old(ColorsOf(district.adjacentDistricts)));
      district.color == if i.Some? then Some(palette[i.value]) else old(district.color)
    ensures district in graph && Symmetric(graph) && old(Proper(graph)) ==> Proper(graph)
    ensures old(district.color).Some? || |district.adjacentDistricts| < |PaletteColors(palette)| ==> district.color.Some?
  {
    var used := ColorsOf(district.adjacentDistricts);
    ColorsOfBound(district.adjacentDistricts);
    if |district.adjacentDistricts| < |PaletteColors(palette)| {
      FreeColorExists(palette, used);
    }
    var i := 0;
    while i < |palette| && palette[i] in used
      invariant 0 <= i <= |palette|
      invariant forall j :: 0 <= j < i ==> palette[j] in used
    {
      i := i + 1;
    }
    if i < |palette| {
      district.color := Some(palette[i]);
      if district in graph && Symmetric(graph) && old(Proper(graph)) {
        forall u, v | u in graph && v in u.adjacentDistricts && u != v && u.color.Some? && v.color.Some?
          ensures u.color != v.color
        {
          if u == district {
            assert v.color == old(v.color) && v.color.value in used;
          } else if v == district {
            assert u in district.adjacentDistricts;
            assert u.color == old(u.color) && u.color.value in used;
          } else {
            assert u.color == old(u.color) && v.color == old(v.color);
          }
        }
      }
    }
  }

  /**
   * The loop body of `map_coloring` for the district at position `k` of the colouring order:
   * what the loop keeps over `graph`, the districts being coloured.
   */
  method ColorNext(district: District, order: seq<District>, k: nat, palette: seq<string>, ghost graph: seq<District>, ghost roomy: bool)
    requires k < |order| && order[k] == district && district in graph
    requires roomy ==> |order[k].adjacentDistricts| < |PaletteColors(palette)|
    requires roomy ==> forall j :: 0 <= j < k ==> order[j].color.Some?
    modifies district`color
    ensures Symmetric(graph) && old(Proper(graph)) ==> Proper(graph)
    ensures order[k].color == old(order[k].color) || (order[k].color.Some? && order[k].color.value in palette)
    ensures roomy ==> forall j :: 0 <= j <= k ==> order[j].color.Some?
  {
    ColorDistrict(district, palette, graph);
    if roomy {
      forall j | 0 <= j <= k ensures order[j].color.Some? {
        if j < k {
          assert old(order[j].color).Some?;
        }
      }
    }
  }

  /**
   * `map_coloring(districts, colors)`: colours the districts in place and returns the same
   * list. In a symmetric map a proper colouring stays proper; every colour given out comes from
   * the palette; with more palette colours than any district has neighbours, every district
   * ends up coloured.
   */
  method MapColoring(districts: seq<District>, colors: Option<seq<string>>) returns (result: seq<District>)
    modifies set d | d in districts :: d`color
    ensures result == districts
    ensures Symmetric(districts) && old(Proper(districts)) ==> Proper(districts)
    ensures forall d :: d in districts ==> d.color == old(d.color) || (d.color.Some? && d.color.value in Palette(colors))
    ensures (forall d :: d in districts ==> |d.adjacentDistricts| < |PaletteColors(Palette(colors))|) ==>
      forall d :: d in districts ==> d.color.Some?
  {
    var palette := Palette(colors);
    var order := ColoringOrder(districts);
    OrderPermutes(districts, Degrees(districts));
    forall j | 0 <= j < |order| ensures order[j] in districts {
      assert order[j] in multiset(districts);
    }
    ghost var roomy := forall d :: d in districts ==> |d.adjacentDistricts| < |PaletteColors(palette)|;
    for k := 0 to |order|
      invariant Symmetric(districts) && old(Proper(districts)) ==> Proper(districts)
      invariant forall d :: d in districts ==> d.color == old(d.color) || (d.color.Some? && d.color.value in palette)
      invariant roomy ==> forall j :: 0 <= j < k ==> order[j].color.Some?
    {
      ColorNext(order[k], order, k, palette, districts, roomy);
    }
    if roomy {
      forall d | d in districts ensures d.color.Some? {
        assert d in multiset(order);
      }
    }
    result := districts;
  }
}
