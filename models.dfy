/**
 * The three entities of the planner. Each is a class because the planner updates their
 * fields in place; fields the planner never reassigns are `const`.
 */
module Models {
  import opened Wrappers
  import opened Geometry
  import opened Sequences

  /** A bin whose fill level is above this needs emptying. */
  const EmptyingThreshold: real := 65.0
  /** Bins of this type are accepted by every truck. */
  const MixedType: string := "Mixed"

  class District {
    const districtId: int
    const name: string
    var adjacentDistricts: seq<District>
    var color: Option<string>
    var wasteBins: seq<WasteBin>

    constructor (districtId: int, name: string, adjacentDistricts: seq<District> := [])
      ensures this.districtId == districtId && this.name == name
      ensures this.adjacentDistricts == adjacentDistricts
      ensures color == None && wasteBins == []
    {
      this.districtId := districtId;
      this.name := name;
      this.adjacentDistricts := adjacentDistricts;
      color := None;
      wasteBins := [];
    }

    /**
     * Records `district` as a neighbour of this district and this district as a neighbour of
     * `district`, unless `district` is already listed. `graph` is a ghost view of the map used
     * to state that adjacency stays symmetric and free of duplicates and self-loops.
     */
    method AddAdjacentDistrict(district: District, ghost graph: seq<District>)
      modifies this, district
      ensures color == old(color) && wasteBins == old(wasteBins)
      ensures district.color == old(district.color) && district.wasteBins == old(district.wasteBins)
      ensures district in old(adjacentDistricts) ==>
        adjacentDistricts == old(adjacentDistricts) &&
        district.adjacentDistricts == old(district.adjacentDistricts)
      ensures district !in old(adjacentDistricts) && district != this ==>
        adjacentDistricts == old(adjacentDistricts) + [district] &&
        district.adjacentDistricts == old(district.adjacentDistricts) + [this]
      ensures district !in old(adjacentDistricts) && district == this ==>
        adjacentDistricts == old(adjacentDistricts) + [this, this]
      ensures (this in graph && district in graph && this != district &&
               old(Symmetric(graph) && Simple(graph))) ==>
        Symmetric(graph) && Simple(graph) &&
        district in adjacentDistricts && this in district.adjacentDistricts
    {
      if district !in adjacentDistricts {
        adjacentDistricts := adjacentDistricts + [district];
        district.adjacentDistricts := district.adjacentDistricts + [this];
      }
    }

    method AddWasteBin(wasteBin: WasteBin)
      modifies this
      ensures wasteBins == old(wasteBins) + [wasteBin]
      ensures adjacentDistricts == old(adjacentDistricts) && color == old(color)
    {
      wasteBins := wasteBins + [wasteBin];
    }
  }

  /** Every listed neighbour of a district in `graph` lists that district back. */
  ghost predicate Symmetric(graph: seq<District>)
    reads set u | u in graph :: u`adjacentDistricts
  {
    forall u, v :: u in graph && v in graph && v in u.adjacentDistricts ==> u in v.adjacentDistricts
  }

  /** No district of `graph` lists a neighbour twice or lists itself. */
  ghost predicate Simple(graph: seq<District>)
    reads set u | u in graph :: u`adjacentDistricts
  {
    forall u :: u in graph ==> NoDuplicates(u.adjacentDistricts) && u !in u.adjacentDistricts
  }

  class WasteBin {
    const binId: string
    const location: Point
    const capacity: real
    var currentLevel: real
    /** Fixed when the bin is created: a later change of `currentLevel` does not update it. */
    const emptyingNeeded: bool
    const containerType: string
    const binType: string

    constructor (binId: string, location: Point, fillLevel: real, capacity: real := 100.0,
                 binType: string := "Mixed", containerType: string := "Standard")
      ensures this.binId == binId && this.location == location && this.capacity == capacity
      ensures currentLevel == fillLevel && this.binType == binType && this.containerType == containerType
      ensures emptyingNeeded <==> fillLevel > EmptyingThreshold
    {
      this.binId := binId;
      this.location := location;
      this.capacity := capacity;
      currentLevel := fillLevel;
      emptyingNeeded := fillLevel > EmptyingThreshold;
      this.containerType := containerType;
      this.binType := binType;
    }

    /** The fill level as a percentage of the bin's capacity. */
    function FillPercentage(): (p: real)
      reads this
      requires capacity != 0.0
      ensures p * capacity == currentLevel * 100.0
    {
      currentLevel / capacity * 100.0
    }
  }

  class Truck {
    const truckId: int
    const capacity: real
    var currentLoad: real
    var route: seq<WasteBin>
    /** `None` or `Some("")` stand for a general-purpose truck (both are false in Python). */
    const binTypeSpecialty: Option<string>

    constructor (truckId: int, capacity: real, binTypeSpecialty: Option<string> := None)
      ensures this.truckId == truckId && this.capacity == capacity
      ensures this.binTypeSpecialty == binTypeSpecialty
      ensures currentLoad == 0.0 && route == []
    {
      this.truckId := truckId;
      this.capacity := capacity;
      currentLoad := 0.0;
      route := [];
      this.binTypeSpecialty := binTypeSpecialty;
    }

    predicate Specialised()
    {
      binTypeSpecialty.Some? && binTypeSpecialty.value != ""
    }

    /** The truck's type rule: a specialised truck takes its own type and "Mixed" only. */
    predicate Accepts(binType: string)
    {
      !Specialised() || binType == binTypeSpecialty.value || binType == MixedType
    }

    function CanHandle(wasteBin: WasteBin): (ok: bool)
      reads this, wasteBin
      ensures Specialised() && wasteBin.binType != binTypeSpecialty.value && wasteBin.binType != MixedType ==> !ok
      ensures Accepts(wasteBin.binType) ==> (ok <==> currentLoad + wasteBin.currentLevel <= capacity)
    {
      if Specialised() && wasteBin.binType != binTypeSpecialty.value && wasteBin.binType != MixedType then false
      else currentLoad + wasteBin.currentLevel <= capacity
    }

    method AddBinToRoute(wasteBin: WasteBin) returns (added: bool)
      modifies this`route
      ensures added == CanHandle(wasteBin)
      ensures route == if added then old(route) + [wasteBin] else old(route)
      ensures currentLoad == old(currentLoad)
    {
      if CanHandle(wasteBin) {
        route := route + [wasteBin];
        return true;
      }
      return false;
    }

    method CollectWaste(wasteBin: WasteBin) returns (collected: bool)
      modifies this`currentLoad, wasteBin`currentLevel
      ensures collected == old(CanHandle(wasteBin))
      ensures collected ==> currentLoad == old(currentLoad) + old(wasteBin.currentLevel) && wasteBin.currentLevel == 0.0
      ensures !collected ==> currentLoad == old(currentLoad) && wasteBin.currentLevel == old(wasteBin.currentLevel)
      ensures old(currentLoad) <= capacity ==> currentLoad <= capacity
      ensures route == old(route)
    {
      if CanHandle(wasteBin) {
        currentLoad := currentLoad + wasteBin.currentLevel;
        wasteBin.currentLevel := 0.0;
        return true;
      }
      return false;
    }
  }
}
