/**
 * The older generator of Generators/Generator.kt: a structure filled in
 * from outside, intake chests picked out of it on demand, a climate zone
 * of fixed radius warming by a fixed heat while it runs, and a coal
 * consumer that the scheduler calls.
 */
module LegacyGenerators {
  import opened Wrappers
  import opened Geometry
  import opened Materials
  import opened Zones
  import opened Climate
  import opened Enclosure
  import opened Inventories
  import opened Generators

  /** Kotlin's `addAll` on a LinkedHashSet: each new element is appended once, in order. */
  function AddAll(s: seq<Coord>, xs: seq<Coord>): (r: seq<Coord>)
    ensures forall c :: c in r <==> c in s || c in xs
    ensures |s| <= |r| && r[..|s|] == s
  {
    if xs == [] then s
    else
      var init := AddAll(s, xs[..|xs| - 1]);
      var x := xs[|xs| - 1];
      assert xs == xs[..|xs| - 1] + [x];
      if x in init then init
      else
        assert (init + [x])[..|s|] == init[..|s|];
        init + [x]
  }

  /** Adding to a set never duplicates. */
  lemma {:induction false} AddAllDistinct(s: seq<Coord>, xs: seq<Coord>)
    requires DistinctBlocks(s)
    ensures DistinctBlocks(AddAll(s, xs))
  {
    if xs != [] {
      AddAllDistinct(s, xs[..|xs| - 1]);
    }
  }

  /** Adding what is already there changes nothing. */
  lemma {:induction false} AddAllPresent(s: seq<Coord>, xs: seq<Coord>)
    requires forall x :: x in xs ==> x in s
    ensures AddAll(s, xs) == s
  {
    if xs != [] {
      AddAllPresent(s, xs[..|xs| - 1]);
    }
  }

  /** The blocks of `s` that are chests, in order. */
  function ChestsIn(blocks: map<Coord, Material>, s: seq<Coord>): (r: seq<Coord>)
    ensures forall c :: c in r <==> c in s && TypeOf(blocks, c) == Chest
  {
    if s == [] then []
    else
      var last := s[|s| - 1];
      assert s == s[..|s| - 1] + [last];
      ChestsIn(blocks, s[..|s| - 1]) + (if TypeOf(blocks, last) == Chest then [last] else [])
  }

  /** The climate rule of the legacy zone: the global temperature plus the generator's heat. */
  function WarmBy(heat: real): real -> real
  {
    global => global + heat
  }

  class LegacyGenerator {
    var radius: int
    const origin: Point
    const controller: Coord
    var consumption: nat
    var heat: real
    var durability: real
    const world: World

    /** A LinkedHashSet of blocks. */
    var structure: seq<Coord>
    var stress: real
    /** A LinkedHashSet of the chests found so far. */
    var intakes: seq<Coord>
    var state: GeneratorState
    var consumerId: Option<int>

    /** Neither block set lists a block twice. */
    ghost predicate Valid()
      reads this`structure, this`intakes
    {
      DistinctBlocks(structure) && DistinctBlocks(intakes)
    }

    constructor (radius: int, origin: Point, controller: Coord, consumption: nat, heat: real,
                 durability: real, world: World)
      ensures Valid()
      ensures this.radius == radius && this.origin == origin && this.controller == controller
      ensures this.consumption == consumption && this.heat == heat && this.durability == durability
      ensures this.world == world
      ensures structure == [] && stress == 0.0 && intakes == [] && state == Off && consumerId == None
    {
      this.radius := radius;
      this.origin := origin;
      this.controller := controller;
      this.consumption := consumption;
      this.heat := heat;
      this.durability := durability;
      this.world := world;
      structure, stress, intakes, state, consumerId := [], 0.0, [], Off, None;
    }

    /** `addBlock`: the structure only grows, by the block unless it is already there. */
    method AddBlock(block: Coord)
      requires Valid()
      modifies this`structure
      ensures Valid()
      ensures structure == AddAll(old(structure), [block])
      ensures forall c :: c in structure <==> c in old(structure) || c == block
    {
      assert [block][..0] == [];
      if block !in structure {
        structure := structure + [block];
      }
    }

    /** `addBlocks`: `addAll` on the structure. */
    method AddBlocks(blocks: seq<Coord>)
      requires Valid()
      modifies this`structure
      ensures Valid()
      ensures structure == AddAll(old(structure), blocks)
      ensures forall c :: c in structure <==> c in old(structure) || c in blocks
    {
      var i := 0;
      while i < |blocks|
        invariant 0 <= i <= |blocks|
        invariant Valid()
        invariant structure == AddAll(old(structure), blocks[..i])
      {
        assert blocks[..i + 1][..i] == blocks[..i];
        AddAllDistinct(old(structure), blocks[..i + 1]);
        if blocks[i] !in structure {
          structure := structure + [blocks[i]];
        }
        i := i + 1;
      }
      assert blocks[..i] == blocks;
    }

    /** `findIntakes`: every chest of the structure joins the intakes, in structure order. */
    method FindIntakes(blocks: map<Coord, Material>)
      requires Valid()
      modifies this`intakes
      ensures Valid()
      ensures intakes == AddAll(old(intakes), ChestsIn(blocks, structure))
      ensures forall c :: c in intakes <==> c in old(intakes) || (c in structure && TypeOf(blocks, c) == Chest)
    {
      var i := 0;
      while i < |structure|
        invariant 0 <= i <= |structure|
        invariant Valid()
        invariant intakes == AddAll(old(intakes), ChestsIn(blocks, structure[..i]))
      {
        var block := structure[i];
        ghost var found := ChestsIn(blocks, structure[..i]);
        assert structure[..i + 1][..i] == structure[..i];
        AddAllDistinct(old(intakes), ChestsIn(blocks, structure[..i + 1]));
        if TypeOf(blocks, block) == Chest {
          assert ChestsIn(blocks, structure[..i + 1]) == found + [block];
          assert (found + [block])[..|found|] == found;
          if block !in intakes {
            intakes := intakes + [block];
          }
        } else {
          assert ChestsIn(blocks, structure[..i + 1]) == found;
        }
        i := i + 1;
      }
      assert structure[..i] == structure;
    }

    /** `hasFuel`: some intake chest holds coal. */
    method HasFuel(chests: Chests) returns (fuel: bool)
      ensures fuel <==> AnyCoal(intakes, chests.coal)
    {
      var i := 0;
      while i < |intakes|
        invariant 0 <= i <= |intakes|
        invariant forall j :: 0 <= j < i ==> CoalAt(chests.coal, intakes[j]) == 0
      {
        if CoalAt(chests.coal, intakes[i]) > 0 {
          return true;
        }
        i := i + 1;
      }
      return false;
    }

    /** `generateZone`: a climate zone of the generator's radius at its origin. */
    method GenerateZone(mgr: ClimateManager)
      requires mgr.Valid()
      modifies mgr
      ensures mgr.Valid() && mgr.globalTemperature == old(mgr.globalTemperature)
      ensures |mgr.zones| == |old(mgr.zones)| + 1 && mgr.zones[..|old(mgr.zones)|] == old(mgr.zones)
      ensures OwnZone(mgr.zones[|mgr.zones| - 1])
    {
      var z := mgr.CreateClimateZone(world, origin, radius as real, WarmBy(heat));
      assert mgr.zones[..|old(mgr.zones)|] == old(mgr.zones);
    }

    /** `z` is this generator's zone: at its origin, of its radius, warming by its heat. */
    ghost predicate OwnZone(z: Zone)
      reads this`radius, this`heat
    {
      At(z, world, origin) && z.radius == radius as real && z.rule == Climate(WarmBy(heat))
    }

    /** `removeZone`. */
    method RemoveZone(mgr: ClimateManager)
      requires mgr.Valid()
      modifies mgr
      ensures mgr.Valid() && mgr.globalTemperature == old(mgr.globalTemperature)
      ensures mgr.zones == Without(old(mgr.zones), world, origin)
      ensures forall z :: z in mgr.zones ==> !At(z, world, origin)
    {
      mgr.RemoveClimateZoneAt(world, origin);
    }

    /**
     * `powerOff`. The consumer id is dereferenced with `!!` first, so with no
     * consumer running the call throws before changing anything: `ok` is false.
     */
    method PowerOff(mgr: ClimateManager) returns (ok: bool)
      requires mgr.Valid()
      modifies this`consumerId, this`state, mgr
      ensures mgr.Valid() && mgr.globalTemperature == old(mgr.globalTemperature)
      ensures ok <==> old(consumerId).Some?
      ensures !ok ==> consumerId == old(consumerId) && state == old(state) && mgr.zones == old(mgr.zones)
      ensures ok ==> consumerId == None && state == Off && mgr.zones == Without(old(mgr.zones), world, origin)
    {
      if consumerId.None? {
        return false;
      }
      consumerId := None;
      RemoveZone(mgr);
      state := Off;
      return true;
    }

    /**
     * `consumeFuel`: without fuel the generator powers off; otherwise
     * `consumption` pieces of coal leave the first intake chest that has any.
     */
    method ConsumeFuel(chests: Chests, mgr: ClimateManager) returns (ok: bool)
      requires mgr.Valid()
      modifies this`consumerId, this`state, chests, mgr
      ensures mgr.Valid() && mgr.globalTemperature == old(mgr.globalTemperature)
      ensures !old(AnyCoal(intakes, chests.coal)) ==>
        && chests.coal == old(chests.coal)
        && (ok <==> old(consumerId).Some?)
        && (ok ==> consumerId == None && state == Off && mgr.zones == Without(old(mgr.zones), world, origin))
        && (!ok ==> consumerId == old(consumerId) && state == old(state) && mgr.zones == old(mgr.zones))
      ensures old(AnyCoal(intakes, chests.coal)) ==>
        var k := FirstWithCoal(intakes, old(chests.coal));
        && ok && k < |intakes|
        && CoalAt(chests.coal, intakes[k]) == AfterRemoving(CoalAt(old(chests.coal), intakes[k]), consumption)
        && (forall c :: c != intakes[k] ==> CoalAt(chests.coal, c) == CoalAt(old(chests.coal), c))
        && consumerId == old(consumerId) && state == old(state) && mgr.zones == old(mgr.zones)
    {
      FirstWithCoalFound(intakes, chests.coal);
      var fuel := HasFuel(chests);
      if !fuel {
        ok := PowerOff(mgr);
        return;
      }
      var i := 0;
      while i < |intakes|
        invariant 0 <= i <= |intakes|
        invariant chests.coal == old(chests.coal)
        invariant forall j :: 0 <= j < i ==> CoalAt(chests.coal, intakes[j]) == 0
      {
        if CoalAt(chests.coal, intakes[i]) > 0 {
          FirstWithCoalAt(intakes, chests.coal, i);
          chests.RemoveCoal(intakes[i], consumption);
          return true;
        }
        i := i + 1;
      }
      return true;
    }

    /**
     * `powerOn`: without fuel nothing happens; otherwise the zone is created,
     * the consumer id recorded and the generator turned on, even when the
     * scheduler answered -1.
     */
    method PowerOn(chests: Chests, mgr: ClimateManager, scheduledId: int)
      requires mgr.Valid()
      modifies this`consumerId, this`state, mgr
      ensures mgr.Valid() && mgr.globalTemperature == old(mgr.globalTemperature)
      ensures !AnyCoal(intakes, chests.coal) ==>
        consumerId == old(consumerId) && state == old(state) && mgr.zones == old(mgr.zones)
      ensures AnyCoal(intakes, chests.coal) ==>
        && |mgr.zones| == |old(mgr.zones)| + 1 && mgr.zones[..|old(mgr.zones)|] == old(mgr.zones)
        && OwnZone(mgr.zones[|mgr.zones| - 1])
        && consumerId == Some(scheduledId) && state == On
    {
      var fuel := HasFuel(chests);
      if !fuel {
        return;
      }
      GenerateZone(mgr);
      consumerId := Some(scheduledId);
      state := On;
    }
  }

  /** A zone created by `powerOn` reports the global temperature plus the heat, everywhere inside it. */
  lemma OwnZoneWarms(g: LegacyGenerator, z: Zone, global: real, p: Point, distance: (Point, Point) -> real)
    requires g.OwnZone(z) && z.Consistent(global)
    ensures z.TemperatureAt(p, distance) == global + g.heat
  {
  }
}
