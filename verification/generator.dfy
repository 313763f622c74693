/**
 * The multi-block generator of generators/Generator.kt. From an origin
 * block it discovers a contiguous structure of classified blocks, sorts
 * them into role buckets, derives heat, stress, range and durability from
 * the bucket sizes, and while running keeps one heat zone registered at its
 * origin and burns coal from its chests.
 */
module Generators {
  import opened Wrappers
  import opened Geometry
  import opened Materials
  import opened Zones
  import opened Climate
  import opened Enclosure
  import opened Inventories

  /** The bucket a block is sorted into. */
  datatype Role = HeatRole | ControlRole | StructureRole | DissipationRole | ExhaustRole | IntakeRole

  datatype GeneratorState = On | Off | PoweringOn | PoweringOff

  /** Why a generator cannot be built (`InvalidStructureException`). */
  datatype BuildError = InvalidStructure

  const HeatBlocks: set<Material> := {Furnace, BlastFurnace, Smoker}
  const ControlBlocks: set<Material> := {RedstoneBlock}
  const StructureBlocks: set<Material> := {IronBlock, GoldBlock, DiamondBlock, NetheriteBlock}
  const DissipationBlocks: set<Material> := {Dispenser, Dropper}
  const ExhaustBlocks: set<Material> := {Campfire}

  const HeatBlockHeat: real := 50.0
  const ExhaustHeat: real := 25.0
  const DissipationBlockRange: real := 5.0
  const DissipationBlockStress: real := 10.0
  const ControlBlocksStressDecrease: real := 5.0
  const BaseHeatRange: real := 10.0
  const StructureBlockDurability: real := 10.0

  /** The role of a material: the first role set that contains it, chests last. */
  function RoleOf(m: Material): Option<Role>
  {
    if m in HeatBlocks then Some(HeatRole)
    else if m in ControlBlocks then Some(ControlRole)
    else if m in StructureBlocks then Some(StructureRole)
    else if m in DissipationBlocks then Some(DissipationRole)
    else if m in ExhaustBlocks then Some(ExhaustRole)
    else if m == Chest then Some(IntakeRole)
    else None
  }

  /** The block type at `b`; positions the map leaves out are air. */
  function TypeOf(blocks: map<Coord, Material>, b: Coord): (m: Material)
    ensures b !in blocks ==> IsAir(m)
  {
    if b in blocks then blocks[b] else Air
  }

  predicate Classified(blocks: map<Coord, Material>, b: Coord)
  {
    RoleOf(TypeOf(blocks, b)).Some?
  }

  /** The classified blocks of the world: finitely many, since the rest is air. */
  ghost function ClassifiedBlocks(blocks: map<Coord, Material>): set<Coord>
  {
    set b | b in blocks && Classified(blocks, b)
  }

  /** The neighbours among `ns` that discovery pushes: the unvisited ones, in order. */
  function Unvisited(ns: seq<Coord>, visited: set<Coord>): (r: seq<Coord>)
    ensures forall n :: n in r <==> n in ns && n !in visited
  {
    if ns == [] then []
    else
      var last := ns[|ns| - 1];
      assert ns == ns[..|ns| - 1] + [last];
      Unvisited(ns[..|ns| - 1], visited) + (if last !in visited then [last] else [])
  }

  function Elements(s: seq<Coord>): set<Coord>
  {
    set b | b in s
  }

  /** Every block of `bucket` has a material of role `r`. */
  ghost predicate Typed(blocks: map<Coord, Material>, bucket: set<Coord>, r: Role)
  {
    forall b :: b in bucket ==> RoleOf(TypeOf(blocks, b)) == Some(r)
  }

  lemma TypedSubset(blocks: map<Coord, Material>, a: set<Coord>, b: set<Coord>, r: Role)
    requires a <= b && Typed(blocks, b, r)
    ensures Typed(blocks, a, r)
  {
  }

  /** Taking one block out of each of six sets takes it out of their union. */
  lemma UnionWithout(a: set<Coord>, b: set<Coord>, c: set<Coord>, d: set<Coord>, e: set<Coord>, f: set<Coord>,
                     a': set<Coord>, b': set<Coord>, c': set<Coord>, d': set<Coord>, e': set<Coord>, f': set<Coord>,
                     x: Coord)
    requires a' == a - {x} && b' == b - {x} && c' == c - {x} && d' == d - {x} && e' == e - {x} && f' == f - {x}
    ensures a' + b' + c' + d' + e' + f' == (a + b + c + d + e + f) - {x}
  {
  }

  /** No block lies in two of the six sets. */
  predicate Apart(a: set<Coord>, b: set<Coord>, c: set<Coord>, d: set<Coord>, e: set<Coord>, f: set<Coord>)
  {
    && a !! b && a !! c && a !! d && a !! e && a !! f
    && b !! c && b !! d && b !! e && b !! f
    && c !! d && c !! e && c !! f
    && d !! e && d !! f
    && e !! f
  }

  lemma ApartShrink(a: set<Coord>, b: set<Coord>, c: set<Coord>, d: set<Coord>, e: set<Coord>, f: set<Coord>,
                    a': set<Coord>, b': set<Coord>, c': set<Coord>, d': set<Coord>, e': set<Coord>, f': set<Coord>)
    requires Apart(a, b, c, d, e, f)
    requires a' <= a && b' <= b && c' <= c && d' <= d && e' <= e && f' <= f
    ensures Apart(a', b', c', d', e', f')
  {
  }

  predicate DistinctBlocks(s: seq<Coord>)
  {
    forall i, j :: 0 <= i < j < |s| ==> s[i] != s[j]
  }

  /** A walk from `origin` through face-adjacent classified blocks. */
  ghost predicate ClassifiedPath(blocks: map<Coord, Material>, origin: Coord, path: seq<Coord>)
  {
    |path| > 0 && path[0] == origin &&
    (forall k :: 0 <= k < |path| ==> Classified(blocks, path[k])) &&
    (forall k :: 0 < k < |path| ==> Adjacent(path[k - 1], path[k]))
  }

  /** `b` belongs to the structure grown from `origin`. */
  ghost predicate InComponent(blocks: map<Coord, Material>, origin: Coord, b: Coord)
  {
    exists path :: ClassifiedPath(blocks, origin, path) && path[|path| - 1] == b
  }

  ghost predicate Touches(structure: set<Coord>, c: Coord)
  {
    exists s :: s in structure && Adjacent(s, c)
  }

  lemma ExtendComponent(blocks: map<Coord, Material>, origin: Coord, s: Coord, c: Coord)
    requires InComponent(blocks, origin, s) && Adjacent(s, c) && Classified(blocks, c)
    ensures InComponent(blocks, origin, c)
  {
    var p :| ClassifiedPath(blocks, origin, p) && p[|p| - 1] == s;
    var path := p + [c];
    forall k | 0 < k < |path|
      ensures Adjacent(path[k - 1], path[k])
    {
      if k < |p| {
        assert path[k - 1] == p[k - 1] && path[k] == p[k];
      }
    }
    assert ClassifiedPath(blocks, origin, path);
  }

  /** A set holding the origin and closed under classified neighbours holds every classified walk. */
  lemma {:induction false} ClosedHoldsWalks(blocks: map<Coord, Material>, origin: Coord, r: set<Coord>, path: seq<Coord>)
    requires origin in r
    requires forall s, n :: s in r && Adjacent(s, n) && Classified(blocks, n) ==> n in r
    requires ClassifiedPath(blocks, origin, path)
    ensures path[|path| - 1] in r
  {
    if |path| > 1 {
      var prefix := path[..|path| - 1];
      assert ClassifiedPath(blocks, origin, prefix);
      ClosedHoldsWalks(blocks, origin, r, prefix);
    }
  }

  /** What `discoverStructure` knows part-way: see the comment on each line. */
  ghost predicate DiscoveryInv(blocks: map<Coord, Material>, origin: Coord, structure: set<Coord>,
                               visited: set<Coord>, stack: seq<Coord>)
  {
    // every structure block was popped, and every popped classified block joined
    && structure <= visited
    && (forall v :: v in visited ==> v in structure || !Classified(blocks, v))
    // the structure is connected to the origin
    && (forall s :: s in structure ==> InComponent(blocks, origin, s))
    // no neighbour of the structure is forgotten
    && (forall s, n :: s in structure && Adjacent(s, n) ==> n in visited || n in stack)
    && (origin in visited || origin in stack)
    // every stacked block is the origin or next to the structure
    && (forall c :: c in stack ==> c == origin || Touches(structure, c))
  }

  lemma DiscoveryStart(blocks: map<Coord, Material>, origin: Coord)
    ensures DiscoveryInv(blocks, origin, {}, {}, [origin])
  {
  }

  lemma StepKeepsVisited(blocks: map<Coord, Material>, structure: set<Coord>, visited: set<Coord>,
                         current: Coord, structure': set<Coord>)
    requires structure <= visited
    requires forall v :: v in visited ==> v in structure || !Classified(blocks, v)
    requires structure' == structure + (if Classified(blocks, current) then {current} else {})
    ensures structure' <= visited + {current}
    ensures forall v :: v in visited + {current} ==> v in structure' || !Classified(blocks, v)
  {
  }

  lemma StepKeepsConnected(blocks: map<Coord, Material>, origin: Coord, structure: set<Coord>,
                           current: Coord, structure': set<Coord>)
    requires forall s :: s in structure ==> InComponent(blocks, origin, s)
    requires current == origin || Touches(structure, current)
    requires structure' == structure + (if Classified(blocks, current) then {current} else {})
    ensures forall s :: s in structure' ==> InComponent(blocks, origin, s)
  {
    if Classified(blocks, current) {
      if current != origin {
        var s :| s in structure && Adjacent(s, current);
        ExtendComponent(blocks, origin, s, current);
      } else {
        assert ClassifiedPath(blocks, origin, [origin]);
      }
    }
  }

  lemma StepKeepsFrontier(blocks: map<Coord, Material>, origin: Coord, structure: set<Coord>,
                          visited: set<Coord>, popped: seq<Coord>, current: Coord,
                          structure': set<Coord>, added: bool, stack': seq<Coord>)
    requires forall s, n :: s in structure && Adjacent(s, n) ==> n in visited || n in popped + [current]
    requires origin in visited || origin in popped + [current]
    requires structure' == structure + (if added then {current} else {})
    requires stack' == popped + (if added then Unvisited(Neighbours(current), visited + {current}) else [])
    ensures forall s, n :: s in structure' && Adjacent(s, n) ==> n in visited + {current} || n in stack'
    ensures origin in visited + {current} || origin in stack'
  {
    forall s, n | s in structure' && Adjacent(s, n)
      ensures n in visited + {current} || n in stack'
    {
      if s in structure {
        assert n in visited || n in popped + [current];
        assert n in popped ==> n in stack';
      }
    }
    assert origin in popped ==> origin in stack';
  }

  lemma StepKeepsStack(structure: set<Coord>, origin: Coord, popped: seq<Coord>, current: Coord,
                       visited': set<Coord>, structure': set<Coord>, added: bool, stack': seq<Coord>)
    requires forall c :: c in popped ==> c == origin || Touches(structure, c)
    requires structure <= structure'
    requires added ==> current in structure'
    requires stack' == popped + (if added then Unvisited(Neighbours(current), visited') else [])
    ensures forall c :: c in stack' ==> c == origin || Touches(structure', c)
  {
    forall c | c in stack'
      ensures c == origin || Touches(structure', c)
    {
      if c in popped {
        if c != origin {
          var s :| s in structure && Adjacent(s, c);
          assert s in structure';
        }
      } else {
        assert Adjacent(current, c);
      }
    }
  }

  /** One pass of the discovery loop keeps its invariant. */
  lemma DiscoveryStep(blocks: map<Coord, Material>, origin: Coord, structure: set<Coord>,
                      visited: set<Coord>, popped: seq<Coord>, current: Coord,
                      structure': set<Coord>, added: bool)
    requires DiscoveryInv(blocks, origin, structure, visited, popped + [current])
    requires structure' == structure + (if Classified(blocks, current) then {current} else {})
    requires added <==> Classified(blocks, current) && current !in structure
    ensures DiscoveryInv(blocks, origin, structure', visited + {current},
      popped + (if added then Unvisited(Neighbours(current), visited + {current}) else []))
  {
    var stack' := popped + (if added then Unvisited(Neighbours(current), visited + {current}) else []);
    assert current in popped + [current];
    StepKeepsVisited(blocks, structure, visited, current, structure');
    StepKeepsConnected(blocks, origin, structure, current, structure');
    assert structure' == structure + (if added then {current} else {});
    StepKeepsFrontier(blocks, origin, structure, visited, popped, current, structure', added, stack');
    assert forall c :: c in popped ==> c in popped + [current];
    StepKeepsStack(structure, origin, popped, current, visited + {current}, structure', added, stack');
  }

  /** With nothing left to pop, the structure is the whole component of the origin. */
  lemma DiscoveryDone(blocks: map<Coord, Material>, origin: Coord, structure: set<Coord>, visited: set<Coord>)
    requires DiscoveryInv(blocks, origin, structure, visited, [])
    ensures forall b :: b in structure <==> InComponent(blocks, origin, b)
  {
    forall b | InComponent(blocks, origin, b)
      ensures b in structure
    {
      var path :| ClassifiedPath(blocks, origin, path) && path[|path| - 1] == b;
      assert Classified(blocks, origin);
      ClosedHoldsWalks(blocks, origin, structure, path);
    }
  }

  lemma ClassifiedMember(blocks: map<Coord, Material>, b: Coord)
    requires Classified(blocks, b)
    ensures b in ClassifiedBlocks(blocks)
  {
  }

  lemma PopLast(s: seq<Coord>)
    requires |s| > 0
    ensures s[..|s| - 1] + [s[|s| - 1]] == s
  {
  }

  /** The lexicographic decrease of the discovery loop's measure. */
  ghost predicate Progress(all: set<Coord>, s: set<Coord>, s': set<Coord>, n: nat, n': nat)
  {
    s' <= all && (|all - s'| < |all - s| || (|all - s'| == |all - s| && n' < n))
  }

  /** Inside the classified blocks, growing the structure by a new block shrinks what is left. */
  lemma FewerLeft(all: set<Coord>, s: set<Coord>, c: Coord)
    requires c in all && c !in s
    ensures |all - (s + {c})| < |all - s|
  {
    assert all - (s + {c}) == (all - s) - {c};
  }

  /**
   * One pass of discovery makes progress: a block that joins shrinks what is
   * left of the classified blocks, and a pass that adds nothing shrinks the stack.
   */
  lemma StepProgress(all: set<Coord>, s: set<Coord>, s': set<Coord>, c: Coord, classified: bool,
                     added: bool, n: nat, n': nat)
    requires s <= all && (classified ==> c in all)
    requires s' == s + (if classified then {c} else {})
    requires added <==> classified && c !in s
    requires !added ==> n' < n
    ensures Progress(all, s, s', n, n')
  {
    if added {
      FewerLeft(all, s, c);
    } else {
      assert s' == s;
    }
  }

  /** The amounts a generator derives from its bucket sizes. */
  function HeatFor(heatCount: nat, exhaustCount: nat): real
  {
    heatCount as real * HeatBlockHeat + exhaustCount as real * ExhaustHeat
  }

  function StressFor(dissipationCount: nat, controlCount: nat): real
  {
    var s := dissipationCount as real * DissipationBlockStress - controlCount as real * ControlBlocksStressDecrease;
    if s > 0.0 then s else 0.0
  }

  function RangeFor(dissipationCount: nat): real
  {
    BaseHeatRange + dissipationCount as real * DissipationBlockRange
  }

  function DurabilityFor(structureCount: nat): real
  {
    structureCount as real * StructureBlockDurability
  }

  /** Heat grows with every heat and exhaust block; a generator without them gives none. */
  lemma HeatGrows(h1: nat, e1: nat, h2: nat, e2: nat)
    requires h1 <= h2 && e1 <= e2
    ensures 0.0 <= HeatFor(h1, e1) <= HeatFor(h2, e2)
    ensures HeatFor(0, 0) == 0.0
  {
  }

  /**
   * Stress is never negative, vanishes exactly when there are at least two
   * control blocks per dissipation block, and more control blocks never add stress.
   */
  lemma StressProperties(d: nat, c: nat, c': nat)
    requires c <= c'
    ensures StressFor(d, c) >= 0.0
    ensures StressFor(d, c) == 0.0 <==> 2 * d <= c
    ensures StressFor(d, c') <= StressFor(d, c)
  {
  }

  /** The range is the base range plus a fixed step per dissipation block. */
  lemma RangeSteps(d: nat)
    ensures RangeFor(0) == BaseHeatRange
    ensures RangeFor(d + 1) == RangeFor(d) + DissipationBlockRange
    ensures RangeFor(d) >= BaseHeatRange
  {
  }

  /** Where the generator's zone is centred: its origin block's corner. */
  function BlockLocation(b: Coord): Point
  {
    Point(b.x as real, b.y as real, b.z as real)
  }

  /** Exactly one zone of `zs` is at (`w`, `c`), and it is the last. */
  ghost predicate OneZoneAt(zs: seq<Zone>, w: World, c: Point)
  {
    |zs| > 0 && At(zs[|zs| - 1], w, c) &&
    forall i :: 0 <= i < |zs| - 1 ==> !At(zs[i], w, c)
  }

  /** The heat zone's rule: the global temperature plus the generator's heat, falling off with distance. */
  function HeatRule(heat: real, falloff: (real, real) -> real): (real, real) -> real
  {
    (global, distance) => global + falloff(heat, distance)
  }

  /** Some block of the origin's component has role `r`. */
  ghost predicate ComponentHas(blocks: map<Coord, Material>, origin: Coord, r: Role)
  {
    exists b :: InComponent(blocks, origin, b) && RoleOf(TypeOf(blocks, b)) == Some(r)
  }

  lemma ElementsEmpty(s: seq<Coord>)
    ensures |s| > 0 <==> |Elements(s)| > 0
  {
    if |s| > 0 {
      assert s[0] in Elements(s);
    }
  }

  class Generator {
    const origin: Coord
    const world: World
    /** How the zone's warmth falls off with distance: `heat / distance²` in the source. */
    const falloff: (real, real) -> real

    var stress: real
    var heat: real
    var state: GeneratorState
    var durability: real
    var consumption: nat
    var range: real
    var runTaskId: Option<int>

    var structure: set<Coord>
    /** A LinkedHashSet: the chests in the order they were found. */
    var intakes: seq<Coord>
    var heatBlocks: set<Coord>
    var controlBlocks: set<Coord>
    var structureBlocks: set<Coord>
    var dissipationBlocks: set<Coord>
    var exhaustBlocks: set<Coord>

    function Bucket(r: Role): set<Coord>
      reads this`intakes, this`heatBlocks, this`controlBlocks, this`structureBlocks, this`dissipationBlocks, this`exhaustBlocks
    {
      match r
      case HeatRole => heatBlocks
      case ControlRole => controlBlocks
      case StructureRole => structureBlocks
      case DissipationRole => dissipationBlocks
      case ExhaustRole => exhaustBlocks
      case IntakeRole => Elements(intakes)
    }

    function Union(): set<Coord>
      reads this`intakes, this`heatBlocks, this`controlBlocks, this`structureBlocks, this`dissipationBlocks, this`exhaustBlocks
    {
      heatBlocks + controlBlocks + structureBlocks + dissipationBlocks + exhaustBlocks + Elements(intakes)
    }

    /**
     * `structure` is the union of the buckets, no chest is listed twice, and
     * every bucketed block currently has a material of its bucket's role.
     */
    ghost predicate Valid(blocks: map<Coord, Material>)
      reads this`structure, this`intakes, this`heatBlocks, this`controlBlocks, this`structureBlocks, this`dissipationBlocks, this`exhaustBlocks
    {
      && structure == Union()
      && DistinctBlocks(intakes)
      && forall r :: Typed(blocks, Bucket(r), r)
    }

    /**
     * What the structure keeps whatever happens to the world: `structure`
     * is the union of the buckets, no chest is listed twice, and no block
     * sits in two buckets.
     */
    ghost predicate Sound()
      reads this`structure, this`intakes, this`heatBlocks, this`controlBlocks, this`structureBlocks, this`dissipationBlocks, this`exhaustBlocks
    {
      && structure == Union()
      && DistinctBlocks(intakes)
      && Apart(heatBlocks, controlBlocks, structureBlocks, dissipationBlocks, exhaustBlocks, Elements(intakes))
    }

    /** The buckets lie apart exactly when no two distinct roles share a block. */
    lemma ApartBuckets()
      ensures Apart(heatBlocks, controlBlocks, structureBlocks, dissipationBlocks, exhaustBlocks, Elements(intakes))
        <==> forall r, r' :: r != r' ==> Bucket(r) !! Bucket(r')
    {
      assert Bucket(HeatRole) == heatBlocks && Bucket(ControlRole) == controlBlocks;
      assert Bucket(StructureRole) == structureBlocks && Bucket(DissipationRole) == dissipationBlocks;
      assert Bucket(ExhaustRole) == exhaustBlocks && Bucket(IntakeRole) == Elements(intakes);
    }

    /** A structure valid for some world is sound: a block has only one role. */
    lemma ValidSound(blocks: map<Coord, Material>)
      requires Valid(blocks)
      ensures Sound()
    {
      forall r, r' | r != r'
        ensures Bucket(r) !! Bucket(r')
      {
        assert Typed(blocks, Bucket(r), r) && Typed(blocks, Bucket(r'), r');
      }
      ApartBuckets();
    }

    /** `removeBlockFromStructure` finds the block: its current type has a role, and it sits in that role's bucket. */
    predicate Removable(blocks: map<Coord, Material>, block: Coord)
      reads this`intakes, this`heatBlocks, this`controlBlocks, this`structureBlocks, this`dissipationBlocks, this`exhaustBlocks
    {
      Classified(blocks, block) && block in Bucket(RoleOf(TypeOf(blocks, block)).value)
    }

    lemma UnionOfBuckets()
      ensures Union() == Bucket(HeatRole) + Bucket(ControlRole) + Bucket(StructureRole) +
        Bucket(DissipationRole) + Bucket(ExhaustRole) + Bucket(IntakeRole)
    {
    }

    /** A block is in the structure exactly when it sits in the bucket of its own role, and it is in no other. */
    lemma OwnBucket(blocks: map<Coord, Material>, b: Coord)
      requires Valid(blocks)
      ensures b in structure <==> Classified(blocks, b) && b in Bucket(RoleOf(TypeOf(blocks, b)).value)
      ensures forall r :: b in Bucket(r) ==> RoleOf(TypeOf(blocks, b)) == Some(r)
    {
      UnionOfBuckets();
      forall r | b in Bucket(r)
        ensures RoleOf(TypeOf(blocks, b)) == Some(r)
      {
        assert Typed(blocks, Bucket(r), r);
      }
    }

    /** `isValidStructure`. */
    predicate IsValidStructure()
      reads this`controlBlocks, this`heatBlocks, this`intakes
      ensures IsValidStructure() <==> controlBlocks != {} && heatBlocks != {} && intakes != []
    {
      |controlBlocks| > 0 && |heatBlocks| > 0 && |intakes| > 0
    }

    /** `hasFuel`: some intake chest holds coal. */
    predicate HasFuel(chests: Chests)
      reads this`intakes, chests
      ensures HasFuel(chests) <==> FirstWithCoal(intakes, chests.coal) < |intakes|
    {
      FirstWithCoalFound(intakes, chests.coal);
      AnyCoal(intakes, chests.coal)
    }

    /** Kotlin's `init`: empty buckets, then discovery from the origin. */
    constructor (origin: Coord, world: World, falloff: (real, real) -> real, blocks: map<Coord, Material>)
      ensures this.origin == origin && this.world == world && this.falloff == falloff
      ensures Valid(blocks)
      ensures forall b :: b in structure <==> InComponent(blocks, origin, b)
      ensures stress == 0.0 && heat == 0.0 && state == Off && durability == 0.0
      ensures consumption == 1 && range == 10.0 && runTaskId == None
    {
      this.origin := origin;
      this.world := world;
      this.falloff := falloff;
      stress, heat, state, durability := 0.0, 0.0, Off, 0.0;
      consumption, range, runTaskId := 1, 10.0, None;
      structure, intakes := {}, [];
      heatBlocks, controlBlocks, structureBlocks, dissipationBlocks, exhaustBlocks := {}, {}, {}, {}, {};
      new;
      DiscoverStructure(blocks);
    }

    /** The `add` on the bucket of role `r`, the arm of `addBlockToStructure`'s `when` that `r` selects. */
    method Insert(r: Role, block: Coord) returns (added: bool)
      requires DistinctBlocks(intakes)
      modifies this`intakes, this`heatBlocks, this`controlBlocks,
        this`structureBlocks, this`dissipationBlocks, this`exhaustBlocks
      ensures DistinctBlocks(intakes)
      ensures added <==> block !in old(Bucket(r))
      ensures forall r' :: Bucket(r') == old(Bucket(r')) + (if r' == r then {block} else {})
      ensures Union() == old(Union()) + {block}
      ensures intakes == old(intakes) + (if added && r == IntakeRole then [block] else [])
    {
      match r {
      case HeatRole =>
        added := block !in heatBlocks;
        heatBlocks := heatBlocks + {block};
      case ControlRole =>
        added := block !in controlBlocks;
        controlBlocks := controlBlocks + {block};
      case StructureRole =>
        added := block !in structureBlocks;
        structureBlocks := structureBlocks + {block};
      case DissipationRole =>
        added := block !in dissipationBlocks;
        dissipationBlocks := dissipationBlocks + {block};
      case ExhaustRole =>
        added := block !in exhaustBlocks;
        exhaustBlocks := exhaustBlocks + {block};
      case IntakeRole =>
        added := block !in intakes;
        if added {
          assert Elements(intakes + [block]) == Elements(intakes) + {block};
          intakes := intakes + [block];
        }
      }
    }

    /** The `remove` on the bucket of role `r`. */
    method Delete(r: Role, block: Coord) returns (removed: bool)
      requires DistinctBlocks(intakes)
      modifies this`intakes, this`heatBlocks, this`controlBlocks,
        this`structureBlocks, this`dissipationBlocks, this`exhaustBlocks
      ensures DistinctBlocks(intakes)
      ensures removed <==> block in old(Bucket(r))
      ensures forall r' :: Bucket(r') == old(Bucket(r')) - (if r' == r then {block} else {})
    {
      match r {
      case HeatRole =>
        removed := block in heatBlocks;
        heatBlocks := heatBlocks - {block};
      case ControlRole =>
        removed := block in controlBlocks;
        controlBlocks := controlBlocks - {block};
      case StructureRole =>
        removed := block in structureBlocks;
        structureBlocks := structureBlocks - {block};
      case DissipationRole =>
        removed := block in dissipationBlocks;
        dissipationBlocks := dissipationBlocks - {block};
      case ExhaustRole =>
        removed := block in exhaustBlocks;
        exhaustBlocks := exhaustBlocks - {block};
      case IntakeRole =>
        removed := block in intakes;
        RemoveBlockDistinct(intakes, block);
        assert Elements(RemoveBlock(intakes, block)) == Elements(intakes) - {block};
        intakes := RemoveBlock(intakes, block);
      }
    }

    /** `addBlockToStructure`: puts the block into the bucket of its role, if it has one. */
    method AddBlockToStructure(blocks: map<Coord, Material>, block: Coord) returns (added: bool)
      requires Valid(blocks)
      modifies this`structure, this`intakes, this`heatBlocks, this`controlBlocks,
        this`structureBlocks, this`dissipationBlocks, this`exhaustBlocks
      ensures Valid(blocks)
      ensures added <==> Classified(blocks, block) && block !in old(structure)
      ensures structure == old(structure) + (if Classified(blocks, block) then {block} else {})
      ensures forall r :: Bucket(r) == old(Bucket(r)) + (if RoleOf(TypeOf(blocks, block)) == Some(r) then {block} else {})
      ensures intakes == old(intakes) + (if added && RoleOf(TypeOf(blocks, block)) == Some(IntakeRole) then [block] else [])
    {
      OwnBucket(blocks, block);
      var role := RoleOf(TypeOf(blocks, block));
      if role.None? {
        return false;
      }
      added := Insert(role.value, block);
      forall r
        ensures Typed(blocks, Bucket(r), r)
      {
        assert Typed(blocks, old(Bucket(r)), r);
      }
      if added {
        structure := structure + {block};
      } else {
        assert structure == structure + {block};
      }
    }

    /**
     * `removeBlockFromStructure`: takes the block out of the bucket of the
     * role of its current type. A block whose type changed since discovery
     * is not found in that bucket and stays where it is.
     */
    method RemoveBlockFromStructure(blocks: map<Coord, Material>, block: Coord) returns (removed: bool)
      requires Sound()
      modifies this`structure, this`intakes, this`heatBlocks, this`controlBlocks,
        this`structureBlocks, this`dissipationBlocks, this`exhaustBlocks
      ensures Sound()
      ensures removed <==> old(Removable(blocks, block))
      ensures forall r :: Bucket(r) == old(Bucket(r)) - (if RoleOf(TypeOf(blocks, block)) == Some(r) then {block} else {})
      ensures structure == old(structure) - (if removed then {block} else {})
      ensures old(Valid(blocks)) ==> Valid(blocks) && (removed <==> block in old(structure))
    {
      ghost var wasValid := Valid(blocks);
      if wasValid {
        OwnBucket(blocks, block);
      }
      var role := RoleOf(TypeOf(blocks, block));
      if role.None? {
        return false;
      }
      removed := RemoveFromRole(role.value, block);
      if wasValid {
        forall r
          ensures Typed(blocks, Bucket(r), r)
        {
          TypedSubset(blocks, Bucket(r), old(Bucket(r)), r);
        }
      }
    }

    /** The bucket `remove` of role `r` followed by the structure update: the bookkeeping of `removeBlockFromStructure`. */
    method RemoveFromRole(r: Role, block: Coord) returns (removed: bool)
      requires Sound()
      modifies this`structure, this`intakes, this`heatBlocks, this`controlBlocks,
        this`structureBlocks, this`dissipationBlocks, this`exhaustBlocks
      ensures Sound()
      ensures removed <==> block in old(Bucket(r))
      ensures forall r' :: Bucket(r') == old(Bucket(r')) - (if r' == r then {block} else {})
      ensures structure == old(structure) - (if removed then {block} else {})
    {
      UnionOfBuckets();
      ApartBuckets();
      removed := Delete(r, block);
      if removed {
        forall r'
          ensures Bucket(r') == old(Bucket(r')) - {block}
        {
          if r' != r {
            assert block !in old(Bucket(r'));
          }
        }
        UnionWithout(old(heatBlocks), old(controlBlocks), old(structureBlocks), old(dissipationBlocks),
          old(exhaustBlocks), old(Elements(intakes)), Bucket(HeatRole), Bucket(ControlRole), Bucket(StructureRole),
          Bucket(DissipationRole), Bucket(ExhaustRole), Bucket(IntakeRole), block);
        structure := structure - {block};
      } else {
        assert Bucket(r) == old(Bucket(r));
      }
      ApartShrink(old(heatBlocks), old(controlBlocks), old(structureBlocks), old(dissipationBlocks),
        old(exhaustBlocks), old(Elements(intakes)), Bucket(HeatRole), Bucket(ControlRole), Bucket(StructureRole),
        Bucket(DissipationRole), Bucket(ExhaustRole), Bucket(IntakeRole));
    }

    /** `discoverStructure`: a depth-first search through classified blocks from the origin. */
    method DiscoverStructure(blocks: map<Coord, Material>)
      requires Valid(blocks) && structure == {}
      modifies this`structure, this`intakes, this`heatBlocks, this`controlBlocks,
        this`structureBlocks, this`dissipationBlocks, this`exhaustBlocks
      ensures Valid(blocks)
      ensures forall b :: b in structure <==> InComponent(blocks, origin, b)
    {
      var stack := [origin];
      var visited: set<Coord> := {};
      ghost var all := ClassifiedBlocks(blocks);
      DiscoveryStart(blocks, origin);
      while |stack| > 0
        invariant Valid(blocks)
        invariant DiscoveryInv(blocks, origin, structure, visited, stack)
        invariant structure <= all
        decreases |all - structure|, |stack|
      {
        ghost var structure0, stack0 := structure, stack;
        stack, visited := DiscoverNext(blocks, all, stack, visited);
        assert Progress(all, structure0, structure, |stack0|, |stack|);
      }
      DiscoveryDone(blocks, origin, structure, visited);
    }

    /** One pass of `discoverStructure`'s loop: pop a block, mark it visited, and if it joins, push its unvisited neighbours. */
    method DiscoverNext(blocks: map<Coord, Material>, ghost all: set<Coord>, stack: seq<Coord>, visited: set<Coord>)
      returns (stack': seq<Coord>, visited': set<Coord>)
      requires |stack| > 0 && all == ClassifiedBlocks(blocks)
      requires Valid(blocks) && DiscoveryInv(blocks, origin, structure, visited, stack) && structure <= all
      modifies this`structure, this`intakes, this`heatBlocks, this`controlBlocks,
        this`structureBlocks, this`dissipationBlocks, this`exhaustBlocks
      ensures Valid(blocks) && DiscoveryInv(blocks, origin, structure, visited', stack')
      ensures Progress(all, old(structure), structure, |stack|, |stack'|)
    {
      var current := stack[|stack| - 1];
      var popped := stack[..|stack| - 1];
      PopLast(stack);
      visited' := visited + {current};
      var added := AddBlockToStructure(blocks, current);
      DiscoveryStep(blocks, origin, old(structure), visited, popped, current, structure, added);
      if added {
        ClassifiedMember(blocks, current);
        stack' := popped + Unvisited(Neighbours(current), visited');
      } else {
        stack' := popped;
      }
      StepProgress(all, old(structure), structure, current, Classified(blocks, current), added, |stack|, |stack'|);
    }
  
    /** Some block of the structure has role `r`. */
    ghost predicate HasRole(blocks: map<Coord, Material>, r: Role)
      reads this`structure
    {
      exists b :: b in structure && RoleOf(TypeOf(blocks, b)) == Some(r)
    }

    /** A bucket is non-empty exactly when some structure block has its role. */
    lemma BucketOccupied(blocks: map<Coord, Material>, r: Role)
      requires Valid(blocks)
      ensures |Bucket(r)| > 0 <==> HasRole(blocks, r)
    {
      UnionOfBuckets();
      if |Bucket(r)| > 0 {
        var b :| b in Bucket(r);
        assert Typed(blocks, Bucket(r), r);
      }
      if HasRole(blocks, r) {
        var b :| b in structure && RoleOf(TypeOf(blocks, b)) == Some(r);
        OwnBucket(blocks, b);
      }
    }

    /** `isValidStructure` asks for a control block, a heat block and a chest among the structure. */
    lemma ValidStructureByRoles(blocks: map<Coord, Material>)
      requires Valid(blocks)
      ensures IsValidStructure() <==> HasRole(blocks, ControlRole) && HasRole(blocks, HeatRole) && HasRole(blocks, IntakeRole)
    {
      BucketOccupied(blocks, ControlRole);
      BucketOccupied(blocks, HeatRole);
      BucketOccupied(blocks, IntakeRole);
      ElementsEmpty(intakes);
      assert |controlBlocks| > 0 <==> HasRole(blocks, ControlRole);
      assert |heatBlocks| > 0 <==> HasRole(blocks, HeatRole);
      assert |intakes| > 0 <==> HasRole(blocks, IntakeRole);
    }

    /** A block outside the structure sits in no bucket. */
    lemma OutsideBuckets(b: Coord)
      requires Sound() && b !in structure
      ensures forall r :: b !in Bucket(r)
    {
      UnionOfBuckets();
    }

    /** Breaking a block outside the structure keeps the structure valid. */
    lemma ValidAfterBreak(blocks: map<Coord, Material>, b: Coord)
      requires Valid(blocks) && b !in structure
      ensures Valid(blocks[b := Air])
    {
      ValidElsewhere(blocks, blocks[b := Air]);
    }

    /** The structure only constrains the blocks it holds: the rest of the world may change. */
    lemma ValidElsewhere(blocks: map<Coord, Material>, blocks': map<Coord, Material>)
      requires Valid(blocks)
      requires forall b :: b in structure ==> TypeOf(blocks', b) == TypeOf(blocks, b)
      ensures Valid(blocks')
    {
      UnionOfBuckets();
      forall r
        ensures Typed(blocks', Bucket(r), r)
      {
        assert Typed(blocks, Bucket(r), r);
      }
    }

    /** `calculateHeat`. */
    method CalculateHeat()
      modifies this`heat
      ensures heat == HeatFor(|heatBlocks|, |exhaustBlocks|)
    {
      heat := |heatBlocks| as real * HeatBlockHeat + |exhaustBlocks| as real * ExhaustHeat;
    }

    /** `calculateStress`. */
    method CalculateStress()
      modifies this`stress
      ensures stress == StressFor(|dissipationBlocks|, |controlBlocks|)
    {
      var s := |dissipationBlocks| as real * DissipationBlockStress - |controlBlocks| as real * ControlBlocksStressDecrease;
      stress := if s > 0.0 then s else 0.0;
    }

    /** `calculateRange`. */
    method CalculateRange()
      modifies this`range
      ensures range == RangeFor(|dissipationBlocks|)
    {
      range := BaseHeatRange + |dissipationBlocks| as real * DissipationBlockRange;
    }

    /** `calculateDurability`. */
    method CalculateDurability()
      modifies this`durability
      ensures durability == DurabilityFor(|structureBlocks|)
    {
      durability := |structureBlocks| as real * StructureBlockDurability;
    }

    /** The four `calculate` steps that open `run`. */
    method CalculateAmounts()
      modifies this`heat, this`stress, this`range, this`durability
      ensures heat == HeatFor(|heatBlocks|, |exhaustBlocks|)
      ensures stress == StressFor(|dissipationBlocks|, |controlBlocks|)
      ensures range == RangeFor(|dissipationBlocks|)
      ensures durability == DurabilityFor(|structureBlocks|)
    {
      CalculateHeat();
      CalculateStress();
      CalculateRange();
      CalculateDurability();
    }

    /** `generateZone`: a heat zone of the current range and heat at the origin, added to the registry. */
    method GenerateZone(mgr: ClimateManager)
      requires mgr.Valid()
      modifies mgr
      ensures mgr.Valid() && mgr.globalTemperature == old(mgr.globalTemperature)
      ensures |mgr.zones| == |old(mgr.zones)| + 1 && mgr.zones[..|old(mgr.zones)|] == old(mgr.zones)
      ensures NewestZone(mgr.zones)
    {
      var z := new Zone.HeatZone(world, BlockLocation(origin), range, HeatRule(heat, falloff));
      mgr.AddClimateZone(z);
      assert mgr.zones[..|old(mgr.zones)|] == old(mgr.zones);
    }

    /** The last zone of `zs` is this generator's: at its origin, of its range, warming by its heat. */
    ghost predicate NewestZone(zs: seq<Zone>)
      reads this`range, this`heat
    {
      |zs| > 0 && At(zs[|zs| - 1], world, BlockLocation(origin)) &&
      zs[|zs| - 1].radius == range && zs[|zs| - 1].rule == Heat(HeatRule(heat, falloff))
    }

    /** `removeZone`: every zone at the origin leaves the registry. */
    method RemoveZone(mgr: ClimateManager)
      requires mgr.Valid()
      modifies mgr
      ensures mgr.Valid() && mgr.globalTemperature == old(mgr.globalTemperature)
      ensures mgr.zones == Without(old(mgr.zones), world, BlockLocation(origin))
      ensures forall z :: z in mgr.zones ==> !At(z, world, BlockLocation(origin))
    {
      mgr.RemoveClimateZoneAt(world, BlockLocation(origin));
    }

    /** `updateZone`: afterwards exactly one zone sits at the origin, the fresh one. */
    method UpdateZone(mgr: ClimateManager)
      requires mgr.Valid()
      modifies mgr
      ensures mgr.Valid() && mgr.globalTemperature == old(mgr.globalTemperature)
      ensures NewestZone(mgr.zones) && OneZoneAt(mgr.zones, world, BlockLocation(origin))
      ensures mgr.zones[..|mgr.zones| - 1] == Without(old(mgr.zones), world, BlockLocation(origin))
    {
      RemoveZone(mgr);
      ghost var kept := mgr.zones;
      GenerateZone(mgr);
      assert mgr.zones[..|mgr.zones| - 1] == kept;
      assert forall i :: 0 <= i < |mgr.zones| - 1 ==> mgr.zones[i] in kept;
    }

    /**
     * `consumeFuel`: without fuel the generator powers off; otherwise
     * `consumption` pieces of coal leave the first intake chest that has any.
     */
    method ConsumeFuel(chests: Chests, mgr: ClimateManager)
      requires mgr.Valid()
      modifies this`runTaskId, this`heat, this`state, chests, mgr
      ensures mgr.Valid() && mgr.globalTemperature == old(mgr.globalTemperature)
      ensures !old(HasFuel(chests)) ==>
        && chests.coal == old(chests.coal)
        && runTaskId == None && heat == 0.0 && state == Off
        && mgr.zones == Without(old(mgr.zones), world, BlockLocation(origin))
      ensures old(HasFuel(chests)) ==>
        var k := FirstWithCoal(intakes, old(chests.coal));
        && k < |intakes|
        && CoalAt(chests.coal, intakes[k]) == AfterRemoving(CoalAt(old(chests.coal), intakes[k]), consumption)
        && (forall c :: c != intakes[k] ==> CoalAt(chests.coal, c) == CoalAt(old(chests.coal), c))
        && runTaskId == old(runTaskId) && heat == old(heat) && state == old(state)
        && mgr.zones == old(mgr.zones)
    {
      FirstWithCoalFound(intakes, chests.coal);
      if !HasFuel(chests) {
        var _ := PowerOff(mgr);
        return;
      }
      var i := 0;
      while i < |intakes|
        invariant 0 <= i <= |intakes|
        invariant chests.coal == old(chests.coal)
        invariant forall j :: 0 <= j < i ==> CoalAt(chests.coal, intakes[j]) == 0
      {
        if CoalAt(chests.coal, intakes[i]) > 0 {
          FirstWithCoalAt(intakes, chests.coal, i);
          chests.RemoveCoal(intakes[i], consumption);
          return;
        }
        i := i + 1;
      }
    }

    /**
     * `powerOn`: refused without fuel or with an invalid structure;
     * otherwise the zone is created and the run task recorded, and the
     * generator turns on unless the scheduler answered -1.
     */
    method PowerOn(chests: Chests, mgr: ClimateManager, scheduledId: int) returns (ok: bool)
      requires mgr.Valid()
      modifies this`runTaskId, this`state, mgr
      ensures mgr.Valid() && mgr.globalTemperature == old(mgr.globalTemperature)
      ensures ok <==> HasFuel(chests) && IsValidStructure() && scheduledId != -1
      ensures !(HasFuel(chests) && IsValidStructure()) ==>
        mgr.zones == old(mgr.zones) && runTaskId == old(runTaskId) && state == old(state)
      ensures HasFuel(chests) && IsValidStructure() ==>
        && |mgr.zones| == |old(mgr.zones)| + 1 && mgr.zones[..|old(mgr.zones)|] == old(mgr.zones)
        && NewestZone(mgr.zones)
        && runTaskId == Some(scheduledId)
        && state == (if scheduledId == -1 then old(state) else On)
    {
      if !HasFuel(chests) {
        return false;
      }
      if !IsValidStructure() {
        return false;
      }
      GenerateZone(mgr);
      runTaskId := Some(scheduledId);
      if scheduledId == -1 {
        return false;
      }
      state := On;
      return true;
    }

    /** `powerOff`: always succeeds, cancelling its scheduled task, zeroing the heat and removing the zone. */
    method PowerOff(mgr: ClimateManager) returns (ok: bool)
      requires mgr.Valid()
      modifies this`runTaskId, this`heat, this`state, mgr
      ensures ok
      ensures mgr.Valid() && mgr.globalTemperature == old(mgr.globalTemperature)
      ensures runTaskId == None && heat == 0.0 && state == Off
      ensures mgr.zones == Without(old(mgr.zones), world, BlockLocation(origin))
      ensures forall z :: z in mgr.zones ==> !At(z, world, BlockLocation(origin))
    {
      runTaskId := None;
      heat := 0.0;
      RemoveZone(mgr);
      state := Off;
      return true;
    }

    /**
     * `run`, the scheduled tick: recompute the derived amounts, replace the
     * zone, then burn fuel, powering off when there is none.
     */
    method Run(chests: Chests, mgr: ClimateManager)
      requires mgr.Valid()
      modifies this`heat, this`stress, this`range, this`durability, this`runTaskId, this`state, chests, mgr
      ensures mgr.Valid() && mgr.globalTemperature == old(mgr.globalTemperature)
      ensures stress == StressFor(|dissipationBlocks|, |controlBlocks|)
      ensures range == RangeFor(|dissipationBlocks|)
      ensures durability == DurabilityFor(|structureBlocks|)
      ensures old(HasFuel(chests)) ==>
        && heat == HeatFor(|heatBlocks|, |exhaustBlocks|)
        && NewestZone(mgr.zones) && OneZoneAt(mgr.zones, world, BlockLocation(origin))
        && mgr.zones[..|mgr.zones| - 1] == Without(old(mgr.zones), world, BlockLocation(origin))
        && runTaskId == old(runTaskId) && state == old(state)
      ensures old(HasFuel(chests)) ==>
        var k := FirstWithCoal(intakes, old(chests.coal));
        && k < |intakes|
        && CoalAt(chests.coal, intakes[k]) == AfterRemoving(CoalAt(old(chests.coal), intakes[k]), consumption)
        && (forall c :: c != intakes[k] ==> CoalAt(chests.coal, c) == CoalAt(old(chests.coal), c))
      ensures !old(HasFuel(chests)) ==>
        && heat == 0.0 && runTaskId == None && state == Off
        && chests.coal == old(chests.coal)
        && mgr.zones == Without(old(mgr.zones), world, BlockLocation(origin))
    {
      CalculateAmounts();
      RefreshAndBurn(chests, mgr);
    }

    /** The second half of `run`: `updateZone()` then `consumeFuel()`. */
    method RefreshAndBurn(chests: Chests, mgr: ClimateManager)
      requires mgr.Valid()
      modifies this`heat, this`runTaskId, this`state, chests, mgr
      ensures mgr.Valid() && mgr.globalTemperature == old(mgr.globalTemperature)
      ensures old(HasFuel(chests)) ==>
        && NewestZone(mgr.zones) && OneZoneAt(mgr.zones, world, BlockLocation(origin))
        && mgr.zones[..|mgr.zones| - 1] == Without(old(mgr.zones), world, BlockLocation(origin))
        && runTaskId == old(runTaskId) && state == old(state) && heat == old(heat)
      ensures old(HasFuel(chests)) ==>
        var k := FirstWithCoal(intakes, old(chests.coal));
        && k < |intakes|
        && CoalAt(chests.coal, intakes[k]) == AfterRemoving(CoalAt(old(chests.coal), intakes[k]), consumption)
        && (forall c :: c != intakes[k] ==> CoalAt(chests.coal, c) == CoalAt(old(chests.coal), c))
      ensures !old(HasFuel(chests)) ==>
        && heat == 0.0 && runTaskId == None && state == Off
        && chests.coal == old(chests.coal)
        && mgr.zones == Without(old(mgr.zones), world, BlockLocation(origin))
    {
      ghost var fuel := HasFuel(chests);
      UpdateZone(mgr);
      ghost var replaced := mgr.zones;
      assert HasFuel(chests) == fuel;
      ConsumeFuel(chests, mgr);
      WithoutReplaced(old(mgr.zones), replaced, world, BlockLocation(origin));
    }

    /**
     * The block-break listener: a broken structure block is taken out of
     * the bucket of its current type's role, and a structure that is no
     * longer valid powers off. When the world still matches the buckets,
     * the block leaves the structure and the structure is valid for the
     * world with the block gone.
     */
    method OnBlockBreak(blocks: map<Coord, Material>, block: Coord, mgr: ClimateManager)
      requires Sound() && mgr.Valid()
      modifies this`structure, this`intakes, this`heatBlocks, this`controlBlocks,
        this`structureBlocks, this`dissipationBlocks, this`exhaustBlocks,
        this`runTaskId, this`heat, this`state, mgr
      ensures Sound() && mgr.Valid()
      ensures forall r :: Bucket(r) == old(Bucket(r)) - (if RoleOf(TypeOf(blocks, block)) == Some(r) then {block} else {})
      ensures structure == old(structure) - (if old(Removable(blocks, block)) then {block} else {})
      ensures block in old(structure) && !IsValidStructure() ==>
        runTaskId == None && heat == 0.0 && state == Off &&
        mgr.zones == Without(old(mgr.zones), world, BlockLocation(origin))
      ensures !(block in old(structure) && !IsValidStructure()) ==>
        runTaskId == old(runTaskId) && heat == old(heat) && state == old(state) && mgr.zones == old(mgr.zones)
      ensures old(Valid(blocks)) ==>
        Valid(blocks) && Valid(blocks[block := Air]) && structure == old(structure) - {block}
    {
      var member := BreakFromStructure(blocks, block);
      var _ := PowerOffIfInvalid(member, mgr);
    }

    /** The listener's `if (!isValidStructure()) powerOff()`, reached when the broken block was a `member` of the structure. */
    method PowerOffIfInvalid(member: bool, mgr: ClimateManager) returns (off: bool)
      requires mgr.Valid()
      modifies this`runTaskId, this`heat, this`state, mgr
      ensures mgr.Valid()
      ensures off <==> member && !IsValidStructure()
      ensures off ==>
        runTaskId == None && heat == 0.0 && state == Off &&
        mgr.zones == Without(old(mgr.zones), world, BlockLocation(origin))
      ensures !off ==>
        runTaskId == old(runTaskId) && heat == old(heat) && state == old(state) && mgr.zones == old(mgr.zones)
    {
      off := false;
      if member {
        off := !IsValidStructure();
        if off {
          var _ := PowerOff(mgr);
        }
      }
    }

    /** The listener's `if (it.block in structure) removeBlockFromStructure(it.block)`. */
    method BreakFromStructure(blocks: map<Coord, Material>, block: Coord) returns (member: bool)
      requires Sound()
      modifies this`structure, this`intakes, this`heatBlocks, this`controlBlocks,
        this`structureBlocks, this`dissipationBlocks, this`exhaustBlocks
      ensures Sound()
      ensures member == (block in old(structure))
      ensures forall r :: Bucket(r) == old(Bucket(r)) - (if RoleOf(TypeOf(blocks, block)) == Some(r) then {block} else {})
      ensures structure == old(structure) - (if old(Removable(blocks, block)) then {block} else {})
      ensures old(Valid(blocks)) ==>
        Valid(blocks) && Valid(blocks[block := Air]) && structure == old(structure) - {block}
    {
      ghost var wasValid := Valid(blocks);
      member := block in structure;
      if member {
        var _ := RemoveBlockFromStructure(blocks, block);
      } else {
        OutsideBuckets(block);
      }
      if wasValid {
        ValidAfterBreak(blocks, block);
      }
    }
  }

  /**
   * `Generator(origin)`: discovery from the origin, then the
   * `InvalidStructureException` when the component lacks a control block,
   * a heat block or a chest.
   */
  method Build(origin: Coord, world: World, falloff: (real, real) -> real, blocks: map<Coord, Material>)
    returns (r: Result<Generator, BuildError>)
    ensures r.Err? <==> !(ComponentHas(blocks, origin, ControlRole) && ComponentHas(blocks, origin, HeatRole) &&
                          ComponentHas(blocks, origin, IntakeRole))
    ensures r.Ok? ==> fresh(r.value) && r.value.Valid(blocks) && r.value.IsValidStructure() && r.value.state == Off
    ensures r.Ok? ==> forall b :: b in r.value.structure <==> InComponent(blocks, origin, b)
  {
    var g := new Generator(origin, world, falloff, blocks);
    g.ValidStructureByRoles(blocks);
    if !g.IsValidStructure() {
      return Err(InvalidStructure);
    }
    return Ok(g);
  }

  /** `s` without `b`, order kept. */
  function RemoveBlock(s: seq<Coord>, b: Coord): (r: seq<Coord>)
    ensures forall c :: c in r <==> c in s && c != b
  {
    if s == [] then []
    else
      var last := s[|s| - 1];
      assert s == s[..|s| - 1] + [last];
      RemoveBlock(s[..|s| - 1], b) + (if last == b then [] else [last])
  }

  lemma {:induction false} RemoveBlockDistinct(s: seq<Coord>, b: Coord)
    requires DistinctBlocks(s)
    ensures DistinctBlocks(RemoveBlock(s, b))
  {
    if s != [] {
      var init := s[..|s| - 1];
      RemoveBlockDistinct(init, b);
      assert s[|s| - 1] !in init;
    }
  }
}
