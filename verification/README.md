# FrostCraft in Dafny

FrostCraft is a Minecraft (Bukkit) survival plugin in which the world is cold
and players must shelter and build heat generators to stay alive. This project
models the plugin's sequential core and proves properties of the model:

- **Enclosure and scoring** (`enclosure.dfy`, `scoring.dfy`, from `Util.kt`).
  `isEnclosed` is a depth-first flood fill through air from the player's block,
  bounded by a cube of half-width 128. It reports whether the air pocket is
  sealed, and which solid materials line it. `calculateInsulation` and
  `calculateHeatSources` turn the lining and the nearby heat sources into
  numbers.
- **Zones and the zone registry** (`zones.dfy`, `climate_manager.dfy`, from
  `zones/ClimateZone.kt`, `zones/HeatZone.kt`, `ClimateManager.kt`).
  - Zones are spheres that cache a temperature.
  - The registry keeps a global temperature and an insertion-ordered set of
    zones.
  - It answers "how warm is it here" with the warmest of the global value and
    every zone containing the point.
- **Generators** (`generator.dfy`, from `generators/Generator.kt`;
  `legacy_generator.dfy`, from the older `Generators/Generator.kt`).
  - A generator discovers a contiguous multi-block structure from an origin
    block and sorts its blocks into role buckets.
  - It derives heat, stress, range and durability from the bucket sizes.
  - While it runs, it keeps one heat zone at its origin and burns coal from
    its intake chests.
  - The older generator is filled from outside, picks its chests on demand and
    registers a plain climate zone.
- **Body temperature** (`frost_player.dfy`, from `frostplayer/FrostPlayer.kt`;
  `legacy_frost_player.dfy`, from the older `FrostPlayer.kt`).
  - Each check moves a player's temperature one fixed step toward a target.
    The target is computed from the shelter and the zone temperature.
  - The temperature is then classified into a cold state.
  - The state's effects apply: damage with a health floor of zero, freezing,
    and a cold message limited to once every 20 ticks.
- **Diseases** (`diseases.dfy`, from `disease/DiseaseManager.kt`). This covers
  the conversions between progress calls and seconds, and each player's set of
  diseases with add, find-by-name and cure.

Shared value types live in `wrappers.dfy` (`Option`, `Result`), `geometry.dfy`
(`World`, `Point`), `materials.dfy` (`Material`) and `inventories.dfy` (coal per
chest).

Modelling choices:
- Kotlin `Float` and `Double` are `real`, and rounding is not modelled.
- A Kotlin `LinkedHashSet` whose iteration order matters is a `seq` without
  duplicates. This applies to zones, intake chests and disease sets.
- Other sets are `set`s.
- The game world is a function or map from block coordinates to materials.
  Blocks that are not listed are air.
- Each class the plugin mutates is a Dafny `class` whose methods update its
  fields. Each method is proved against specification functions: `Insulation`,
  `HeatOf`, `Warmest`, `Without`, `Escapes`/`Collected`, `InComponent`,
  `HeatFor`/`StressFor`/`RangeFor`/`DurabilityFor`, `Adjusted`, `Classify`,
  `AddAll`, `Uncured` and others.

Behaviour of the code that the model keeps as written:
- The insulation factor is `(1 + Σ weight) / n` (`Util.kt:93,112`), not the plain
  mean of the weights.
- The temperature step is not clamped, so it can overshoot the target
  (`frostplayer/FrostPlayer.kt:89-93`). `FrostPlayers.AdjustedOvershoots` proves
  that from less than a step away, on either side, the step passes the target
  and the next step comes back, so the temperature never settles there.
- There is no WARM state (`frostplayer/FrostPlayer.kt:99-106`).
- Generator heat is assigned outright and zeroed on power-off; it does not
  converge (`generators/Generator.kt:239,316`).
- `getTemperature` never compares a zone's world with the location's world
  (`ClimateManager.kt:85-86`).
- `isEnclosed` returns the materials collected so far when it finds an escape
  (`Util.kt:61`); it does not discard them.
- `removeBlockFromStructure` picks the bucket from the block's type at the time
  of the break (`generators/Generator.kt:133-141`). A block whose type changed
  since discovery without a break event stays in its old bucket and in the
  structure. The break methods need only pairwise disjoint buckets whose union
  is the structure, so they cover this case too.

## Model

| member | source | states |
|---|---|---|
| Enclosure.Truncate | src/main/kotlin/Util.kt:22 | `toInt()` truncates toward zero: the result is within one of the real, on the side of zero |
| Enclosure.Neighbours | src/main/kotlin/Util.kt:39-43 | the six face neighbours, in the order of the six directions the search tries |
| Enclosure.NewAir | src/main/kotlin/Util.kt:64-77 | a neighbour is pushed exactly when it is unvisited and air |
| Enclosure.Collected | src/main/kotlin/Util.kt:64-77 | the collected lining holds only non-air materials, at most six per expanded cell, duplicates kept |
| Enclosure.IsEnclosed | src/main/kotlin/Util.kt:35-84 | sealed exactly when no air walk from the start reaches a coordinate exactly `range` away on some axis. The materials are those of the expanded cells, on both the sealed and the escaping path. Each cell is expanded at most once and lies strictly inside the cube and reachable through air. When sealed, every reachable cell was expanded |
| Enclosure.EscapeFound | src/main/kotlin/Util.kt:56-62 | popping an unvisited boundary coordinate that the search reached means an air walk escapes |
| Enclosure.BoundaryMeansEscape | src/main/kotlin/Util.kt:56-62 | under the search invariant, an unvisited boundary coordinate on top of the stack proves the pocket is not sealed |
| Enclosure.EmptyStackMeansSealed | src/main/kotlin/Util.kt:49-83 | when the stack runs empty no air walk escapes, and every reachable cell was expanded |
| Enclosure.ExpandKeepsInv | src/main/kotlin/Util.kt:52-78 | expanding an unvisited non-boundary cell keeps the search invariant: visited cells in the cube, stack entries reached by air, lining equals the collected materials |
| Enclosure.SkipKeepsInv | src/main/kotlin/Util.kt:50-52 | popping an already visited coordinate keeps the search invariant |
| Enclosure.ClosedHoldsPaths | src/main/kotlin/Util.kt:49-83 | a set holding the start and closed under air neighbours holds every air walk |
| Enclosure.SameElements | src/main/kotlin/Util.kt:49-83 | two repetition-free lists with the same elements are permutations of each other |
| Enclosure.CollectedAppend | src/main/kotlin/Util.kt:64-77 | the lining of two runs of expansions is the lining of the first followed by that of the second |
| Enclosure.CollectedPermutation | src/main/kotlin/Util.kt:64-77 | expanding the same cells in another order collects the same materials, up to order |
| Enclosure.SealedLining | src/main/kotlin/Util.kt:35-84 | two sealed searches of one pocket collect the same lining up to order |
| Enclosure.ScanNeighbours | src/main/kotlin/Util.kt:64-78 | the inner loop appends exactly the new air neighbours to the stack and the new solid neighbours' materials to the lining |
| Scoring.Weight | src/main/kotlin/Util.kt:100-109 | every lining weight lies between 0 and 4 |
| Scoring.WeightSumBounds | src/main/kotlin/Util.kt:99-110 | the summed weight of n blocks lies between 0 and 4n |
| Scoring.WeightSumPermutation | src/main/kotlin/Util.kt:99-110 | the summed weight does not depend on the order of the lining |
| Scoring.CalculateInsulation | src/main/kotlin/Util.kt:92-113 | the loop computes 1 for an empty lining and otherwise `(1 + Σ weight) / n` |
| Scoring.InsulationBounds | src/main/kotlin/Util.kt:92-112 | the insulation factor is positive, and at most `(1 + 4n) / n` |
| Scoring.InsulationPermutation | src/main/kotlin/Util.kt:99-112 | reordering the lining leaves the insulation factor unchanged |
| Scoring.UniformInsulation | src/main/kotlin/Util.kt:99-112 | n blocks of one material insulate by `(1 + n·w) / n` |
| Scoring.HeatWeight | src/main/kotlin/Util.kt:126-133 | each source's heat lies between -0.3 and 0.7 |
| Scoring.HeatOfAdd | src/main/kotlin/Util.kt:125-134 | adding a new material to the source set adds exactly its heat weight |
| Scoring.HeatOfBounds | src/main/kotlin/Util.kt:122-136 | any source set gives between -0.3 and 1.6, and the empty set gives 0 |
| Scoring.CalculateHeatSources | src/main/kotlin/Util.kt:122-136 | the loop over the set, in any order, computes the sum of the present sources' weights |
| Geometry.SquaredDistance | src/main/kotlin/zones/ClimateZone.kt:34 | the squared distance is never negative, and is 0 from a point to itself |
| Zones.CenterInSphere | src/main/kotlin/zones/ClimateZone.kt:29-38 | the centre lies in its own sphere |
| Zones.SphereGrows | src/main/kotlin/zones/ClimateZone.kt:37 | a larger radius contains every point of a smaller one |
| Zones.SphereSymmetric | src/main/kotlin/zones/ClimateZone.kt:34 | the sphere test gives the same answer measured from either end |
| Zones.Zone.Contains | src/main/kotlin/zones/ClimateZone.kt:29-38 | a point is inside exactly when its squared distance from the centre is at most the squared radius (the same test in `zones/HeatZone.kt:15-24`); the centre is always inside |
| Zones.Zone.ClimateZone | src/main/kotlin/zones/ClimateZone.kt:14-20 | a new climate zone keeps its world, centre, radius and rule, with cached temperature 0 |
| Zones.Zone.HeatZone | src/main/kotlin/zones/HeatZone.kt:7-13 | a new heat zone keeps its world, centre, radius and rule, with stored global temperature 0 |
| Zones.Zone.UpdateTemperature | src/main/kotlin/zones/ClimateZone.kt:45-47 | afterwards the cache is consistent with the global temperature: the rule's value for a climate zone, the global value itself for a heat zone (`zones/HeatZone.kt:32-34`) |
| Zones.Zone.TemperatureAt | src/main/kotlin/zones/ClimateZone.kt:55-57 | a climate zone reports its cache wherever the point is; a heat zone applies its rule to the stored global value and the distance from the centre (`zones/HeatZone.kt:26-30`) |
| Zones.ConsistentTemperature | src/main/kotlin/zones/HeatZone.kt:26-30 | a consistent zone reports its rule applied to the global value; a heat zone applies its rule to the global value and the distance from the centre |
| Zones.ClimateIgnoresPoint | src/main/kotlin/zones/ClimateZone.kt:55-57 | a climate zone reports the same temperature at every point |
| Climate.Without | src/main/kotlin/ClimateManager.kt:59-61 | exactly the zones not in world `w` at centre `c` remain |
| Climate.WithoutDistinct | src/main/kotlin/ClimateManager.kt:59-61 | removal keeps the registry free of duplicates |
| Climate.WithoutIdempotent | src/main/kotlin/ClimateManager.kt:59-61 | removing the zones at a centre twice removes nothing more |
| Climate.WithoutAppendAt | src/main/kotlin/ClimateManager.kt:59-61 | a zone appended at the centre is removed with the others there |
| Climate.WithoutReplaced | src/main/kotlin/generators/Generator.kt:254-257 | replacing the zones at a centre by one fresh zone there, then removing at that centre, gives the same registry as removing from the start |
| Climate.WarmestIsMaximum | src/main/kotlin/ClimateManager.kt:81-95 | the running maximum is at least the global value and every containing zone's temperature, and equals one of them |
| Climate.WarmestOutsideZones | src/main/kotlin/ClimateManager.kt:82-94 | where no zone contains the point, the answer is the global temperature |
| Climate.ClimateManager.constructor | src/main/kotlin/ClimateManager.kt:13-15 | a new registry has global temperature 0 and no zones |
| Climate.ClimateManager.AddClimateZone | src/main/kotlin/ClimateManager.kt:22-25 | the zone is refreshed with the global temperature, then appended unless already registered. The registry stays consistent and free of duplicates |
| Climate.ClimateManager.CreateClimateZone | src/main/kotlin/ClimateManager.kt:48-50 | a fresh climate zone with the given data, its cache already the rule's value, is appended |
| Climate.ClimateManager.RemoveClimateZoneAt | src/main/kotlin/ClimateManager.kt:59-61 | the zones become `Without(old zones, w, c)` |
| Climate.ClimateManager.UpdateGlobalTemperature | src/main/kotlin/ClimateManager.kt:68-73 | the global value is set and every registered zone becomes consistent with it |
| Climate.ClimateManager.GetTemperature | src/main/kotlin/ClimateManager.kt:81-95 | the loop returns the warmest of the global value and every zone containing the point, whatever its world |
| Inventories.FirstWithCoal | src/main/kotlin/generators/Generator.kt:276-281 | the first intake holding coal, or the end when none does |
| Inventories.FirstWithCoalFound | src/main/kotlin/generators/Generator.kt:285-287 | there is fuel exactly when a first fuelled intake exists |
| Inventories.FirstWithCoalAt | src/main/kotlin/generators/Generator.kt:276-281 | a scan that passed only empty chests and stopped at a fuelled one stopped at the first |
| Inventories.AfterRemoving | src/main/kotlin/generators/Generator.kt:279 | `removeItem` takes `n` pieces, or all there are, never going below zero |
| Inventories.Chests.RemoveCoal | src/main/kotlin/generators/Generator.kt:279 | only the named chest's coal changes |
| Generators.TypeOf | src/main/kotlin/generators/Generator.kt:119 | positions missing from the world map are air |
| Generators.Unvisited | src/main/kotlin/generators/Generator.kt:109 | exactly the unvisited neighbours are pushed |
| Generators.ExtendComponent | src/main/kotlin/generators/Generator.kt:108-110 | a classified neighbour of a component block is in the component |
| Generators.ClosedHoldsWalks | src/main/kotlin/generators/Generator.kt:100-112 | a set holding the origin and closed under classified neighbours holds every classified walk |
| Generators.DiscoveryStep | src/main/kotlin/generators/Generator.kt:104-111 | one pop keeps the discovery invariant: structure blocks connected to the origin, no neighbour of the structure forgotten |
| Generators.DiscoveryDone | src/main/kotlin/generators/Generator.kt:100-112 | with the stack empty, the structure is exactly the origin's component of classified blocks |
| Generators.Generator.OwnBucket | src/main/kotlin/generators/Generator.kt:118-130 | a block is in the structure exactly when it is in the bucket of its own role, and it is in no other |
| Generators.Generator.ValidSound | src/main/kotlin/generators/Generator.kt:118-130 | a structure sorted by the world's types has pairwise disjoint buckets whose union is the structure |
| Generators.Generator.Insert | src/main/kotlin/generators/Generator.kt:119-127 | the `add` on the selected bucket reports whether the block was new; only that bucket grows |
| Generators.Generator.Delete | src/main/kotlin/generators/Generator.kt:133-141 | the `remove` on the selected bucket reports whether the block was there; only that bucket shrinks |
| Generators.Generator.AddBlockToStructure | src/main/kotlin/generators/Generator.kt:118-130 | `added` holds exactly for a classified block not yet in the structure. The block joins its role's bucket and the structure. Chests are appended to the intakes in order |
| Generators.Generator.RemoveBlockFromStructure | src/main/kotlin/generators/Generator.kt:132-144 | the block's current type selects one bucket. `removed` holds exactly when the block was in that bucket, and it then leaves that bucket and the structure; every other bucket stays. The buckets stay pairwise disjoint. For a structure whose recorded types still match the world, `removed` holds exactly for a structure block |
| Generators.Generator.RemoveFromRole | src/main/kotlin/generators/Generator.kt:133-143 | the `remove` on one role's bucket reports whether the block was there. Only that bucket shrinks, the structure loses the block exactly then, and the buckets stay disjoint |
| Generators.Generator.DiscoverStructure | src/main/kotlin/generators/Generator.kt:100-112 | the loop terminates, and the structure is exactly the set of blocks reachable from the origin through face-adjacent classified blocks |
| Generators.Generator.DiscoverNext | src/main/kotlin/generators/Generator.kt:104-111 | one pass keeps the discovery invariant, and either grows the structure or shrinks the stack |
| Generators.Generator.constructor | src/main/kotlin/generators/Generator.kt:68-87 | the initial field values, and a structure that is the origin's component, sorted into buckets |
| Generators.Build | src/main/kotlin/generators/Generator.kt:85-88 | construction fails exactly when the origin's component lacks a control block, a heat block or a chest. Otherwise the generator is valid and off |
| Generators.Generator.BucketOccupied | src/main/kotlin/generators/Generator.kt:114-116 | a bucket is non-empty exactly when some structure block has its role |
| Generators.Generator.IsValidStructure | src/main/kotlin/generators/Generator.kt:114-116 | valid exactly when the control and heat buckets and the intake list are all non-empty |
| Generators.Generator.HasFuel | src/main/kotlin/generators/Generator.kt:285-287 | fuel exactly when the scan for the first intake holding coal stops before the end |
| Generators.Generator.ValidStructureByRoles | src/main/kotlin/generators/Generator.kt:114-116 | `isValidStructure` holds exactly when the structure has a control block, a heat block and a chest |
| Generators.Generator.ValidElsewhere | src/main/kotlin/generators/Generator.kt:90-97 | the structure invariant depends only on the structure's own blocks |
| Generators.Generator.OnBlockBreak | src/main/kotlin/generators/Generator.kt:90-97 | a broken block leaves the bucket of its current type, and leaves the structure exactly when it was in that bucket; the buckets stay disjoint. The generator powers off exactly when the block was in the structure and the structure became invalid; otherwise no other field and no zone changes. When the recorded types matched the world, the block leaves the structure and the invariant holds for the world with the block turned to air |
| Generators.Generator.BreakFromStructure | src/main/kotlin/generators/Generator.kt:91-92 | the result says whether the broken block was in the structure; the block leaves the bucket of its current type and the buckets stay disjoint |
| Generators.Generator.PowerOffIfInvalid | src/main/kotlin/generators/Generator.kt:93-95 | the generator powers off, with no task, heat 0 and no zone at the origin, exactly when a structure block broke and the structure is now invalid; otherwise nothing changes |
| Generators.Generator.CalculateHeat | src/main/kotlin/generators/Generator.kt:238-240 | heat becomes `HeatFor` of the heat and exhaust bucket sizes |
| Generators.Generator.CalculateStress | src/main/kotlin/generators/Generator.kt:242-244 | stress becomes `StressFor` of the dissipation and control bucket sizes |
| Generators.Generator.CalculateRange | src/main/kotlin/generators/Generator.kt:246-248 | range becomes `RangeFor` of the dissipation bucket size |
| Generators.Generator.CalculateDurability | src/main/kotlin/generators/Generator.kt:250-252 | durability becomes `DurabilityFor` of the structure bucket size |
| Generators.HeatGrows | src/main/kotlin/generators/Generator.kt:239 | heat is never negative, grows with each heat or exhaust block, and is 0 without them |
| Generators.StressProperties | src/main/kotlin/generators/Generator.kt:243 | stress is never negative, is 0 exactly with two control blocks per dissipation block, and never grows with more control blocks |
| Generators.RangeSteps | src/main/kotlin/generators/Generator.kt:247 | range starts at 10 and grows by 5 per dissipation block |
| Generators.Generator.CalculateAmounts | src/main/kotlin/generators/Generator.kt:229-233 | the four derived amounts match their formulas |
| Generators.Generator.GenerateZone | src/main/kotlin/generators/Generator.kt:259-264 | one zone is appended: a heat zone at the origin with the current range, warming by the current heat |
| Generators.Generator.RemoveZone | src/main/kotlin/generators/Generator.kt:266-268 | no zone remains at the origin, and all others stay in order |
| Generators.Generator.UpdateZone | src/main/kotlin/generators/Generator.kt:254-257 | afterwards exactly one zone sits at the origin: the fresh one, last. The other zones are the old ones not at the origin |
| Generators.Generator.ConsumeFuel | src/main/kotlin/generators/Generator.kt:270-283 | without fuel the generator powers off and no chest changes. Otherwise the first fuelled intake loses `consumption` coal (floored at zero) and every other chest and field stays |
| Generators.Generator.PowerOn | src/main/kotlin/generators/Generator.kt:289-310 | succeeds exactly with fuel, a valid structure and a scheduled task. Without fuel or validity nothing changes. Otherwise a zone is appended and its task id recorded, and the state turns on unless the id is -1 |
| Generators.Generator.PowerOff | src/main/kotlin/generators/Generator.kt:312-320 | always succeeds. Afterwards there is no task, the heat is 0, the state is off and no zone is at the origin |
| Generators.Generator.Run | src/main/kotlin/generators/Generator.kt:229-236 | stress, range and durability match their formulas. With fuel the heat does too, the first fuelled intake loses `consumption` coal and every other chest stays, and the zones are the old ones not at the origin followed by one fresh zone at the origin. Without fuel the generator is off with heat 0, no chest changes and the zones are the old ones not at the origin |
| Generators.Generator.RefreshAndBurn | src/main/kotlin/generators/Generator.kt:234-235 | `updateZone` then `consumeFuel`. With fuel: the first fuelled intake loses `consumption` coal, other chests stay, and the zones are the old ones not at the origin followed by one fresh origin zone. Without fuel: power-off, no chest changes, and the zones are the old ones not at the origin |
| Generators.RemoveBlockDistinct | src/main/kotlin/generators/Generator.kt:139 | removing a chest keeps the intake list free of duplicates |
| LegacyGenerators.AddAll | src/main/kotlin/Generators/Generator.kt:183-185 | `addAll` on a LinkedHashSet keeps the old elements in place and contains exactly the old and the new elements |
| LegacyGenerators.AddAllDistinct | src/main/kotlin/Generators/Generator.kt:183-185 | adding never duplicates |
| LegacyGenerators.AddAllPresent | src/main/kotlin/Generators/Generator.kt:183-185 | adding only elements already present changes nothing |
| LegacyGenerators.ChestsIn | src/main/kotlin/Generators/Generator.kt:172-176 | exactly the chest blocks of the structure, in structure order |
| LegacyGenerators.LegacyGenerator.constructor | src/main/kotlin/Generators/Generator.kt:27-40 | the constructor parameters are kept; structure and intakes are empty, stress 0, state off and no consumer |
| LegacyGenerators.LegacyGenerator.AddBlock | src/main/kotlin/Generators/Generator.kt:179-181 | the structure grows by the block unless it is already there |
| LegacyGenerators.LegacyGenerator.AddBlocks | src/main/kotlin/Generators/Generator.kt:183-185 | the loop computes `addAll`: the structure only grows, by exactly the given blocks |
| LegacyGenerators.LegacyGenerator.FindIntakes | src/main/kotlin/Generators/Generator.kt:171-177 | every chest of the structure joins the intakes, and nothing else does |
| LegacyGenerators.LegacyGenerator.HasFuel | src/main/kotlin/Generators/Generator.kt:112-119 | fuel exactly when some intake holds coal |
| LegacyGenerators.LegacyGenerator.GenerateZone | src/main/kotlin/Generators/Generator.kt:86-88 | a climate zone at the origin, with the generator's radius and rule global + heat, is appended |
| LegacyGenerators.LegacyGenerator.RemoveZone | src/main/kotlin/Generators/Generator.kt:90-92 | no zone remains at the origin |
| LegacyGenerators.LegacyGenerator.PowerOff | src/main/kotlin/Generators/Generator.kt:150-169 | with a running consumer: no consumer, state off, no zone at the origin. Without one the `!!` throws before anything changes |
| LegacyGenerators.LegacyGenerator.ConsumeFuel | src/main/kotlin/Generators/Generator.kt:95-110 | without fuel it powers off. Otherwise the first fuelled intake loses `consumption` coal and nothing else changes |
| LegacyGenerators.LegacyGenerator.PowerOn | src/main/kotlin/Generators/Generator.kt:121-148 | without fuel nothing changes. Otherwise the zone is appended, the consumer id recorded and the state on, even when the id is -1 |
| LegacyGenerators.OwnZoneWarms | src/main/kotlin/Generators/Generator.kt:87 | the legacy zone reports global + heat everywhere |
| FrostPlayers.OpenAirTarget | src/main/kotlin/frostplayer/FrostPlayer.kt:53-59 | in the open with no heat sources, the target is the zone temperature |
| FrostPlayers.Adjusted | src/main/kotlin/frostplayer/FrostPlayer.kt:87-94 | the temperature moves by exactly the change rate, never away from the target, and stays put when it equals the target |
| FrostPlayers.AdjustedStep | src/main/kotlin/frostplayer/FrostPlayer.kt:87-94 | one step moves by exactly the change rate toward the target, or not at all when equal. From at least a step away it closes the gap by one step |
| FrostPlayers.AdjustedOvershoots | src/main/kotlin/frostplayer/FrostPlayer.kt:89-93 | from less than a step below the target the step lands above it, from less than a step above it lands below, and the following step returns to the starting temperature |
| FrostPlayers.ClassifyBands | src/main/kotlin/frostplayer/FrostPlayer.kt:99-106 | each state is exactly one temperature band, and a colder temperature is never a milder state |
| FrostPlayers.NextInterval | src/main/kotlin/frostplayer/FrostPlayer.kt:183-184 | the counter stays below 20 |
| FrostPlayers.AfterTicksWithinPeriod | src/main/kotlin/frostplayer/FrostPlayer.kt:175-185 | within one period the counter counts up and wraps once at 20 |
| FrostPlayers.MessageOncePerPeriod | src/main/kotlin/frostplayer/FrostPlayer.kt:175-185 | the counter is 0, so the message shows, on exactly one of every 20 consecutive ticks, and returns to its start after 20 |
| FrostPlayers.AfterDamage | src/main/kotlin/frostplayer/FrostPlayer.kt:162-169 | health after damage is never negative: reduced by the damage, or 0 when that would reach zero |
| FrostPlayers.EffectsHarmOnly | src/main/kotlin/frostplayer/FrostPlayer.kt:111-170 | the effects never raise health or push it below 0, never clear a frost death, mark a new one only at 0 health, hurt only in a severe or moderate state when not cancelled, and always hurt a living player then |
| FrostPlayers.SealedTarget | src/main/kotlin/frostplayer/FrostPlayer.kt:53-76 | any two sealed searches of one pocket give the same target temperature |
| FrostPlayers.ComputeTarget | src/main/kotlin/frostplayer/FrostPlayer.kt:73-76 | insulation times (heat sources + zone temperature) |
| FrostPlayers.FrostPlayer.constructor | src/main/kotlin/frostplayer/FrostPlayer.kt:32-42 | a new player is at 310.15, normal, not frozen, counter 0 |
| FrostPlayers.FrostPlayer.UpdateTemperatureState | src/main/kotlin/frostplayer/FrostPlayer.kt:99-106 | the state becomes `Classify(temperature)` |
| FrostPlayers.FrostPlayer.UpdateTemperature | src/main/kotlin/frostplayer/FrostPlayer.kt:73-82 | one step toward the target, then the state matches the new temperature |
| FrostPlayers.FrostPlayer.ShowColdMessage | src/main/kotlin/frostplayer/FrostPlayer.kt:175-185 | shown exactly when the counter was 0; the counter ticks and stays below 20 |
| FrostPlayers.FrostPlayer.ApplyColdDamage | src/main/kotlin/frostplayer/FrostPlayer.kt:155-170 | the counter ticks. Unless cancelled, health becomes `AfterDamage` and a fatal hit marks a frost death. Cancelled, health and the flag stay |
| FrostPlayers.FrostPlayer.FreezePlayer | src/main/kotlin/frostplayer/FrostPlayer.kt:222-225 | frozen afterwards |
| FrostPlayers.FrostPlayer.Unfreeze | src/main/kotlin/frostplayer/FrostPlayer.kt:230-233 | not frozen afterwards |
| FrostPlayers.FrostPlayer.WarmUp | src/main/kotlin/frostplayer/FrostPlayer.kt:146-150 | not frozen and counter 0 |
| FrostPlayers.FrostPlayer.ApplyTemperatureEffects | src/main/kotlin/frostplayer/FrostPlayer.kt:111-141 | severe: double damage, a fatal uncancelled hit marks a frost death, frozen. Moderate: single damage and the same death rule. Mild: nothing modelled changes. Normal: warmed up. A cancelled hit leaves health and the death flag |
| FrostPlayers.FrostPlayer.InsulationMaterials | src/main/kotlin/frostplayer/FrostPlayer.kt:53-57 | the insulation is the lining the enclosure search collected when the pocket is sealed, and empty when an air walk escapes. When sealed, the search expanded exactly the reachable cells, each once |
| FrostPlayers.FrostPlayer.CheckTemperature | src/main/kotlin/frostplayer/FrostPlayer.kt:50-67 | one step toward the target: the zone temperature in the open; when sealed, the insulation of the lining of the reachable cells times it, whatever order they are listed in. The state is reclassified in every mode. No effect applies in creative or spectator mode; otherwise the effects of the new state apply |
| FrostPlayers.FrostPlayer.StepTowardSurroundings | src/main/kotlin/frostplayer/FrostPlayer.kt:53-59 | one step toward the zone temperature in the open, or toward the insulation of the reachable cells' lining times it when sealed, whatever order they are listed in; then the state is reclassified |
| FrostPlayers.FrostPlayer.TargetTemperature | src/main/kotlin/frostplayer/FrostPlayer.kt:237-245 | the same target `checkTemperature` steps toward: the zone temperature in the open, the lining's insulation of the reachable cells times it when sealed, with nothing changed |
| LegacyFrostPlayers.LegacyFrostPlayer.constructor | src/main/kotlin/FrostPlayer.kt:13-16 | temperature 0, no frost death, counter 0 |
| LegacyFrostPlayers.LegacyFrostPlayer.ApplyTemperatureEffects | src/main/kotlin/FrostPlayer.kt:46-76 | nothing unless below 0. Then the message shows exactly at counter 0, the counter ticks, and uncancelled damage of 0.5 is floored at zero |
| LegacyFrostPlayers.LegacyFrostPlayer.CheckTemperature | src/main/kotlin/FrostPlayer.kt:22-42 | creative and spectator: nothing changes. Otherwise: sealed gives 0 and resets the counter; open gives -1, a cold tick, and uncancelled damage of 0.5 floored at zero, with a frost death marked exactly when it reaches zero |
| Diseases.Quot | src/main/kotlin/disease/DiseaseManager.kt:13 | Kotlin `/` truncates toward zero: the remainder has the sign of the dividend and is smaller than the divisor |
| Diseases.Wrap32 | src/main/kotlin/disease/DiseaseManager.kt:18 | an `Int` product wraps modulo 2³², unchanged when it fits |
| Diseases.CallCountToSeconds | src/main/kotlin/disease/DiseaseManager.kt:12-14 | dividing by `20/20` leaves the call count unchanged |
| Diseases.SecondsToCallCount | src/main/kotlin/disease/DiseaseManager.kt:16-19 | multiplies by 400 when the product fits in an `Int` |
| Diseases.SecondsRoundTripFails | src/main/kotlin/disease/DiseaseManager.kt:16-19 | one second converts to 400 calls and back to 400 seconds |
| Diseases.CallCountRoundTrip | src/main/kotlin/disease/DiseaseManager.kt:12-19 | the corrected conversion and `callCountToSeconds` are inverse in both directions |
| Diseases.AddOnce | src/main/kotlin/disease/DiseaseManager.kt:36 | set `add`: the old elements plus the new one, never duplicated |
| Diseases.AddOnceIdempotent | src/main/kotlin/disease/DiseaseManager.kt:36 | adding the same disease twice is adding it once |
| Diseases.FindByName | src/main/kotlin/disease/DiseaseManager.kt:46 | a found disease is in the set and has the name, and none is found exactly when no disease has it |
| Diseases.FindByNameFirst | src/main/kotlin/disease/DiseaseManager.kt:46 | the one found comes before every other disease of that name |
| Diseases.Uncured | src/main/kotlin/disease/DiseaseManager.kt:49-58 | corrected (intended) cure, see Findings: exactly the diseases not both named by the cure and cured remain |
| Diseases.UncuredNoDuplicates | src/main/kotlin/disease/DiseaseManager.kt:54 | curing keeps the set free of duplicates |
| Diseases.UncuredNothing | src/main/kotlin/disease/DiseaseManager.kt:49-58 | a cure that removes nothing leaves the set as it was |
| Diseases.FirstCured | src/main/kotlin/disease/DiseaseManager.kt:51-55 | the position of the first disease the cure removes |
| Diseases.FirstCuredAt | src/main/kotlin/disease/DiseaseManager.kt:51-55 | a scan that passed only uncured diseases and stopped at a cured one stopped at the first |
| Diseases.CureInterrupted | src/main/kotlin/disease/DiseaseManager.kt:51-55 | removing inside `forEach` removes only the first cured disease, and fails exactly when another disease follows it |
| Diseases.RemoveAtNoDuplicates | src/main/kotlin/disease/DiseaseManager.kt:54 | removing one disease keeps the set free of duplicates |
| Diseases.CureInterruptedKeepsSecond | src/main/kotlin/disease/DiseaseManager.kt:49-58 | two same-named diseases with a cure that works on both: the code removes one and throws, while the intended filter removes both |
| Diseases.DiseaseManager.constructor | src/main/kotlin/disease/DiseaseManager.kt:23 | no player has diseases |
| Diseases.DiseaseManager.AddDisease | src/main/kotlin/disease/DiseaseManager.kt:35-37 | the player's set, created if absent, gains the disease, and every other player's set stays |
| Diseases.DiseaseManager.GetDisease | src/main/kotlin/disease/DiseaseManager.kt:45-47 | a disease of that name from the player's set, or none exactly when the player has none of that name |
| Diseases.DiseaseManager.ApplyCure | src/main/kotlin/disease/DiseaseManager.kt:49-58 | corrected (intended) cure, see Findings; the code as written is `ApplyCureAsWritten`: the player's set keeps exactly the diseases not both named by the cure and cured, in order. An absent player gets no entry, and every other player's set stays |
| Diseases.DiseaseManager.ApplyCureAsWritten | src/main/kotlin/disease/DiseaseManager.kt:49-58 | as the code runs: only the first cured disease is removed, and a concurrent-modification failure is reported when another disease followed it |

## Left out

- Bukkit events, GUIs, the scheduler and logging are not modelled. The event listeners, the control-panel GUIs and the log lines are left out. The periodic steps (`run`, `consumeFuel`, disease progress) are explicit method calls. A scheduled task id is a method parameter.
- Visual and player side effects are not modelled: lit furnaces (`setFurnacesLit`), potion effects, freeze ticks and action bars. The cold message is a boolean result. The damage event's cancellation is a boolean input. Health is the one field of a `Body` object.
- Effects that the source applies on the next tick (`callSyncMethod`) apply in the same step.
- Floating-point rounding is not modelled; `Float` and `Double` are `real`.
- The heat zone's distance (a square root) is a parameter `distance`. The new generator's fall-off rule `heat / distance²` is the generator parameter `falloff`, because at distance 0 the `Float` division gives infinity or NaN, which `real` cannot represent.
- `Generators.Generator.GenerateZone`: the zone's rule captures the heat at creation, where the source's lambda reads the field later. Every heat change is followed by a new zone or a power-off, so the two agree.
- Climate.ClimateManager.AddClimateZone: zones are compared by reference. The source's zones are data classes with structural equality, but their rules are lambdas, so a new zone is never equal to a registered one.
- The public `globalTemperature` setter of `ClimateManager` is not modelled; `UpdateGlobalTemperature` is the only way to change it.
- `ConfigParser.kt` is not part of this model. Its default values are constants in the model.
- `FrostCraft.kt` and both `PlayerManager.kt` files are not part of this model. They are plugin wiring and per-player dispatch.
- `IZone.kt`, `IDisease.kt` and `ICure.kt` are not part of this model. A disease is a value with an identity and a name. A cure is its list of names plus a predicate `succeeds` standing for `cure.cure`.
- `progressAllDiseases` and the repeating task that calls it are not modelled, because they only call into disease implementations outside the model.
- A non-chest block in the intakes would make the source throw `ClassCastException`. The model reads every intake as a chest, with no coal when none is recorded.
- `Generators.Generator.PowerOn` keeps the zone registered when the scheduler answers -1, as the source does. The model states this but claims nothing further.
- The assertion `player.uniqueId == playerId` in both `checkTemperature`s is not modelled. A player object carries no id.

## Findings

| source | as written | input that shows it | evidently intended | confidence | as-written member | corrected member |
|---|---|---|---|---|---|---|
| src/main/kotlin/disease/DiseaseManager.kt:16-19 | `secondsToCallCount` multiplies by `PROGRESS_INTERVAL * 20` = 400 | 1 second gives 400 calls, and `callCountToSeconds(400)` = 400 seconds | the inverse of `callCountToSeconds`, multiplying by `PROGRESS_INTERVAL / 20` = 1 | medium, not executed | Diseases.SecondsRoundTripFails | Diseases.CallCountRoundTrip |
| src/main/kotlin/disease/DiseaseManager.kt:49-58 | `applyCure` removes from the set it is iterating with `forEach`. The LinkedHashSet's iterator throws `ConcurrentModificationException` at the next step after a removal | two diseases named "frostbite" and a cure for "frostbite" that succeeds: the first is removed, then the call throws and the second stays | every named, successfully cured disease is removed (`removeIf`) | high, not executed | Diseases.CureInterruptedKeepsSecond | Diseases.DiseaseManager.ApplyCure |
