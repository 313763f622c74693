/**
 * A player's body temperature (frostplayer/FrostPlayer.kt): each check moves
 * the temperature one fixed step toward a target computed from the
 * shelter's insulation and the zone temperature, classifies it into a cold
 * state, and applies the state's effects: damage with a health floor of
 * zero, freezing, and a throttled cold message.
 */
module FrostPlayers {
  import opened Geometry
  import opened Materials
  import opened Enclosure
  import opened Scoring
  import opened Climate

  /** The configuration defaults of ConfigParser.kt that the player reads. */
  const PlayerBodyTemperature: real := 310.15
  const PlayerMildEffectsThreshold: real := 273.15
  const PlayerModerateEffectsThreshold: real := 268.15
  const PlayerCriticalLowTemp: real := 263.15
  const PlayerGradualTemperatureChangeRate: real := 1.0
  const PlayerTemperatureDamage: real := 0.1

  /** How often the cold message may show: once every this many damage ticks. */
  const ColdMessagePeriod: nat := 20

  datatype BodyTemperatureState = Normal | Mild | Moderate | Severe

  datatype GameMode = Survival | Creative | Adventure | Spectator

  /** The game's side of a player: only the health is modelled. */
  class Body {
    var health: real

    constructor (health: real)
      ensures this.health == health
    {
      this.health := health;
    }
  }

  /** The target temperature: the insulation factor of the lining times heat sources plus zone temperature. */
  function Target(heatSources: set<Material>, insulation: seq<Material>, zoneTemperature: real): real
  {
    Insulation(insulation) * (HeatOf(heatSources) + zoneTemperature)
  }

  /** In the open, with no heat sources, the target is the zone temperature. */
  lemma OpenAirTarget(zoneTemperature: real)
    ensures Target({}, [], zoneTemperature) == zoneTemperature
  {
  }

  /** `adjustTemperatureTowardsTarget`: one step of the change rate toward the target, not clamped. */
  function Adjusted(temperature: real, target: real): (r: real)
    ensures Abs(r - temperature) == (if temperature == target then 0.0 else PlayerGradualTemperatureChangeRate)
    ensures (r - temperature) * (target - temperature) >= 0.0
  {
    if temperature < target then temperature + PlayerGradualTemperatureChangeRate
    else if temperature > target then temperature - PlayerGradualTemperatureChangeRate
    else temperature
  }

  function Abs(r: real): real
  {
    if r < 0.0 then -r else r
  }

  /**
   * One step moves by exactly the change rate in the direction of the
   * target, or not at all when already there; from at least a step away it
   * closes the gap by exactly one step.
   */
  lemma AdjustedStep(temperature: real, target: real)
    ensures temperature == target <==> Adjusted(temperature, target) == temperature
    ensures temperature != target ==> Abs(Adjusted(temperature, target) - temperature) == PlayerGradualTemperatureChangeRate
    ensures temperature < target ==> Adjusted(temperature, target) > temperature
    ensures temperature > target ==> Adjusted(temperature, target) < temperature
    ensures Abs(target - temperature) >= PlayerGradualTemperatureChangeRate ==>
      Abs(target - Adjusted(temperature, target)) == Abs(target - temperature) - PlayerGradualTemperatureChangeRate
  {
  }

  /**
   * Less than a step from the target, the step passes it, from either
   * side, and the next step comes straight back: the temperature then
   * alternates between two values and never settles on the target.
   */
  lemma AdjustedOvershoots(temperature: real, target: real)
    ensures temperature < target < temperature + PlayerGradualTemperatureChangeRate ==>
      Adjusted(temperature, target) > target
    ensures temperature - PlayerGradualTemperatureChangeRate < target < temperature ==>
      Adjusted(temperature, target) < target
    ensures 0.0 < Abs(target - temperature) < PlayerGradualTemperatureChangeRate ==>
      Adjusted(Adjusted(temperature, target), target) == temperature
  {
  }

  /** `updateTemperatureState`: the thresholds, checked from the coldest. */
  function Classify(temperature: real): BodyTemperatureState
  {
    if temperature < PlayerCriticalLowTemp then Severe
    else if temperature < PlayerModerateEffectsThreshold then Moderate
    else if temperature < PlayerMildEffectsThreshold then Mild
    else Normal
  }

  function Severity(s: BodyTemperatureState): nat
  {
    match s
    case Normal => 0
    case Mild => 1
    case Moderate => 2
    case Severe => 3
  }

  /** Each state is exactly one temperature band, and colder is never a milder state. */
  lemma ClassifyBands(t: real, u: real)
    ensures Classify(t) == Severe <==> t < PlayerCriticalLowTemp
    ensures Classify(t) == Moderate <==> PlayerCriticalLowTemp <= t < PlayerModerateEffectsThreshold
    ensures Classify(t) == Mild <==> PlayerModerateEffectsThreshold <= t < PlayerMildEffectsThreshold
    ensures Classify(t) == Normal <==> PlayerMildEffectsThreshold <= t
    ensures t <= u ==> Severity(Classify(t)) >= Severity(Classify(u))
  {
  }

  /** The cold-message counter after one message tick: up by one, back to 0 on reaching the period. */
  function NextInterval(i: nat): (j: nat)
    ensures j < ColdMessagePeriod
  {
    if i + 1 >= ColdMessagePeriod then 0 else i + 1
  }

  /** The counter after `k` message ticks from `i`. */
  function AfterTicks(i: nat, k: nat): nat
  {
    if k == 0 then i else NextInterval(AfterTicks(i, k - 1))
  }

  /** Within one period the counter just counts up, wrapping once at the period. */
  lemma {:induction false} AfterTicksWithinPeriod(i: nat, k: nat)
    requires i < ColdMessagePeriod && k <= ColdMessagePeriod
    ensures AfterTicks(i, k) == if i + k < ColdMessagePeriod then i + k else i + k - ColdMessagePeriod
  {
    if k > 0 {
      AfterTicksWithinPeriod(i, k - 1);
    }
  }

  /**
   * From any counter value the message shows on exactly one of every
   * twenty consecutive ticks, and the counter comes back to where it started.
   */
  lemma MessageOncePerPeriod(i: nat, k: nat)
    requires i < ColdMessagePeriod && k < ColdMessagePeriod
    ensures AfterTicks(i, k) == 0 <==> i + k == 0 || i + k == ColdMessagePeriod
    ensures AfterTicks(i, ColdMessagePeriod) == i
  {
    AfterTicksWithinPeriod(i, k);
    AfterTicksWithinPeriod(i, ColdMessagePeriod);
  }

  /** Health after uncancelled cold damage: never below zero. */
  function AfterDamage(health: real, damage: real): (h: real)
    ensures h >= 0.0
    ensures health - damage > 0.0 ==> h == health - damage
    ensures health - damage <= 0.0 ==> h == 0.0
  {
    if health - damage <= 0.0 then 0.0 else health - damage
  }

  /**
   * The outcome of one damage tick of `damage`: nothing when the damage
   * event is cancelled, otherwise the floored health, and a death from
   * frost recorded when the hit is fatal.
   */
  predicate Damaged(cancelled: bool, damage: real, health: real, died: bool, health': real, died': bool)
  {
    if cancelled then health' == health && died' == died
    else health' == AfterDamage(health, damage) && died' == (died || health - damage <= 0.0)
  }

  /**
   * The effects of `applyTemperatureEffects` in state `s`, from health,
   * frozen flag, message counter and death mark to their new values:
   * severe cold deals twice the damage and freezes, moderate cold deals
   * the damage, mild cold changes none of them, normal temperature thaws
   * and resets the counter.
   */
  predicate Effects(s: BodyTemperatureState, cancelled: bool,
                    health: real, frozen: bool, interval: nat, died: bool,
                    health': real, frozen': bool, interval': nat, died': bool)
  {
    match s
    case Severe =>
      frozen' && interval' == NextInterval(interval) &&
      Damaged(cancelled, 2.0 * PlayerTemperatureDamage, health, died, health', died')
    case Moderate =>
      frozen' == frozen && interval' == NextInterval(interval) &&
      Damaged(cancelled, PlayerTemperatureDamage, health, died, health', died')
    case Mild =>
      frozen' == frozen && interval' == interval && health' == health && died' == died
    case Normal =>
      !frozen' && interval' == 0 && health' == health && died' == died
  }

  /**
   * The effects never heal, never take health below zero, never clear a
   * death mark, and mark a new death only when the health reaches zero;
   * they harm exactly in the two damaging states.
   */
  lemma EffectsHarmOnly(s: BodyTemperatureState, cancelled: bool,
                        health: real, frozen: bool, interval: nat, died: bool,
                        health': real, frozen': bool, interval': nat, died': bool)
    requires health >= 0.0
    requires Effects(s, cancelled, health, frozen, interval, died, health', frozen', interval', died')
    ensures 0.0 <= health' <= health
    ensures died ==> died'
    ensures died' && !died ==> health' == 0.0
    ensures health' < health ==> !cancelled && s in {Severe, Moderate}
    ensures s in {Severe, Moderate} && !cancelled && health > 0.0 ==> health' < health
  {
  }

  /**
   * The target inside a sealed pocket does not depend on the order the
   * pocket was searched in: every expansion order of the same pocket
   * gives the same lining up to order, hence the same insulation factor.
   */
  lemma SealedTarget(world: Coord -> Material, start: Coord, range: nat, a: seq<Coord>, b: seq<Coord>,
                     heatSources: set<Material>, zoneTemperature: real)
    requires SealedPocket(world, start, range, a) && SealedPocket(world, start, range, b)
    ensures Target(heatSources, Collected(world, start, a), zoneTemperature) ==
            Target(heatSources, Collected(world, start, b), zoneTemperature)
  {
    var liningA, liningB := Collected(world, start, a), Collected(world, start, b);
    SealedLining(world, start, range, a, b);
    InsulationPermutation(liningA, liningB);
    SameInsulation(heatSources, liningA, liningB, zoneTemperature);
  }

  lemma SameInsulation(heatSources: set<Material>, a: seq<Material>, b: seq<Material>, zoneTemperature: real)
    requires Insulation(a) == Insulation(b)
    ensures Target(heatSources, a, zoneTemperature) == Target(heatSources, b, zoneTemperature)
  {
  }

  /** The target as both `updateTemperature` and `targetTemperature` compute it, through the two scoring loops. */
  method ComputeTarget(heatSources: set<Material>, insulation: seq<Material>, zoneTemperature: real)
    returns (target: real)
    ensures target == Target(heatSources, insulation, zoneTemperature)
  {
    var insulationFactor := CalculateInsulation(insulation);
    var heatSourceContribution := CalculateHeatSources(heatSources);
    target := insulationFactor * (heatSourceContribution + zoneTemperature);
  }

  class FrostPlayer {
    var temperature: real
    var state: BodyTemperatureState
    var diedFromFrost: bool
    var coldMessageInterval: nat
    var frozen: bool

    /** The message counter stays below its period. */
    ghost predicate Valid()
      reads this`coldMessageInterval
    {
      coldMessageInterval < ColdMessagePeriod
    }

    constructor ()
      ensures Valid()
      ensures temperature == PlayerBodyTemperature && state == Normal
      ensures !diedFromFrost && coldMessageInterval == 0 && !frozen
    {
      temperature := PlayerBodyTemperature;
      state := Normal;
      diedFromFrost := false;
      coldMessageInterval := 0;
      frozen := false;
    }

    /** `updateTemperatureState`. */
    method UpdateTemperatureState()
      modifies this`state
      ensures state == Classify(temperature)
    {
      if temperature < PlayerCriticalLowTemp {
        state := Severe;
      } else if temperature < PlayerModerateEffectsThreshold {
        state := Moderate;
      } else if temperature < PlayerMildEffectsThreshold {
        state := Mild;
      } else {
        state := Normal;
      }
    }

    /** `updateTemperature`: one step toward the target, then the state is reclassified. */
    method UpdateTemperature(heatSources: set<Material>, insulation: seq<Material>, zoneTemperature: real)
      modifies this`temperature, this`state
      ensures temperature == Adjusted(old(temperature), Target(heatSources, insulation, zoneTemperature))
      ensures state == Classify(temperature)
    {
      var target := ComputeTarget(heatSources, insulation, zoneTemperature);
      temperature := Adjusted(temperature, target);
      UpdateTemperatureState();
    }

    /** `showColdMessage`: shown when the counter is 0; the counter then ticks. */
    method ShowColdMessage() returns (shown: bool)
      requires Valid()
      modifies this`coldMessageInterval
      ensures Valid()
      ensures shown <==> old(coldMessageInterval) == 0
      ensures coldMessageInterval == NextInterval(old(coldMessageInterval))
    {
      shown := coldMessageInterval == 0;
      coldMessageInterval := coldMessageInterval + 1;
      if coldMessageInterval >= ColdMessagePeriod {
        coldMessageInterval := 0;
      }
    }

    /**
     * `applyColdDamage`: the message tick, then, unless the damage event is
     * cancelled, the damage with health floored at zero, a fatal hit marking
     * a death from frost.
     */
    method ApplyColdDamage(body: Body, damage: real, cancelled: bool)
      requires Valid()
      modifies this`coldMessageInterval, this`diedFromFrost, body
      ensures Valid() && coldMessageInterval == NextInterval(old(coldMessageInterval))
      ensures cancelled ==> body.health == old(body.health) && diedFromFrost == old(diedFromFrost)
      ensures !cancelled ==> body.health == AfterDamage(old(body.health), damage)
      ensures !cancelled ==> diedFromFrost == (old(diedFromFrost) || old(body.health) - damage <= 0.0)
    {
      var _ := ShowColdMessage();
      if !cancelled {
        if body.health - damage <= 0.0 {
          body.health := 0.0;
          diedFromFrost := true;
        } else {
          body.health := body.health - damage;
        }
      }
    }

    /** `freezePlayer`. */
    method FreezePlayer()
      modifies this`frozen
      ensures frozen
    {
      frozen := true;
    }

    /** `unfreeze`. */
    method Unfreeze()
      modifies this`frozen
      ensures !frozen
    {
      frozen := false;
    }

    /** `warmUp`: thawed, and the message counter starts over. */
    method WarmUp()
      modifies this`frozen, this`coldMessageInterval
      ensures Valid() && !frozen && coldMessageInterval == 0
    {
      if frozen {
        Unfreeze();
      }
      coldMessageInterval := 0;
    }

    /**
     * `applyTemperatureEffects`: severe cold deals twice the damage and
     * freezes, moderate cold deals the damage, mild cold only has potion
     * effects, and normal temperature warms up.
     */
    method ApplyTemperatureEffects(body: Body, cancelled: bool)
      requires Valid()
      modifies this`coldMessageInterval, this`diedFromFrost, this`frozen, body
      ensures Valid()
      ensures Effects(state, cancelled, old(body.health), old(frozen), old(coldMessageInterval), old(diedFromFrost),
                      body.health, frozen, coldMessageInterval, diedFromFrost)
    {
      match state {
        case Severe =>
          ApplyColdDamage(body, PlayerTemperatureDamage * 2.0, cancelled);
          FreezePlayer();
        case Moderate =>
          ApplyColdDamage(body, PlayerTemperatureDamage, cancelled);
        case Mild =>
        case Normal =>
          WarmUp();
      }
    }

    /**
     * The shelter test both temperature queries start with: the lining of a
     * sealed pocket counts as insulation, the open air counts as none.
     */
    static method InsulationMaterials(location: Point, world: Coord -> Material)
      returns (enclosed: bool, insulation: seq<Material>, ghost expanded: seq<Coord>)
      ensures enclosed <==> !Escapes(world, CoordOf(location), MaxEncloseRange)
      ensures enclosed ==> SealedPocket(world, CoordOf(location), MaxEncloseRange, expanded)
      ensures enclosed ==> insulation == Collected(world, CoordOf(location), expanded)
      ensures !enclosed ==> insulation == []
    {
      var materials;
      enclosed, materials, expanded := IsEnclosed(location, world, MaxEncloseRange);
      insulation := if enclosed then materials else [];
    }

    /**
     * `checkTemperature`: searches the shelter, asks the registry for the
     * zone temperature at the player, takes one step, and, outside
     * creative and spectator mode, applies the effects of the new state.
     */
    method CheckTemperature(location: Point, worldId: World, world: Coord -> Material, gameMode: GameMode,
                            mgr: ClimateManager, distance: (Point, Point) -> real, body: Body, cancelled: bool)
      requires Valid()
      modifies this`temperature, this`state, this`coldMessageInterval, this`diedFromFrost, this`frozen, body
      ensures Valid()
      ensures Escapes(world, CoordOf(location), MaxEncloseRange) ==>
        temperature == Adjusted(old(temperature), Target({}, [], mgr.Temperature(location, distance)))
      ensures !Escapes(world, CoordOf(location), MaxEncloseRange) ==>
        && (exists e :: SealedPocket(world, CoordOf(location), MaxEncloseRange, e))
        && forall e :: SealedPocket(world, CoordOf(location), MaxEncloseRange, e) ==>
             temperature == Adjusted(old(temperature),
                                     Target({}, Collected(world, CoordOf(location), e), mgr.Temperature(location, distance)))
      ensures state == Classify(temperature)
      ensures gameMode in {Creative, Spectator} ==>
        && body.health == old(body.health) && diedFromFrost == old(diedFromFrost)
        && frozen == old(frozen) && coldMessageInterval == old(coldMessageInterval)
      ensures gameMode !in {Creative, Spectator} ==>
        Effects(state, cancelled, old(body.health), old(frozen), old(coldMessageInterval), old(diedFromFrost),
                body.health, frozen, coldMessageInterval, diedFromFrost)
    {
      StepTowardSurroundings(location, worldId, world, mgr, distance);
      ghost var stepped, zoneTemperature := temperature, mgr.Temperature(location, distance);
      if gameMode != Creative && gameMode != Spectator {
        ApplyTemperatureEffects(body, cancelled);
      }
      assert temperature == stepped && mgr.Temperature(location, distance) == zoneTemperature;
    }

    /** The first half of `checkTemperature`: the shelter search, the zone temperature and one step toward their target. */
    method StepTowardSurroundings(location: Point, worldId: World, world: Coord -> Material,
                                  mgr: ClimateManager, distance: (Point, Point) -> real)
      requires Valid()
      modifies this`temperature, this`state
      ensures Valid()
      ensures Escapes(world, CoordOf(location), MaxEncloseRange) ==>
        temperature == Adjusted(old(temperature), Target({}, [], mgr.Temperature(location, distance)))
      ensures !Escapes(world, CoordOf(location), MaxEncloseRange) ==>
        && (exists e :: SealedPocket(world, CoordOf(location), MaxEncloseRange, e))
        && forall e :: SealedPocket(world, CoordOf(location), MaxEncloseRange, e) ==>
             temperature == Adjusted(old(temperature),
                                     Target({}, Collected(world, CoordOf(location), e), mgr.Temperature(location, distance)))
      ensures state == Classify(temperature)
    {
      var enclosed, insulationMaterials, expanded := InsulationMaterials(location, world);
      var zoneTemperature := mgr.GetTemperature(worldId, location, distance);
      UpdateTemperature({}, insulationMaterials, zoneTemperature);
      if enclosed {
        forall e | SealedPocket(world, CoordOf(location), MaxEncloseRange, e)
          ensures temperature == Adjusted(old(temperature), Target({}, Collected(world, CoordOf(location), e), zoneTemperature))
        {
          SealedTarget(world, CoordOf(location), MaxEncloseRange, expanded, e, {}, zoneTemperature);
        }
      }
    }

    /** `targetTemperature`: the target `checkTemperature` steps toward, computed without changing anything. */
    method TargetTemperature(location: Point, worldId: World, world: Coord -> Material,
                             mgr: ClimateManager, distance: (Point, Point) -> real) returns (target: real)
      ensures Escapes(world, CoordOf(location), MaxEncloseRange) ==>
        target == mgr.Temperature(location, distance)
      ensures !Escapes(world, CoordOf(location), MaxEncloseRange) ==>
        && (exists e :: SealedPocket(world, CoordOf(location), MaxEncloseRange, e))
        && forall e :: SealedPocket(world, CoordOf(location), MaxEncloseRange, e) ==>
             target == Target({}, Collected(world, CoordOf(location), e), mgr.Temperature(location, distance))
    {
      var enclosed, insulationMaterials, expanded := InsulationMaterials(location, world);
      var zoneTemperature := mgr.GetTemperature(worldId, location, distance);
      target := ComputeTarget({}, insulationMaterials, zoneTemperature);
      if !enclosed {
        OpenAirTarget(zoneTemperature);
      } else {
        forall e | SealedPocket(world, CoordOf(location), MaxEncloseRange, e)
          ensures target == Target({}, Collected(world, CoordOf(location), e), zoneTemperature)
        {
          SealedTarget(world, CoordOf(location), MaxEncloseRange, expanded, e, {}, zoneTemperature);
        }
      }
    }
  }
}
