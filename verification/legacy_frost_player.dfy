/**
 * The older player temperature of FrostPlayer.kt: a shelter makes the
 * player warm (temperature 0), the open makes them cold (temperature -1),
 * and while cold every effects tick shows the throttled message and deals
 * a fixed half point of damage.
 */
module LegacyFrostPlayers {
  import opened Geometry
  import opened Materials
  import opened Enclosure
  import opened FrostPlayers

  /** `dmg`: the damage of one cold tick. */
  const Dmg: real := 0.5

  class LegacyFrostPlayer {
    var temperature: real
    var diedFromFrost: bool
    var coldMessageInterval: nat

    /** The message counter stays below its period. */
    ghost predicate Valid()
      reads this`coldMessageInterval
    {
      coldMessageInterval < ColdMessagePeriod
    }

    constructor ()
      ensures Valid()
      ensures temperature == 0.0 && !diedFromFrost && coldMessageInterval == 0
    {
      temperature := 0.0;
      diedFromFrost := false;
      coldMessageInterval := 0;
    }

    /**
     * `applyTemperatureEffects`: nothing unless cold; when cold, the message
     * shows if the counter is 0, the counter ticks, and unless the damage
     * event is cancelled the player takes `Dmg`, health floored at zero.
     */
    method ApplyTemperatureEffects(body: Body, cancelled: bool) returns (shown: bool)
      requires Valid()
      modifies this`coldMessageInterval, this`diedFromFrost, body
      ensures Valid()
      ensures shown <==> temperature < 0.0 && old(coldMessageInterval) == 0
      ensures temperature >= 0.0 ==>
        coldMessageInterval == old(coldMessageInterval) && diedFromFrost == old(diedFromFrost) &&
        body.health == old(body.health)
      ensures temperature < 0.0 ==> coldMessageInterval == NextInterval(old(coldMessageInterval))
      ensures temperature < 0.0 && cancelled ==>
        body.health == old(body.health) && diedFromFrost == old(diedFromFrost)
      ensures temperature < 0.0 && !cancelled ==>
        body.health == AfterDamage(old(body.health), Dmg) &&
        diedFromFrost == (old(diedFromFrost) || old(body.health) - Dmg <= 0.0)
    {
      shown := false;
      if temperature < 0.0 {
        if coldMessageInterval == 0 {
          shown := true;
        }
        coldMessageInterval := coldMessageInterval + 1;
        if coldMessageInterval >= ColdMessagePeriod {
          coldMessageInterval := 0;
        }
        if !cancelled {
          if body.health - Dmg <= 0.0 {
            body.health := 0.0;
            diedFromFrost := true;
          } else {
            body.health := body.health - Dmg;
          }
        }
      }
    }

    /**
     * `checkTemperature`: creative and spectator players are left alone;
     * otherwise a sheltered player is at 0 with the message counter reset,
     * a player in the open at -1, and the effects tick follows.
     */
    method CheckTemperature(location: Point, world: Coord -> Material, gameMode: GameMode,
                            body: Body, cancelled: bool)
      requires Valid()
      modifies this, body
      ensures Valid()
      ensures gameMode in {Creative, Spectator} ==>
        temperature == old(temperature) && coldMessageInterval == old(coldMessageInterval) &&
        diedFromFrost == old(diedFromFrost) && body.health == old(body.health)
      ensures gameMode !in {Creative, Spectator} ==>
        && (temperature == if Escapes(world, CoordOf(location), MaxEncloseRange) then -1.0 else 0.0)
        && (!Escapes(world, CoordOf(location), MaxEncloseRange) ==>
              coldMessageInterval == 0 && diedFromFrost == old(diedFromFrost) && body.health == old(body.health))
        && (Escapes(world, CoordOf(location), MaxEncloseRange) ==>
              coldMessageInterval == NextInterval(old(coldMessageInterval)) &&
              Damaged(cancelled, Dmg, old(body.health), old(diedFromFrost), body.health, diedFromFrost))
    {
      if gameMode == Creative || gameMode == Spectator {
        return;
      }
      var enclosed, _, _ := IsEnclosed(location, world, MaxEncloseRange);
      if enclosed {
        coldMessageInterval := 0;
        temperature := 0.0;
      } else {
        temperature := -1.0;
      }
      var _ := ApplyTemperatureEffects(body, cancelled);
    }
  }
}
