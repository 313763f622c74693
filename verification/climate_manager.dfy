/**
 * The zone registry of ClimateManager.kt: a global temperature and an
 * insertion-ordered set of zones, each kept up to date with the global
 * value, answering "how warm is it here" as the warmest of the global
 * temperature and every zone containing the point.
 */
module Climate {
  import opened Geometry
  import opened Zones

  /** Zones with world `w` and centre `c` are the ones `removeClimateZoneAt(w, c)` takes out. */
  predicate At(z: Zone, w: World, c: Point)
  {
    z.world == w && z.center == c
  }

  /** The zones of `zs` not at (`w`, `c`), in their original order. */
  function Without(zs: seq<Zone>, w: World, c: Point): (r: seq<Zone>)
    ensures forall z :: z in r ==> z in zs && !At(z, w, c)
    ensures forall z :: z in zs && !At(z, w, c) ==> z in r
  {
    if zs == [] then []
    else
      var last := zs[|zs| - 1];
      assert zs == zs[..|zs| - 1] + [last];
      Without(zs[..|zs| - 1], w, c) + (if At(last, w, c) then [] else [last])
  }

  predicate Distinct(zs: seq<Zone>)
  {
    forall i, j :: 0 <= i < j < |zs| ==> zs[i] != zs[j]
  }

  /** Filtering a set of zones leaves a set. */
  lemma {:induction false} WithoutDistinct(zs: seq<Zone>, w: World, c: Point)
    requires Distinct(zs)
    ensures Distinct(Without(zs, w, c))
  {
    if zs != [] {
      var init := zs[..|zs| - 1];
      WithoutDistinct(init, w, c);
      assert zs[|zs| - 1] !in init;
    }
  }

  /** Removing the zones at a position twice removes no more than once. */
  lemma {:induction false} WithoutIdempotent(zs: seq<Zone>, w: World, c: Point)
    ensures Without(Without(zs, w, c), w, c) == Without(zs, w, c)
  {
    if zs != [] {
      var init, last := zs[..|zs| - 1], zs[|zs| - 1];
      WithoutIdempotent(init, w, c);
      var kept := Without(init, w, c);
      if At(last, w, c) {
        assert Without(zs, w, c) == kept + [];
        assert kept + [] == kept;
      } else {
        assert Without(zs, w, c) == kept + [last];
        var r := kept + [last];
        assert r[..|r| - 1] == kept;
        assert Without(r, w, c) == Without(kept, w, c) + [last];
      }
    }
  }

  /** A zone appended at the removed position is removed with the others. */
  lemma WithoutAppendAt(zs: seq<Zone>, z: Zone, w: World, c: Point)
    requires At(z, w, c)
    ensures Without(zs + [z], w, c) == Without(zs, w, c)
  {
    assert (zs + [z])[..|zs|] == zs;
  }

  /**
   * Replacing the zones at a position by one fresh zone there, then
   * removing the zones at that position, leaves what removing alone leaves.
   */
  lemma WithoutReplaced(zs: seq<Zone>, zs': seq<Zone>, w: World, c: Point)
    requires |zs'| > 0 && At(zs'[|zs'| - 1], w, c)
    requires zs'[..|zs'| - 1] == Without(zs, w, c)
    ensures Without(zs', w, c) == Without(zs, w, c)
  {
    var init := zs'[..|zs'| - 1];
    assert zs' == init + [zs'[|zs'| - 1]];
    WithoutAppendAt(init, zs'[|zs'| - 1], w, c);
    WithoutIdempotent(zs, w, c);
  }

  /**
   * The warmest of `global` and the temperatures of the zones of `zs` that
   * contain `p`, scanning `zs` in order and replacing the running value
   * only by a strictly warmer one.
   */
  function Warmest(zs: seq<Zone>, global: real, p: Point, distance: (Point, Point) -> real): real
    reads zs
  {
    if zs == [] then global
    else
      var sofar := Warmest(zs[..|zs| - 1], global, p, distance);
      var z := zs[|zs| - 1];
      if z.Contains(p) && z.TemperatureAt(p, distance) > sofar then z.TemperatureAt(p, distance) else sofar
  }

  /**
   * `Warmest` is the maximum: at least the global value and every
   * containing zone's temperature, and equal to one of them.
   */
  lemma {:induction false} WarmestIsMaximum(zs: seq<Zone>, global: real, p: Point, distance: (Point, Point) -> real)
    ensures Warmest(zs, global, p, distance) >= global
    ensures forall z :: z in zs && z.Contains(p) ==> Warmest(zs, global, p, distance) >= z.TemperatureAt(p, distance)
    ensures Warmest(zs, global, p, distance) == global ||
      exists z :: z in zs && z.Contains(p) && Warmest(zs, global, p, distance) == z.TemperatureAt(p, distance)
  {
    if zs != [] {
      var init := zs[..|zs| - 1];
      WarmestIsMaximum(init, global, p, distance);
      assert zs == init + [zs[|zs| - 1]];
    }
  }

  /** Where no zone contains the point, the answer is the global temperature. */
  lemma {:induction false} WarmestOutsideZones(zs: seq<Zone>, global: real, p: Point, distance: (Point, Point) -> real)
    requires forall z :: z in zs ==> !z.Contains(p)
    ensures Warmest(zs, global, p, distance) == global
  {
    if zs != [] {
      WarmestOutsideZones(zs[..|zs| - 1], global, p, distance);
    }
  }

  class ClimateManager {
    var globalTemperature: real
    /** `climateZones`, a LinkedHashSet: no zone twice, iterated in insertion order. */
    var zones: seq<Zone>

    /** Every registered zone has seen the current global temperature, and none is registered twice. */
    ghost predicate Valid()
      reads this, zones
    {
      Distinct(zones) && forall z :: z in zones ==> z.Consistent(globalTemperature)
    }

    /** The temperature `getTemperature` reports at `p`. */
    function Temperature(p: Point, distance: (Point, Point) -> real): real
      reads this, zones
    {
      Warmest(zones, globalTemperature, p, distance)
    }

    constructor ()
      ensures Valid()
      ensures globalTemperature == 0.0 && zones == []
    {
      globalTemperature := 0.0;
      zones := [];
    }

    /**
     * `addClimateZone`: the zone is refreshed with the current global
     * temperature, then inserted unless it is already registered.
     */
    method AddClimateZone(z: Zone)
      requires Valid()
      modifies this, z
      ensures Valid()
      ensures globalTemperature == old(globalTemperature)
      ensures zones == if z in old(zones) then old(zones) else old(zones) + [z]
      ensures z.Consistent(globalTemperature)
    {
      z.UpdateTemperature(globalTemperature);
      if z !in zones {
        zones := zones + [z];
      }
    }

    /** `createClimateZone`: a new climate zone, registered at the end. */
    method CreateClimateZone(world: World, center: Point, radius: real, tempFunction: real -> real)
      returns (z: Zone)
      requires Valid()
      modifies this
      ensures Valid() && fresh(z)
      ensures globalTemperature == old(globalTemperature)
      ensures zones == old(zones) + [z]
      ensures z.world == world && z.center == center && z.radius == radius
      ensures z.rule == Climate(tempFunction) && z.cache == tempFunction(globalTemperature)
    {
      z := new Zone.ClimateZone(world, center, radius, tempFunction);
      AddClimateZone(z);
    }

    /** `removeClimateZoneAt`: drops exactly the zones in world `w` centred at `c`. */
    method RemoveClimateZoneAt(w: World, c: Point)
      requires Valid()
      modifies this
      ensures Valid()
      ensures globalTemperature == old(globalTemperature)
      ensures zones == Without(old(zones), w, c)
    {
      WithoutDistinct(zones, w, c);
      zones := Without(zones, w, c);
    }

    /** `updateGlobalTemperature`: sets the global value and refreshes every zone with it. */
    method UpdateGlobalTemperature(t: real)
      requires Valid()
      modifies this, zones
      ensures Valid()
      ensures globalTemperature == t && zones == old(zones)
    {
      globalTemperature := t;
      var i := 0;
      while i < |zones|
        invariant 0 <= i <= |zones|
        invariant zones == old(zones) && globalTemperature == t
        invariant forall j :: 0 <= j < i ==> zones[j].Consistent(t)
      {
        zones[i].UpdateTemperature(t);
        i := i + 1;
      }
    }

    /**
     * `getTemperature`: the warmest of the global temperature and every
     * zone containing `location`. The world the location is in is not
     * consulted: a zone of another world that contains the coordinates counts.
     */
    method GetTemperature(world: World, location: Point, distance: (Point, Point) -> real)
      returns (maxTemp: real)
      ensures maxTemp == Temperature(location, distance)
      ensures maxTemp >= globalTemperature
      ensures forall z :: z in zones && z.Contains(location) ==> maxTemp >= z.TemperatureAt(location, distance)
      ensures maxTemp == globalTemperature ||
        exists z :: z in zones && z.Contains(location) && maxTemp == z.TemperatureAt(location, distance)
    {
      maxTemp := globalTemperature;
      var i := 0;
      while i < |zones|
        invariant 0 <= i <= |zones|
        invariant maxTemp == Warmest(zones[..i], globalTemperature, location, distance)
      {
        assert zones[..i + 1][..i] == zones[..i];
        var zone := zones[i];
        if zone.Contains(location) {
          var tmp := zone.TemperatureAt(location, distance);
          if tmp > maxTemp {
            maxTemp := tmp;
          }
        }
        i := i + 1;
      }
      assert zones[..i] == zones;
      WarmestIsMaximum(zones, globalTemperature, location, distance);
    }
  }
}
