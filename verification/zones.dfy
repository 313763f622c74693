/**
 * The two kinds of zone in zones/: spheres around a centre that report a
 * temperature. A climate zone caches its rule applied to the global
 * temperature; a heat zone caches the global temperature itself and applies
 * its rule, which also takes the distance from the centre, on every query.
 * The interface both implement (zones/IZone.kt) becomes the three members
 * `Contains`, `TemperatureAt` and `UpdateTemperature` of one class.
 */
module Zones {
  import opened Geometry

  /** How a zone turns the global temperature into its own. */
  datatype Rule =
    | Climate(tempFunction: real -> real)
    | Heat(heatFunction: (real, real) -> real)

  /** The sphere test both zone kinds use: squared distance to the centre at most the squared radius. */
  predicate InSphere(center: Point, radius: real, p: Point)
  {
    SquaredDistance(center, p) <= radius * radius
  }

  /** The centre lies in its own sphere, whatever the radius. */
  lemma CenterInSphere(center: Point, radius: real)
    ensures InSphere(center, radius, center)
  {
    SquareNonNegative(radius);
  }

  /** A larger sphere around the same centre contains every point of a smaller one. */
  lemma SphereGrows(center: Point, r1: real, r2: real, p: Point)
    requires 0.0 <= r1 <= r2
    requires InSphere(center, r1, p)
    ensures InSphere(center, r2, p)
  {
    assert r1 * r1 <= r1 * r2 <= r2 * r2;
  }

  /** Whether `p` is in the sphere does not depend on which end the distance is measured from. */
  lemma SphereSymmetric(center: Point, radius: real, p: Point)
    ensures InSphere(center, radius, p) <==> SquaredDistance(p, center) <= radius * radius
  {
    var dx, dy, dz := p.x - center.x, p.y - center.y, p.z - center.z;
    assert (-dx) * (-dx) == dx * dx;
    assert (-dy) * (-dy) == dy * dy;
    assert (-dz) * (-dz) == dz * dz;
  }

  /** The value a zone's cache should hold when the global temperature is `global`. */
  function CacheFor(rule: Rule, global: real): real
  {
    match rule
    case Climate(f) => f(global)
    case Heat(_) => global
  }

  /** The temperature a zone reports at `p` under global temperature `global`, for a zone whose cache is up to date. */
  function RuleTemperature(rule: Rule, center: Point, global: real, p: Point, distance: (Point, Point) -> real): real
  {
    match rule
    case Climate(f) => f(global)
    case Heat(f) => f(global, distance(center, p))
  }

  /**
   * A ClimateZone (zones/ClimateZone.kt) or a HeatZone (zones/HeatZone.kt).
   * Everything but the cache is fixed at construction.
   */
  class Zone {
    const world: World
    const center: Point
    const radius: real
    const rule: Rule
    /** ClimateZone's `temperature`, or HeatZone's `globalTemperature`. */
    var cache: real

    constructor ClimateZone(world: World, center: Point, radius: real, tempFunction: real -> real)
      ensures this.world == world && this.center == center && this.radius == radius
      ensures rule == Climate(tempFunction) && cache == 0.0
    {
      this.world := world;
      this.center := center;
      this.radius := radius;
      this.rule := Climate(tempFunction);
      this.cache := 0.0;
    }

    constructor HeatZone(world: World, center: Point, radius: real, heatFunction: (real, real) -> real)
      ensures this.world == world && this.center == center && this.radius == radius
      ensures rule == Heat(heatFunction) && cache == 0.0
    {
      this.world := world;
      this.center := center;
      this.radius := radius;
      this.rule := Heat(heatFunction);
      this.cache := 0.0;
    }

    /** `contains`: the sphere test on the zone's centre and radius. */
    predicate Contains(p: Point)
      ensures Contains(p) <==> SquaredDistance(center, p) <= radius * radius
      ensures p == center ==> Contains(p)
    {
      CenterInSphere(center, radius);
      InSphere(center, radius, p)
    }

    /** The cache is what an update with `global` leaves in it. */
    ghost predicate Consistent(global: real)
      reads this
    {
      cache == CacheFor(rule, global)
    }

    /**
     * `getTemperatureAt`: the cached temperature for a climate zone; the
     * rule applied to the stored global and the distance from the centre
     * for a heat zone. The distance (a square root) is a parameter.
     */
    function TemperatureAt(p: Point, distance: (Point, Point) -> real): (t: real)
      reads this
      ensures rule.Climate? ==> t == cache
      ensures rule.Heat? ==> t == rule.heatFunction(cache, distance(center, p))
    {
      match rule
      case Climate(_) => cache
      case Heat(f) => f(cache, distance(center, p))
    }

    /** `updateTemperature`: only the cache changes. */
    method UpdateTemperature(global: real)
      modifies this
      ensures Consistent(global)
    {
      match rule
      case Climate(f) => cache := f(global);
      case Heat(_) => cache := global;
    }
  }

  /** A zone whose cache is up to date reports its rule applied to the current global temperature. */
  lemma ConsistentTemperature(z: Zone, global: real, p: Point, distance: (Point, Point) -> real)
    requires z.Consistent(global)
    ensures z.TemperatureAt(p, distance) == RuleTemperature(z.rule, z.center, global, p, distance)
  {
  }

  /** A climate zone reports the same temperature at every point. */
  lemma ClimateIgnoresPoint(z: Zone, p: Point, q: Point, distance: (Point, Point) -> real)
    requires z.rule.Climate?
    ensures z.TemperatureAt(p, distance) == z.TemperatureAt(q, distance)
  {
  }
}
