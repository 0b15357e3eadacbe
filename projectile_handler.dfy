/** The per-tick projectile interception of ProjectileHandler: the
    all-or-nothing enable flag, the Harmony prefix on Projectile.Tick that
    asks the shield manager whether a shield blocks the projectile, and the
    two hit callbacks that damage the shield and destroy (or detonate) the
    projectile. */
module ProjectileHandler {
  import opened Geometry
  import opened Effects

  /** Which of the five reflective lookups resolved at start-up. */
  datatype Lookups = Lookups(
    origin: bool,                // field Projectile.origin
    destination: bool,           // field Projectile.destination
    ticksToImpact: bool,         // field Projectile.ticksToImpact
    startingTicksToImpact: bool, // property Projectile.StartingTicksToImpact
    detonate: bool)              // method CompExplosive.Detonate

  /** The static constructor: the flag starts true and each missing lookup
      clears it, so the feature runs only when every lookup resolved. */
  method ResolveEnabled(found: Lookups) returns (enabled: bool)
    ensures enabled <==> found.origin && found.destination && found.ticksToImpact
                         && found.startingTicksToImpact && found.detonate
  {
    enabled := true;
    if !found.origin {
      enabled := false;
    }
    if !found.destination {
      enabled := false;
    }
    if !found.ticksToImpact {
      enabled := false;
    }
    if !found.startingTicksToImpact {
      enabled := false;
    }
    if !found.detonate {
      enabled := false;
    }
  }

  /** What the prefix reads from the live projectile and its definition. */
  datatype Projectile = Projectile(
    mapId: MapId,
    origin: Vec3,
    destination: Vec3,
    ticksToImpact: int,
    startingTicksToImpact: int,
    flyOverhead: bool,          // def.projectile.flyOverhead
    damageAmountBase: int,      // def.projectile.damageAmountBase
    altitude: real,             // def.Altitude
    hasExplosive: bool)         // TryGetComp<CompExplosive>() != null

  /** The ray handed to the shield manager, as constructed: its second
      component is the projectile's next point, passed where Ray2D takes a
      direction. */
  datatype Ray = Ray(origin: Vec2, directionArg: Vec2)

  /** The single question put to the shield manager in one tick. */
  datatype Query =
    | PointQuery(mapId: MapId, position: Vec2, origin: Vec2, destination: Vec2)
    | RayQuery(mapId: MapId, originHint: Vec3, ray: Ray, budget: int)

  /** How the shield manager's ImpactShield call ends: it returns whether a
      shield blocked the projectile, or it throws. */
  datatype Reply = Returned(blocked: bool) | ThrewInvalidOperation | ThrewOther

  /** How the prefix ends: it returns whether Harmony runs the original
      Tick, or an exception it does not catch leaves it. */
  datatype Exit = Return(allowOriginal: bool) | Propagate

  /** The queries the prefix issued, in order, and how it ended. */
  datatype Decision = Decision(queries: seq<Query>, exit: Exit)

  /** The travel budget given to every ray query. */
  const RayBudget: int := 1

  /** The projectile's current ground position: the lerp of the (x, z)
      projections of origin and destination at its flight progress. */
  function Position(p: Projectile): (r: Vec2)
    requires p.startingTicksToImpact > 0
    ensures p.ticksToImpact == p.startingTicksToImpact ==> r == Flatten(p.origin)
    ensures p.ticksToImpact <= 0 ==> r == Flatten(p.destination)
    ensures Between(p.origin.x, p.destination.x, r.x)
    ensures Between(p.origin.z, p.destination.z, r.y)
    ensures OnLine(Flatten(p.origin), Flatten(p.destination), r)
    ensures var o, d := Flatten(p.origin), Flatten(p.destination);
            Dot(Sub(r, o), Sub(d, o))
            == Clamp01(Fraction(p.ticksToImpact, p.startingTicksToImpact)) * Dot(Sub(d, o), Sub(d, o))
  {
    Lerp(Flatten(p.origin), Flatten(p.destination), Fraction(p.ticksToImpact, p.startingTicksToImpact))
  }

  /** The lerp point at the progress of one tick later: the ray's second component. */
  function NextPoint(p: Projectile): (r: Vec2)
    requires p.startingTicksToImpact > 0
    ensures p.ticksToImpact <= 1 ==> r == Flatten(p.destination)
    // the formula's start point; the prefix never sees ticksToImpact above the start
    ensures p.ticksToImpact == p.startingTicksToImpact + 1 ==> r == Flatten(p.origin)
    ensures Between(p.origin.x, p.destination.x, r.x)
    ensures Between(p.origin.z, p.destination.z, r.y)
    ensures OnLine(Flatten(p.origin), Flatten(p.destination), r)
    ensures var o, d := Flatten(p.origin), Flatten(p.destination);
            Dot(Sub(r, o), Sub(d, o))
            == Clamp01(Fraction(p.ticksToImpact - 1, p.startingTicksToImpact)) * Dot(Sub(d, o), Sub(d, o))
  {
    Lerp(Flatten(p.origin), Flatten(p.destination), Fraction(p.ticksToImpact - 1, p.startingTicksToImpact))
  }

  /** The query the prefix issues for an enabled handler: a point query
      for overhead projectiles, answered through OverheadImpact, and a ray
      query with budget 1 for all others, answered through RayImpact. */
  function QueryFor(p: Projectile): (q: Query)
    requires p.startingTicksToImpact > 0
    ensures q.PointQuery? <==> p.flyOverhead
    ensures q.mapId == p.mapId
    ensures q.PointQuery? ==> q.position == Position(p)
                              && q.origin == Flatten(p.origin) && q.destination == Flatten(p.destination)
    ensures q.RayQuery? ==> q.ray == Ray(Position(p), NextPoint(p))
                            && q.originHint == p.origin && q.budget == RayBudget
  {
    if p.flyOverhead then
      PointQuery(p.mapId, Position(p), Flatten(p.origin), Flatten(p.destination))
    else
      RayQuery(p.mapId, p.origin, Ray(Position(p), NextPoint(p)), RayBudget)
  }

  /** The prefix's answer to the manager's reply: the negated block result,
      true (fail open) on InvalidOperationException, and any other
      exception passes through. */
  function Answer(reply: Reply): (e: Exit)
    ensures e.Return? <==> !reply.ThrewOther?
    ensures e == Return(false) <==> reply == Returned(true)
    ensures forall b :: reply == Returned(b) ==> e == Return(!b)
  {
    match reply
    case Returned(blocked) => Return(!blocked)
    case ThrewInvalidOperation => Return(true)
    case ThrewOther => Propagate
  }

  /** Patch_Projectile_Tick.Prefix. The shield manager is the oracle
      `manager`; the prefix reads the projectile only when enabled. */
  function Prefix(enabled: bool, p: Projectile, manager: Query -> Reply): (d: Decision)
    requires enabled ==> p.startingTicksToImpact > 0
    ensures |d.queries| == (if enabled then 1 else 0)
    ensures !enabled ==> d.exit == Return(true)
    ensures enabled ==> d.queries[0] == QueryFor(p) && d.exit == Answer(manager(QueryFor(p)))
  {
    if !enabled then
      Decision([], Return(true))
    else
      var q := QueryFor(p);
      Decision([q], Answer(manager(q)))
  }

  // ---------------------------------------------------------------------
  // Flight geometry

  /** Half-way through the flight the projectile is at the midpoint of
      origin and destination. */
  lemma {:induction false} MidFlight(p: Projectile)
    requires p.startingTicksToImpact > 0 && p.startingTicksToImpact == 2 * p.ticksToImpact
    ensures Position(p) == Vec2((p.origin.x + p.destination.x) / 2.0, (p.origin.z + p.destination.z) / 2.0)
  {
    var f := Fraction(p.ticksToImpact, p.startingTicksToImpact);
    assert f == 0.5 by {
      var k := p.ticksToImpact as real;
      assert k > 0.0;
      assert p.startingTicksToImpact as real == 2.0 * k;
      HalfQuotient(k);
    }
    assert Position(p) == Vec2(Mix(p.origin.x, p.destination.x, 0.5), Mix(p.origin.z, p.destination.z, 0.5));
  }

  /** A quantity divided by twice itself is one half. */
  lemma HalfQuotient(k: real)
    requires k > 0.0
    ensures k / (2.0 * k) == 0.5
  {
    var q := k / (2.0 * k);
    assert (q - 0.5) * (2.0 * k) == 0.0;
    ProductSign(q - 0.5, 2.0 * k);
  }

  /** A worked example: half-way from (0, 0) to (10, 0) is (5, 0). */
  lemma MidFlightExample(m: MapId)
    ensures Position(Projectile(m, Vec3(0.0, 0.0, 0.0), Vec3(10.0, 0.0, 0.0), 5, 10, false, 0, 0.0, false))
            == Vec2(5.0, 0.0)
  {
    MidFlight(Projectile(m, Vec3(0.0, 0.0, 0.0), Vec3(10.0, 0.0, 0.0), 5, 10, false, 0, 0.0, false));
  }

  /** The ray's second point is where the projectile will be one tick later. */
  lemma NextPointIsNextPosition(p: Projectile)
    requires p.startingTicksToImpact > 0
    ensures NextPoint(p) == Position(p.(ticksToImpact := p.ticksToImpact - 1))
  {
  }

  // ---------------------------------------------------------------------
  // The prefix

  /** Disabled: run the original Tick, ask nothing. */
  lemma PrefixWhenDisabled(p: Projectile, manager: Query -> Reply)
    ensures Prefix(false, p, manager) == Decision([], Return(true))
  {
  }

  /** Overhead: exactly one point query with the current position, origin
      and destination, and the answer is its negated result. */
  lemma PrefixOverhead(p: Projectile, manager: Query -> Reply)
    requires p.startingTicksToImpact > 0 && p.flyOverhead
    ensures var q := PointQuery(p.mapId, Position(p), Flatten(p.origin), Flatten(p.destination));
            Prefix(true, p, manager) == Decision([q], Answer(manager(q)))
    ensures forall b :: manager(QueryFor(p)) == Returned(b) ==> Prefix(true, p, manager).exit == Return(!b)
  {
  }

  /** Not overhead: exactly one ray query from the current position to the
      next point, with the 3D origin as hint and budget 1. */
  lemma PrefixRay(p: Projectile, manager: Query -> Reply)
    requires p.startingTicksToImpact > 0 && !p.flyOverhead
    ensures var q := RayQuery(p.mapId, p.origin, Ray(Position(p), NextPoint(p)), RayBudget);
            Prefix(true, p, manager) == Decision([q], Answer(manager(q)))
    ensures forall b :: manager(QueryFor(p)) == Returned(b) ==> Prefix(true, p, manager).exit == Return(!b)
  {
  }

  /** Fail open: an InvalidOperationException from either query lets the
      original Tick run. */
  lemma PrefixFailOpen(p: Projectile, manager: Query -> Reply)
    requires p.startingTicksToImpact > 0
    ensures manager(QueryFor(p)) == ThrewInvalidOperation ==> Prefix(true, p, manager).exit == Return(true)
  {
  }

  /** The original Tick is suppressed exactly when the handler is enabled
      and the manager reports a block. */
  lemma PrefixSuppressesIffBlocked(enabled: bool, p: Projectile, manager: Query -> Reply)
    requires enabled ==> p.startingTicksToImpact > 0
    ensures Prefix(enabled, p, manager).exit == Return(false)
            <==> enabled && manager(QueryFor(p)) == Returned(true)
  {
  }

  // ---------------------------------------------------------------------
  // Hit callbacks

  /** The calls the overhead callback makes: damage at the position the
      prefix computed, then Destroy if the shield took the hit. */
  function OverheadHitEffects(p: Projectile, position: Vec2, shield: ShieldId, damaged: bool): (r: seq<Event>)
    ensures |r| > 0 && r[0] == DamageShield(shield, p.damageAmountBase, position)
    ensures r[|r| - 1] == Destroy <==> damaged
    ensures forall i :: 0 <= i < |r| ==> !r[i].Detonate? && !r[i].SetPosition?
  {
    [DamageShield(shield, p.damageAmountBase, position)] + (if damaged then [Destroy] else [])
  }

  /** The cell an explosive projectile is moved to before it detonates:
      each coordinate truncated toward zero. */
  function ImpactCell(p: Projectile, point: Vec2): (c: IntVec3)
    ensures TruncatesTo(point.x, c.x) && TruncatesTo(p.altitude, c.y) && TruncatesTo(point.y, c.z)
  {
    IntVec3(Truncate(point.x), Truncate(p.altitude), Truncate(point.y))
  }

  /** The calls the ray callback makes: damage at the impact point, then
      if the shield took the hit, reposition and Detonate when explosive,
      and Destroy. */
  function RayHitEffects(p: Projectile, shield: ShieldId, point: Vec2, damaged: bool): (r: seq<Event>)
    ensures |r| > 0 && r[0] == DamageShield(shield, p.damageAmountBase, point)
    ensures r[|r| - 1] == Destroy <==> damaged
    ensures Detonate(p.mapId) in r <==> damaged && p.hasExplosive
    ensures SetPosition(ImpactCell(p, point)) in r <==> damaged && p.hasExplosive
  {
    [DamageShield(shield, p.damageAmountBase, point)]
      + (if !damaged then []
         else (if p.hasExplosive then [SetPosition(ImpactCell(p, point)), Detonate(p.mapId)] else [])
              + [Destroy])
  }

  /** The overhead callback. The point the manager passes is not used. */
  method OverheadImpact(log: EffectLog, p: Projectile, shield: ShieldId, point: Vec2, damaged: bool)
    returns (consumed: bool)
    requires p.startingTicksToImpact > 0
    modifies log
    ensures consumed == damaged
    ensures log.events == old(log.events) + OverheadHitEffects(p, Position(p), shield, damaged)
  {
    log.Record(DamageShield(shield, p.damageAmountBase, Position(p)));
    if damaged {
      log.Record(Destroy);
      return true;
    }
    return false;
  }

  /** The ray callback. */
  method RayImpact(log: EffectLog, p: Projectile, shield: ShieldId, point: Vec2, damaged: bool)
    returns (consumed: bool)
    modifies log
    ensures consumed == damaged
    ensures log.events == old(log.events) + RayHitEffects(p, shield, point, damaged)
  {
    log.Record(DamageShield(shield, p.damageAmountBase, point));
    if damaged {
      if p.hasExplosive {
        log.Record(SetPosition(ImpactCell(p, point)));
        log.Record(Detonate(p.mapId));
      }
      log.Record(Destroy);
      return true;
    }
    return false;
  }

  /** After the overhead callback the log holds one more damage call, one
      more Destroy exactly when the shield took the hit, and never a
      reposition or a detonation. */
  lemma {:induction false} OverheadHitCounts(before: seq<Event>, p: Projectile, position: Vec2, shield: ShieldId, damaged: bool)
    ensures var after := before + OverheadHitEffects(p, position, shield, damaged);
            && Count(after, DamageKind) == Count(before, DamageKind) + 1
            && Count(after, DestroyKind) == Count(before, DestroyKind) + (if damaged then 1 else 0)
            && Count(after, DetonateKind) == Count(before, DetonateKind)
            && Count(after, SetPositionKind) == Count(before, SetPositionKind)
  {
    var effects := OverheadHitEffects(p, position, shield, damaged);
    OverheadEffectsCount(p, position, shield, damaged, DamageKind);
    OverheadEffectsCount(p, position, shield, damaged, DestroyKind);
    OverheadEffectsCount(p, position, shield, damaged, DetonateKind);
    OverheadEffectsCount(p, position, shield, damaged, SetPositionKind);
    CountAppend(before, effects, DamageKind);
    CountAppend(before, effects, DestroyKind);
    CountAppend(before, effects, DetonateKind);
    CountAppend(before, effects, SetPositionKind);
  }

  /** After the ray callback the log holds one more damage call; Destroy
      once more exactly when the shield took the hit; one reposition and
      one detonation more exactly when it took the hit and is explosive. */
  lemma {:induction false} RayHitCounts(before: seq<Event>, p: Projectile, shield: ShieldId, point: Vec2, damaged: bool)
    ensures var after := before + RayHitEffects(p, shield, point, damaged);
            var detonated := if damaged && p.hasExplosive then 1 else 0;
            && Count(after, DamageKind) == Count(before, DamageKind) + 1
            && Count(after, DestroyKind) == Count(before, DestroyKind) + (if damaged then 1 else 0)
            && Count(after, DetonateKind) == Count(before, DetonateKind) + detonated
            && Count(after, SetPositionKind) == Count(before, SetPositionKind) + detonated
  {
    var effects := RayHitEffects(p, shield, point, damaged);
    RayEffectsCount(p, shield, point, damaged, DamageKind);
    RayEffectsCount(p, shield, point, damaged, DestroyKind);
    RayEffectsCount(p, shield, point, damaged, DetonateKind);
    RayEffectsCount(p, shield, point, damaged, SetPositionKind);
    CountAppend(before, effects, DamageKind);
    CountAppend(before, effects, DestroyKind);
    CountAppend(before, effects, DetonateKind);
    CountAppend(before, effects, SetPositionKind);
  }

  /** How many calls of each kind the overhead callback makes. */
  lemma OverheadEffectsCount(p: Projectile, position: Vec2, shield: ShieldId, damaged: bool, k: Kind)
    ensures Count(OverheadHitEffects(p, position, shield, damaged), k)
            == (if k == DamageKind then 1 else 0) + (if damaged && k == DestroyKind then 1 else 0)
  {
    var tail: seq<Event> := if damaged then [Destroy] else [];
    CountCons(DamageShield(shield, p.damageAmountBase, position), tail, k);
    CountCons(Destroy, [], k);
    assert [Destroy] + [] == [Destroy];
  }

  /** How many calls of each kind the ray callback makes. */
  lemma RayEffectsCount(p: Projectile, shield: ShieldId, point: Vec2, damaged: bool, k: Kind)
    ensures Count(RayHitEffects(p, shield, point, damaged), k)
            == (if k == DamageKind then 1 else 0) + (if damaged && k == DestroyKind then 1 else 0)
               + (if damaged && p.hasExplosive && (k == DetonateKind || k == SetPositionKind) then 1 else 0)
  {
    var detonation: seq<Event> := if p.hasExplosive then [SetPosition(ImpactCell(p, point)), Detonate(p.mapId)] else [];
    var tail: seq<Event> := if !damaged then [] else detonation + [Destroy];
    CountCons(DamageShield(shield, p.damageAmountBase, point), tail, k);
    CountAppend(detonation, [Destroy], k);
    CountCons(Destroy, [], k);
    assert [Destroy] + [] == [Destroy];
    CountCons(Detonate(p.mapId), [], k);
    assert [Detonate(p.mapId)] + [] == [Detonate(p.mapId)];
    CountCons(SetPosition(ImpactCell(p, point)), [Detonate(p.mapId)], k);
    assert [SetPosition(ImpactCell(p, point))] + [Detonate(p.mapId)] == [SetPosition(ImpactCell(p, point)), Detonate(p.mapId)];
  }

  /** The overhead callback damages the shield at the very position the
      point query asked about, whatever point the manager reports. */
  lemma OverheadDamageAtQueriedPosition(p: Projectile, shield: ShieldId, damaged: bool)
    requires p.startingTicksToImpact > 0 && p.flyOverhead
    ensures OverheadHitEffects(p, Position(p), shield, damaged)[0]
            == DamageShield(shield, p.damageAmountBase, QueryFor(p).position)
  {
  }

  /** A declined hit calls Damage and nothing else. */
  lemma DeclinedHitOnlyDamages(p: Projectile, shield: ShieldId, point: Vec2)
    requires p.startingTicksToImpact > 0
    ensures OverheadHitEffects(p, Position(p), shield, false) == [DamageShield(shield, p.damageAmountBase, Position(p))]
    ensures RayHitEffects(p, shield, point, false) == [DamageShield(shield, p.damageAmountBase, point)]
  {
  }

  /** A consumed ray hit on an explosive: damage, reposition to the
      truncated impact cell, Detonate on the projectile's map, Destroy. */
  lemma ExplosiveHitSequence(p: Projectile, shield: ShieldId, point: Vec2)
    requires p.hasExplosive
    ensures RayHitEffects(p, shield, point, true)
            == [DamageShield(shield, p.damageAmountBase, point),
                SetPosition(IntVec3(Truncate(point.x), Truncate(p.altitude), Truncate(point.y))),
                Detonate(p.mapId),
                Destroy]
  {
  }

  /** A consumed ray hit on a non-explosive: damage, then Destroy. */
  lemma PlainHitSequence(p: Projectile, shield: ShieldId, point: Vec2)
    requires !p.hasExplosive
    ensures RayHitEffects(p, shield, point, true) == [DamageShield(shield, p.damageAmountBase, point), Destroy]
  {
  }
}
