# Projectile interception for Frontier Developments Shields

This project is a Dafny model of the shield mod's projectile handler,
`Source/Shields/Handlers/ProjectileHandler.cs`. Once per tick, before RimWorld's
`Projectile.Tick` runs, the handler does the following:

- It works out where an in-flight projectile is on the ground plane.
- It asks the shield manager whether a shield stops the projectile there.
- If the manager reports a block, it suppresses the original `Tick`.
- It lets `Tick` run when the manager reports no block or throws
  `InvalidOperationException`.
- Any other exception from the manager passes out of the prefix, and `Tick`
  does not run.

The handler hands the manager a hit callback. When invoked, the callback
damages the shield. If the shield takes the hit, it destroys the projectile.
Only the callback for non-overhead (ray) projectiles detonates an explosive
first; the overhead callback destroys an explosive shell without detonating
it. When and how often the manager invokes the callback, and whether a
reported block means a callback consumed the hit, belong to the manager. The
model assumes nothing about them.

The model has three modules:

- `Geometry` (`geometry.dfy`). Unity's vectors become exact `real` vectors. It
  holds the clamped `Vector2.Lerp`, the flight-progress fraction
  `1 - ticksToImpact / startingTicksToImpact`, and C#'s truncating `(int)`
  cast.
- `Effects` (`effects.dfy`). It defines the trace of external calls the
  callbacks make: `Damage` on a shield, the `Position` setter, `Detonate` and
  `Destroy`. It also holds an `EffectLog` class that records them in order and
  a `Count` of events by kind.
- `ProjectileHandler` (`projectile_handler.dfy`) holds four things:
  - the static constructor's all-or-nothing `Enabled` flag (`ResolveEnabled`);
  - the query choice (`QueryFor`);
  - the prefix as a function (`Prefix`);
  - the two hit callbacks as methods that append to an `EffectLog`
    (`OverheadImpact`, `RayImpact`). Each method is proved against a function
    giving its exact trace (`OverheadHitEffects`, `RayHitEffects`).

Several external parts become parameters:

- The shield manager is an oracle `manager: Query -> Reply`. For the query it
  is given, it returns whether a shield blocked the projectile, throws
  `InvalidOperationException`, or throws some other exception.
- `shield.Damage` is an oracle boolean `damaged`.
- The five reflective lookups are booleans (`Lookups`).
- The values read from the projectile are fields of the `Projectile`
  datatype.

The second argument of `new Ray2D(position, next)` is the projectile's next
lerp point, which the code passes where `Ray2D` takes a direction. The model
records the ray as that pair, `Ray(origin, directionArg)`. It makes no claim
about where the ray points.

## Model

| member | source | states |
|---|---|---|
| Geometry.Clamp01 | Source/Shields/Handlers/ProjectileHandler.cs:69 | The fraction Vector2.Lerp uses lies in [0, 1]. It is the given fraction when that is already in range, 0 below the range and 1 above it. |
| Geometry.Lerp | Source/Shields/Handlers/ProjectileHandler.cs:69 | The interpolated point is the start for a fraction <= 0 and the end for a fraction >= 1. It lies on the segment between the end points: on the line through them (zero cross product) and, coordinate by coordinate, between them. It is the clamped fraction of the way along: the projection of a->r onto a->b is that fraction times a->b. |
| Geometry.MixProgress | Source/Shields/Handlers/ProjectileHandler.cs:69 | Interpolating at fraction c, the projection of a->r onto a->b is c times a->b. |
| Geometry.MixCollinear | Source/Shields/Handlers/ProjectileHandler.cs:69 | Interpolating both coordinates at one fraction stays on the line through the end points. |
| Geometry.MixBetween | Source/Shields/Handlers/ProjectileHandler.cs:69 | One interpolated coordinate at a fraction in [0, 1] lies between the two end coordinates, in either direction. |
| Geometry.Fraction | Source/Shields/Handlers/ProjectileHandler.cs:69 | Progress is 0 when ticksToImpact equals startingTicksToImpact and 1 when ticksToImpact is 0. It lies in [0, 1] while 0 <= ticksToImpact <= startingTicksToImpact. It is above 1 for negative ticksToImpact and below 0 above the start. |
| Geometry.FractionMonotone | Source/Shields/Handlers/ProjectileHandler.cs:69 | Fewer remaining ticks never means less progress. |
| Geometry.Truncate | Source/Shields/Handlers/ProjectileHandler.cs:96 | The `(int)` cast truncates toward zero. The result has the sign of the input and lies within 1 of it, on the side nearer zero. |
| ProjectileHandler.ResolveEnabled | Source/Shields/Handlers/ProjectileHandler.cs:13-49 | Enabled holds exactly when all five lookups resolved. Any one missing lookup disables the handler. |
| ProjectileHandler.Position | Source/Shields/Handlers/ProjectileHandler.cs:64-69 | The current ground position is the origin's (x, z) when just fired and the destination's (x, z) once ticksToImpact <= 0. It lies on the segment from the origin's (x, z) to the destination's (x, z), at the clamped flight progress of the way along it. |
| ProjectileHandler.NextPoint | Source/Shields/Handlers/ProjectileHandler.cs:86 | The ray's second point lies on the same segment, at the clamped progress `1 - (ticksToImpact - 1)/startingTicksToImpact` of the way along. On the last tick (ticksToImpact <= 1) the clamp makes it the destination's (x, z). At the formula's other end, ticksToImpact = startingTicksToImpact + 1 (a value the prefix never sees, since ticksToImpact starts at startingTicksToImpact and counts down), it is the origin's (x, z). |
| ProjectileHandler.QueryFor | Source/Shields/Handlers/ProjectileHandler.cs:73-89 | The query is a point query exactly when the projectile flies overhead, on the projectile's map. A point query carries the current position, origin and destination. A ray query carries the ray (position, next point), the 3D origin as hint and budget 1. |
| ProjectileHandler.Answer | Source/Shields/Handlers/ProjectileHandler.cs:76-107 | The prefix returns a value unless the manager threw something other than InvalidOperationException. When the manager returns, the prefix returns the negation of its answer, so it returns false exactly when the manager returned true. On InvalidOperationException it therefore returns true. |
| ProjectileHandler.Prefix | Source/Shields/Handlers/ProjectileHandler.cs:55-108 | The prefix issues exactly one query when enabled and none when disabled. When disabled it allows the original Tick. When enabled, the query is that of QueryFor and the exit is Answer of the manager's reply to it. |
| ProjectileHandler.MidFlight | Source/Shields/Handlers/ProjectileHandler.cs:67-69 | When startingTicksToImpact is twice ticksToImpact, the position is the midpoint of the origin's and destination's (x, z). |
| ProjectileHandler.MidFlightExample | Source/Shields/Handlers/ProjectileHandler.cs:67-69 | Half-way through a 10-tick flight from (0, 0) to (10, 0), the position is (5, 0). |
| ProjectileHandler.NextPointIsNextPosition | Source/Shields/Handlers/ProjectileHandler.cs:86 | The ray's second point is the lerp at fraction `1 - (ticksToImpact - 1)/startingTicksToImpact`, which is the position one tick later. |
| ProjectileHandler.PrefixWhenDisabled | Source/Shields/Handlers/ProjectileHandler.cs:57 | When disabled, the prefix allows the original Tick and issues no query. |
| ProjectileHandler.PrefixOverhead | Source/Shields/Handlers/ProjectileHandler.cs:73-84 | An overhead projectile gets exactly one query, a point query with position, origin and destination. The prefix returns the negation of its result. |
| ProjectileHandler.PrefixRay | Source/Shields/Handlers/ProjectileHandler.cs:86-89 | Any other projectile gets exactly one query, a ray query. The ray is (position, next point), the hint is the 3D origin and the budget is 1. The prefix returns the negation of its result. |
| ProjectileHandler.PrefixFailOpen | Source/Shields/Handlers/ProjectileHandler.cs:71-107 | If the query throws InvalidOperationException, the prefix allows the original Tick, whatever kind of query it issued. |
| ProjectileHandler.PrefixSuppressesIffBlocked | Source/Shields/Handlers/ProjectileHandler.cs:57-107 | The original Tick is suppressed exactly when the handler is enabled and the manager reports a block. |
| ProjectileHandler.OverheadHitEffects | Source/Shields/Handlers/ProjectileHandler.cs:78-83 | The overhead callback's calls start with Damage at the position given. They end with Destroy exactly when the hit was consumed. They never reposition or detonate. |
| ProjectileHandler.ImpactCell | Source/Shields/Handlers/ProjectileHandler.cs:96 | The explosive's new cell takes point.x, the definition's altitude and point.y, each truncated toward zero. |
| ProjectileHandler.RayHitEffects | Source/Shields/Handlers/ProjectileHandler.cs:91-103 | The ray callback's calls start with Damage at the reported point. They end with Destroy exactly when the hit was consumed. They contain the reposition to ImpactCell and Detonate on the projectile's map exactly when the hit was consumed and the projectile is explosive. |
| ProjectileHandler.OverheadImpact | Source/Shields/Handlers/ProjectileHandler.cs:76-84 | The overhead callback returns exactly what Damage returned. Its trace is Damage at the computed position, then Destroy only on a consumed hit. The point the manager passes is ignored. |
| ProjectileHandler.RayImpact | Source/Shields/Handlers/ProjectileHandler.cs:89-104 | The ray callback returns exactly what Damage returned. Its trace is Damage at the reported point. On a consumed hit it adds the reposition and Detonate when explosive, then Destroy. |
| ProjectileHandler.OverheadDamageAtQueriedPosition | Source/Shields/Handlers/ProjectileHandler.cs:76-78 | The overhead callback damages the shield at the same position the point query carried. |
| ProjectileHandler.OverheadHitCounts | Source/Shields/Handlers/ProjectileHandler.cs:78-83 | After the overhead callback, the log has one more Damage. It has one more Destroy exactly when the hit was consumed. It has no new reposition or Detonate. |
| ProjectileHandler.RayHitCounts | Source/Shields/Handlers/ProjectileHandler.cs:91-103 | After the ray callback, the log has one more Damage. It has one more Destroy exactly when the hit was consumed. It has one more reposition and one more Detonate exactly when the hit was consumed and the projectile is explosive. |
| ProjectileHandler.DeclinedHitOnlyDamages | Source/Shields/Handlers/ProjectileHandler.cs:78-103 | When Damage returns false, either callback makes the Damage call and nothing else. |
| ProjectileHandler.ExplosiveHitSequence | Source/Shields/Handlers/ProjectileHandler.cs:93-101 | A consumed ray hit on an explosive makes these calls, in order: Damage; Position set to the cell of the truncated point.x, altitude and point.y; Detonate on the projectile's map; Destroy. |
| ProjectileHandler.PlainHitSequence | Source/Shields/Handlers/ProjectileHandler.cs:91-101 | A consumed ray hit without an explosive makes Damage, then Destroy. |

## Left out

- Harmony patching is left out. `Prefix` is a plain function, and `Return(b)` means "run the original Tick iff b".
- Reflection (`GetField`, `GetValue`, `Invoke`) is left out. The lookups are booleans and the values read are fields of `Projectile`.
- `Log.Error` and `Log.Message` are left out: they are diagnostics only.
- Unity's single-precision float arithmetic is left out. Positions, fractions and the altitude are exact reals.
- `Ray2D`'s normalisation of its direction argument is left out.
- C#'s undefined result of `(int)` on an out-of-range float is left out.
- The 32-bit overflow of `ticksToImpact - 1` is left out.
- ProjectileHandler.Prefix requires `startingTicksToImpact > 0` when enabled. The code has no guard against division by zero, and RimWorld never starts a flight with fewer than one tick. Where the start is 0, the float division yields an infinity or NaN, which the model does not follow.
- The shield manager's `ImpactShield` is not part of this model. Its spatial lookup, candidate order, first-hit-wins rule and how often it invokes the callback are left out. It is the oracle `manager`, and the callbacks are modelled per invocation.
- The internals of `shield.Damage` (charge, power) are left out. It is the oracle boolean `damaged`, recorded as a `DamageShield` event.
- What `Destroy`, `Detonate` and the `Position` setter do in the game is left out. They are only recorded as events.
- Exceptions thrown by the reflective reads before the `try`, and exceptions thrown inside a callback, are left out. Only the manager's reply can throw in the model.
