/** The externally visible calls the hit callbacks make, recorded in order:
    damage applied to a shield, the projectile's Position setter,
    CompExplosive.Detonate and Thing.Destroy. */
module Effects {
  import opened Geometry

  /** A map the projectile lives on (Thing.Map). */
  datatype MapId = MapId(id: nat)

  /** A shield instance owned by the shield manager. */
  datatype ShieldId = ShieldId(id: nat)

  /** One external call, in the order the callback makes it. */
  datatype Event =
    | DamageShield(shield: ShieldId, amount: int, at: Vec2)
    | SetPosition(cell: IntVec3)
    | Detonate(mapId: MapId)
    | Destroy

  /** The kind of an event, without its arguments. */
  datatype Kind = DamageKind | SetPositionKind | DetonateKind | DestroyKind

  function KindOf(e: Event): Kind
  {
    match e
    case DamageShield(_, _, _) => DamageKind
    case SetPosition(_) => SetPositionKind
    case Detonate(_) => DetonateKind
    case Destroy => DestroyKind
  }

  /** How many events of kind `k` a trace holds. */
  function Count(events: seq<Event>, k: Kind): nat
  {
    if events == [] then 0
    else (if KindOf(events[0]) == k then 1 else 0) + Count(events[1..], k)
  }

  /** Counting distributes over appending one trace to another. */
  lemma {:induction false} CountAppend(a: seq<Event>, b: seq<Event>, k: Kind)
    ensures Count(a + b, k) == Count(a, k) + Count(b, k)
  {
    if a == [] {
      assert a + b == b;
    } else {
      assert (a + b)[1..] == a[1..] + b;
      CountAppend(a[1..], b, k);
    }
  }

  /** Counting a trace that starts with `e`. */
  lemma CountCons(e: Event, s: seq<Event>, k: Kind)
    ensures Count([e] + s, k) == (if KindOf(e) == k then 1 else 0) + Count(s, k)
  {
    assert ([e] + s)[1..] == s;
  }

  /** The log of external calls made during one tick. */
  class EffectLog {
    var events: seq<Event>

    constructor ()
      ensures events == []
    {
      events := [];
    }

    /** Records one external call at the end of the log. */
    method Record(e: Event)
      modifies this
      ensures events == old(events) + [e]
    {
      events := events + [e];
    }
  }
}
