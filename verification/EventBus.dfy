/** The in-memory planning event bus: one set of listeners per (tenant, project), handed out to
    unsubscribe closures by reference. */
module EventBus {
  import opened Wrappers

  type Listener = string

  datatype Event = VersionChanged(tenantId: string, projectId: string, planVersion: int)
                 | SnapshotInvalidated(tenantId: string, projectId: string, reason: string)

  function EventKey(tenantId: string, projectId: string): string { tenantId + "\0" + projectId }

  lemma {:induction false} KeyIsInjective(t: string, p: string, u: string, q: string)
    requires '\0' !in t && '\0' !in u && EventKey(t, p) == EventKey(u, q)
    ensures t == u && p == q
  {
    var a, b := EventKey(t, p), EventKey(u, q);
    assert a[0] == if |t| == 0 then '\0' else t[0];
    assert b[0] == if |u| == 0 then '\0' else u[0];
    if |t| > 0 && |u| > 0 {
      assert a[1..] == EventKey(t[1..], p) && b[1..] == EventKey(u[1..], q);
      KeyIsInjective(t[1..], p, u[1..], q);
      assert t == [t[0]] + t[1..] && u == [u[0]] + u[1..];
    } else if |t| == |u| {
      assert a[1..] == p && b[1..] == q;
    }
  }

  // ----- The bus as a transition system -----

  /** Set objects are numbered by creation: `sets` holds every set ever made, also those only an
      unsubscribe closure still refers to, and `owners` the key each was made for; `current` is
      the map from keys to sets. */
  datatype Bus = Bus(sets: seq<seq<Listener>>, owners: seq<string>, current: map<string, nat>)

  /** What an unsubscribe closure has captured. */
  datatype Handle = Handle(bucket: nat, key: string, listener: Listener)

  const EMPTY := Bus([], [], map[])

  function Add(s: seq<Listener>, l: Listener): seq<Listener> { if l in s then s else s + [l] }

  function Remove(s: seq<Listener>, l: Listener): seq<Listener> {
    if |s| == 0 then [] else (if s[0] == l then [] else [s[0]]) + Remove(s[1..], l)
  }

  function Subscribe(b: Bus, key: string, l: Listener): (Bus, Handle)
    requires key in b.current ==> b.current[key] < |b.sets|
  {
    var bucket := if key in b.current then b.current[key] else |b.sets|;
    var sets := if key in b.current then b.sets else b.sets + [[]];
    var owners := if key in b.current then b.owners else b.owners + [key];
    (Bus(sets[bucket := Add(sets[bucket], l)], owners, b.current[key := bucket]), Handle(bucket, key, l))
  }

  function Unsubscribe(b: Bus, h: Handle): Bus
    requires h.bucket < |b.sets|
  {
    var left := Remove(b.sets[h.bucket], h.listener);
    Bus(b.sets[h.bucket := left], b.owners, if left == [] then b.current - {h.key} else b.current)
  }

  function Listeners(b: Bus, key: string): seq<Listener>
    requires key in b.current ==> b.current[key] < |b.sets|
  {
    if key in b.current then b.sets[b.current[key]] else []
  }

  /** What a publish delivers: the event to each listener of its tenant and project, in order. */
  function Deliveries(b: Bus, e: Event): seq<(Listener, Event)>
    requires var key := EventKey(e.tenantId, e.projectId); key in b.current ==> b.current[key] < |b.sets|
  {
    var to := Listeners(b, EventKey(e.tenantId, e.projectId));
    seq(|to|, i requires 0 <= i < |to| => (to[i], e))
  }

  class InMemoryPlanningEventPublisher {
    var sets: seq<seq<Listener>>
    var listenersByKey: map<string, nat>
    var delivered: seq<(Listener, Event)>
    ghost var owners: seq<string>

    ghost function Model(): Bus
      reads this
    {
      Bus(sets, owners, listenersByKey)
    }

    constructor ()
      ensures Model() == EMPTY && delivered == []
    {
      sets, listenersByKey, delivered, owners := [], map[], [], [];
    }

    method SubscribeTo(tenantId: string, projectId: string, l: Listener) returns (h: Handle)
      requires Shaped(Model())
      modifies this`sets, this`listenersByKey, this`owners
      ensures (Model(), h) == Subscribe(old(Model()), EventKey(tenantId, projectId), l)
      ensures Shaped(Model()) && Genuine(Model(), h) && (old(Inv(Model())) ==> Inv(Model()))
    {
      SubscribeKeepsShape(Model(), EventKey(tenantId, projectId), l);
      if Inv(Model()) {
        SubscribeKeepsInv(Model(), EventKey(tenantId, projectId), l);
      }
      var key := EventKey(tenantId, projectId);
      var bucket;
      if key in listenersByKey {
        bucket := listenersByKey[key];
      } else {
        bucket := |sets|;
        sets := sets + [[]];
        owners := owners + [key];
      }
      sets := sets[bucket := Add(sets[bucket], l)];
      listenersByKey := listenersByKey[key := bucket];
      return Handle(bucket, key, l);
    }

    method CallUnsubscribe(h: Handle)
      requires Shaped(Model()) && Genuine(Model(), h)
      modifies this`sets, this`listenersByKey
      ensures Model() == Unsubscribe(old(Model()), h)
      ensures Shaped(Model())
    {
      UnsubscribeKeepsShape(Model(), h);
      var left := Remove(sets[h.bucket], h.listener);
      sets := sets[h.bucket := left];
      if |left| == 0 {
        listenersByKey := listenersByKey - {h.key};
      }
    }

    method Publish(e: Event)
      requires Shaped(Model())
      modifies this`delivered
      ensures delivered == old(delivered) + Deliveries(Model(), e)
      ensures var to := Listeners(Model(), EventKey(e.tenantId, e.projectId)); var n := |old(delivered)|;
        && |delivered| == n + |to| && delivered[..n] == old(delivered)
        && forall i :: 0 <= i < |to| ==> delivered[n + i] == (to[i], e)
    {
      var key := EventKey(e.tenantId, e.projectId);
      ghost var to := Listeners(Model(), key);
      ghost var before := delivered;
      if key !in listenersByKey {
        return;
      }
      var bucket := sets[listenersByKey[key]];
      for n := 0 to |bucket|
        invariant delivered == before + seq(n, i requires 0 <= i < n => (bucket[i], e))
      {
        delivered := delivered + [(bucket[n], e)];
      }
    }
  }

  // ----- Invariants -----

  /** A set holds no listener twice, and is mapped under no key but the one it was made for.  Every
      call keeps this, also one on a set that has been replaced. */
  ghost predicate Shaped(b: Bus) {
    && |b.owners| == |b.sets|
    && (forall n :: 0 <= n < |b.sets| ==> Distinct(b.sets[n]))
    && (forall k :: k in b.current ==> b.current[k] < |b.sets| && b.owners[b.current[k]] == k)
  }

  lemma SubscribeKeepsShape(b: Bus, key: string, l: Listener)
    requires Shaped(b)
    ensures var (after, h) := Subscribe(b, key, l); Shaped(after) && Genuine(after, h)
  {
    AddKeepsDistinct(if key in b.current then b.sets[b.current[key]] else [], l);
  }

  lemma UnsubscribeKeepsShape(b: Bus, h: Handle)
    requires Shaped(b) && Genuine(b, h)
    ensures Shaped(Unsubscribe(b, h))
  {
    RemoveKeepsDistinct(b.sets[h.bucket], h.listener);
  }

  /** In addition a mapped set is not empty, and a set that is not empty is mapped. */
  ghost predicate Inv(b: Bus) {
    && Shaped(b)
    && (forall k :: k in b.current ==> b.sets[b.current[k]] != [])
    && (forall n :: 0 <= n < |b.sets| && b.sets[n] != [] ==> b.owners[n] in b.current && b.current[b.owners[n]] == n)
  }

  ghost predicate IsCurrent(b: Bus, h: Handle) { h.key in b.current && b.current[h.key] == h.bucket }

  /** The closure was handed out for the set it refers to. */
  ghost predicate Genuine(b: Bus, h: Handle) {
    h.bucket < |b.sets| == |b.owners| && b.owners[h.bucket] == h.key
  }

  lemma SubscribeKeepsInv(b: Bus, key: string, l: Listener)
    requires Inv(b)
    ensures var (after, h) := Subscribe(b, key, l);
      Inv(after) && Genuine(after, h) && IsCurrent(after, h)
  {
    if key in b.current {
      AddKeepsDistinct(b.sets[b.current[key]], l);
    } else {
      AddKeepsDistinct([], l);
    }
  }

  lemma AddKeepsDistinct(s: seq<Listener>, l: Listener)
    requires Distinct(s)
    ensures Distinct(Add(s, l))
  {
  }

  lemma {:induction false} RemoveMembers(s: seq<Listener>, l: Listener)
    ensures forall x :: x in Remove(s, l) <==> x in s && x != l
  {
    if |s| > 0 {
      RemoveMembers(s[1..], l);
      assert s == [s[0]] + s[1..];
    }
  }

  lemma {:induction false} RemoveKeepsDistinct(s: seq<Listener>, l: Listener)
    requires Distinct(s)
    ensures Distinct(Remove(s, l))
  {
    if |s| > 0 {
      RemoveKeepsDistinct(s[1..], l);
      RemoveMembers(s[1..], l);
      assert s[0] !in s[1..];
    }
  }

  lemma SubscribeAdds(b: Bus, key: string, l: Listener, k: string)
    requires Shaped(b) && Shaped(Subscribe(b, key, l).0)
    ensures var (before, after) := (Listeners(b, k), Listeners(Subscribe(b, key, l).0, k));
      after == if k != key || l in before then before else before + [l]
  {
  }

  /** The listener goes and the others close up in order. */
  lemma {:induction false} RemoveKeepsOrder(s: seq<Listener>, l: Listener, n: nat)
    requires Distinct(s) && n < |s| && s[n] == l
    ensures Remove(s, l) == s[..n] + s[n + 1..]
  {
    var t := s[1..];
    if n == 0 {
      NothingToRemove(t, l);
    } else {
      RemoveKeepsOrder(t, l, n - 1);
      assert s[..n] == [s[0]] + t[..n - 1] && s[n + 1..] == t[n..];
    }
  }

  lemma {:induction false} NothingToRemove(s: seq<Listener>, l: Listener)
    requires l !in s
    ensures Remove(s, l) == s
  {
    if |s| > 0 {
      NothingToRemove(s[1..], l);
      assert s == [s[0]] + s[1..];
    }
  }

  /** A closure called on the current set leaves the bus well formed ... */
  lemma UnsubscribeKeepsInv(b: Bus, h: Handle)
    requires Inv(b) && IsCurrent(b, h)
    ensures Inv(Unsubscribe(b, h))
  {
    RemoveKeepsDistinct(b.sets[h.bucket], h.listener);
  }

  /** ... and removes exactly its listener. */
  lemma UnsubscribeRemoves(b: Bus, h: Handle, k: string)
    requires Inv(b) && IsCurrent(b, h) && Inv(Unsubscribe(b, h))
    ensures Listeners(Unsubscribe(b, h), k) ==
            if k == h.key then Remove(Listeners(b, k), h.listener) else Listeners(b, k)
  {
  }

  /** In figures: the others keep their order, and without the listener nothing changes. */
  lemma UnsubscribeClosesUp(b: Bus, h: Handle, k: string)
    requires Inv(b) && IsCurrent(b, h) && Inv(Unsubscribe(b, h))
    ensures var (before, after) := (Listeners(b, k), Listeners(Unsubscribe(b, h), k));
      && (k in Unsubscribe(b, h).current <==> after != [])
      && (k != h.key || h.listener !in before ==> after == before)
      && (k == h.key ==> forall n :: 0 <= n < |before| && before[n] == h.listener ==> after == before[..n] + before[n + 1..])
  {
    UnsubscribeRemoves(b, h, k);
    var before := Listeners(b, k);
    if k == h.key {
      if h.listener !in before {
        NothingToRemove(before, h.listener);
      }
      forall n | 0 <= n < |before| && before[n] == h.listener
        ensures Remove(before, h.listener) == before[..n] + before[n + 1..]
      {
        RemoveKeepsOrder(before, h.listener, n);
      }
    }
  }

  /** As long as a closure's listener is still in the closure's own set, that set is current. */
  lemma RegisteredIsCurrent(b: Bus, h: Handle)
    requires Inv(b) && Genuine(b, h) && h.listener in b.sets[h.bucket]
    ensures IsCurrent(b, h)
  {
    assert b.sets[h.bucket] != [];
  }

  /** The call does what is meant: its set is the current one, or what it does to the map is what
      leaving would do to the listeners that are there. */
  ghost predicate IsRight(b: Bus, h: Handle)
    requires Shaped(b) && Genuine(b, h)
  {
    var left, there := Remove(b.sets[h.bucket], h.listener), Listeners(b, h.key);
    IsCurrent(b, h) || (if left == [] then Remove(there, h.listener) == [] else Remove(there, h.listener) == there)
  }

  /** A closure called on a set that has been replaced drops the new set when its own one is left
      empty, and changes nothing otherwise: on every bus, the call does what is meant exactly if
      it is right. */
  lemma UnsubscribeIsRightExactlyWhen(b: Bus, h: Handle)
    requires Shaped(b) && Genuine(b, h) && Shaped(Unsubscribe(b, h))
    ensures Listeners(Unsubscribe(b, h), h.key) == Remove(Listeners(b, h.key), h.listener) <==> IsRight(b, h)
    ensures forall k :: k != h.key ==> Listeners(Unsubscribe(b, h), k) == Listeners(b, k)
  {
  }

  // ----- Runs -----

  datatype Step = Join(key: string, listener: Listener) | Leave(handle: Handle)

  function Apply(b: Bus, step: Step): Bus
    requires Shaped(b) && (step.Leave? ==> Genuine(b, step.handle))
  {
    match step
    case Join(key, l) => Subscribe(b, key, l).0
    case Leave(h) => Unsubscribe(b, h)
  }

  /** What is meant: a plain map from keys to listeners. */
  type Roster = map<string, seq<Listener>>

  function On(r: Roster, key: string): seq<Listener> { if key in r then r[key] else [] }

  function Meant(r: Roster, step: Step): Roster {
    match step
    case Join(key, l) => r[key := Add(On(r, key), l)]
    case Leave(h) => r[h.key := Remove(On(r, h.key), h.listener)]
  }

  // ----- Every run of handed-out closures -----

  /** Every closure that is called has been handed out. */
  ghost predicate Handed(b: Bus, steps: seq<Step>)
    requires Shaped(b)
    decreases |steps|
  {
    |steps| == 0
    || ((steps[0].Leave? ==> Genuine(b, steps[0].handle))
        && (assert Shaped(Apply(b, steps[0])) by { ApplyKeepsShape(b, steps[0]); } Handed(Apply(b, steps[0]), steps[1..])))
  }

  lemma ApplyKeepsShape(b: Bus, step: Step)
    requires Shaped(b) && (step.Leave? ==> Genuine(b, step.handle))
    ensures Shaped(Apply(b, step))
  {
    match step {
      case Join(key, l) => SubscribeKeepsShape(b, key, l);
      case Leave(h) => UnsubscribeKeepsShape(b, h);
    }
  }

  ghost predicate Agrees(b: Bus, r: Roster)
    requires Shaped(b)
  {
    forall k :: Listeners(b, k) == On(r, k)
  }

  /** The bus has the listeners that are meant, now and after every step. */
  ghost predicate AlwaysAgrees(b: Bus, r: Roster, steps: seq<Step>)
    requires Shaped(b) && Handed(b, steps)
    decreases |steps|
  {
    Agrees(b, r)
    && (|steps| > 0 ==>
          (assert Shaped(Apply(b, steps[0])) by { ApplyKeepsShape(b, steps[0]); }
           AlwaysAgrees(Apply(b, steps[0]), Meant(r, steps[0]), steps[1..])))
  }

  ghost predicate AlwaysRight(b: Bus, steps: seq<Step>)
    requires Shaped(b) && Handed(b, steps)
    decreases |steps|
  {
    |steps| > 0 ==>
      && (steps[0].Leave? ==> IsRight(b, steps[0].handle))
      && (assert Shaped(Apply(b, steps[0])) by { ApplyKeepsShape(b, steps[0]); }
          AlwaysRight(Apply(b, steps[0]), steps[1..]))
  }

  lemma StepAgreesExactlyWhen(b: Bus, r: Roster, step: Step)
    requires Shaped(b) && Agrees(b, r) && (step.Leave? ==> Genuine(b, step.handle)) && Shaped(Apply(b, step))
    ensures Agrees(Apply(b, step), Meant(r, step)) <==> (step.Leave? ==> IsRight(b, step.handle))
  {
    match step {
      case Join(key, l) =>
        forall k
          ensures Listeners(Apply(b, step), k) == On(Meant(r, step), k)
        {
          SubscribeAdds(b, key, l, k);
          assert Listeners(b, k) == On(r, k) && Listeners(b, key) == On(r, key);
        }
      case Leave(h) =>
        UnsubscribeIsRightExactlyWhen(b, h);
        assert Listeners(b, h.key) == On(r, h.key);
        forall k | k != h.key
          ensures Listeners(Apply(b, step), k) == On(Meant(r, step), k)
        {
          assert Listeners(b, k) == On(r, k);
        }
        assert On(Meant(r, step), h.key) == Remove(Listeners(b, h.key), h.listener);
    }
  }

  /** Main result: throughout a run the bus has exactly the listeners that joined and have not left
      if and only if every call of a closure is right. */
  lemma {:induction false} BusIsRosterExactlyWhen(b: Bus, r: Roster, steps: seq<Step>)
    requires Shaped(b) && Handed(b, steps) && Agrees(b, r)
    ensures AlwaysAgrees(b, r, steps) <==> AlwaysRight(b, steps)
    decreases |steps|
  {
    if |steps| > 0 {
      var next, meant := Apply(b, steps[0]), Meant(r, steps[0]);
      ApplyKeepsShape(b, steps[0]);
      StepAgreesExactlyWhen(b, r, steps[0]);
      if Agrees(next, meant) {
        BusIsRosterExactlyWhen(next, meant, steps[1..]);
      }
    }
  }

  // ----- Timely runs -----

  /** Every closure is called while its set is the current one. */
  ghost predicate Timely(b: Bus, steps: seq<Step>)
    requires Inv(b)
    decreases |steps|
  {
    |steps| == 0
    || ((steps[0].Leave? ==> IsCurrent(b, steps[0].handle))
        && (assert Inv(Apply(b, steps[0])) by { ApplyKeepsInv(b, steps[0]); } Timely(Apply(b, steps[0]), steps[1..])))
  }

  lemma ApplyKeepsInv(b: Bus, step: Step)
    requires Inv(b) && (step.Leave? ==> IsCurrent(b, step.handle))
    ensures Inv(Apply(b, step))
  {
    match step {
      case Join(key, l) => SubscribeKeepsInv(b, key, l);
      case Leave(h) => UnsubscribeKeepsInv(b, h);
    }
  }

  ghost function Run(b: Bus, steps: seq<Step>): Bus
    requires Inv(b) && Timely(b, steps)
    decreases |steps|
  {
    if |steps| == 0 then b
    else
      ApplyKeepsInv(b, steps[0]);
      Run(Apply(b, steps[0]), steps[1..])
  }

  function MeantAll(r: Roster, steps: seq<Step>): Roster
    decreases |steps|
  {
    if |steps| == 0 then r else MeantAll(Meant(r, steps[0]), steps[1..])
  }

  lemma StepIsMeant(b: Bus, r: Roster, step: Step, k: string)
    requires Inv(b) && (step.Leave? ==> IsCurrent(b, step.handle)) && Inv(Apply(b, step))
    requires forall k :: Listeners(b, k) == On(r, k)
    ensures Listeners(Apply(b, step), k) == On(Meant(r, step), k)
  {
    match step {
      case Join(key, l) => SubscribeAdds(b, key, l, k);
      case Leave(h) => UnsubscribeRemoves(b, h, k);
    }
  }

  /** Main result: after any run of timely calls every key has exactly the listeners that joined
      and have not left, and no empty set is left in the map. */
  lemma {:induction false} BusIsRoster(b: Bus, r: Roster, steps: seq<Step>, key: string)
    requires Inv(b) && Timely(b, steps) && forall k :: Listeners(b, k) == On(r, k)
    ensures Inv(Run(b, steps)) && Listeners(Run(b, steps), key) == On(MeantAll(r, steps), key)
    decreases |steps|
  {
    if |steps| > 0 {
      var step := steps[0];
      ApplyKeepsInv(b, step);
      forall k
        ensures Listeners(Apply(b, step), k) == On(Meant(r, step), k)
      {
        StepIsMeant(b, r, step, k);
      }
      BusIsRoster(Apply(b, step), Meant(r, step), steps[1..], key);
    }
  }

  // ----- A discipline that makes every call timely -----

  /** Each unspent closure still has its listener in its own set, and no two share a listener
      and a key. */
  ghost predicate Outstanding(b: Bus, live: set<Handle>) {
    && (forall h :: h in live ==> Genuine(b, h) && h.listener in b.sets[h.bucket])
    && (forall h, g :: h in live && g in live && h.key == g.key && h.listener == g.listener ==> h == g)
  }

  /** A listener joins a key again only after leaving it, and each closure is called once. */
  ghost predicate Orderly(b: Bus, live: set<Handle>, steps: seq<Step>)
    requires Inv(b) && Outstanding(b, live)
    decreases |steps|
  {
    |steps| == 0
    || match steps[0]
       case Join(key, l) =>
         && (forall h :: h in live ==> !(h.key == key && h.listener == l))
         && (assert Inv(Apply(b, steps[0])) && Outstanding(Apply(b, steps[0]), live + {Subscribe(b, key, l).1}) by {
               JoinKeepsOutstanding(b, live, key, l);
             }
             Orderly(Apply(b, steps[0]), live + {Subscribe(b, key, l).1}, steps[1..]))
       case Leave(h) =>
         && h in live
         && (assert Inv(Apply(b, steps[0])) && Outstanding(Apply(b, steps[0]), live - {h}) by {
               LeaveKeepsOutstanding(b, live, h);
             }
             Orderly(Apply(b, steps[0]), live - {h}, steps[1..]))
  }

  lemma JoinKeepsOutstanding(b: Bus, live: set<Handle>, key: string, l: Listener)
    requires Inv(b) && Outstanding(b, live) && forall h :: h in live ==> !(h.key == key && h.listener == l)
    ensures var (after, h) := Subscribe(b, key, l); Inv(after) && Outstanding(after, live + {h})
  {
    SubscribeKeepsInv(b, key, l);
  }

  lemma LeaveKeepsOutstanding(b: Bus, live: set<Handle>, h: Handle)
    requires Inv(b) && Outstanding(b, live) && h in live
    ensures IsCurrent(b, h) && Inv(Unsubscribe(b, h)) && Outstanding(Unsubscribe(b, h), live - {h})
  {
    RegisteredIsCurrent(b, h);
    UnsubscribeKeepsInv(b, h);
    RemoveMembers(b.sets[h.bucket], h.listener);
    forall g | g in live && g != h
      ensures g.listener in Unsubscribe(b, h).sets[g.bucket]
    {
      assert g.bucket == h.bucket ==> g.key == h.key;
    }
  }

  /** Main result: disciplined callers never meet the stale-closure case.  Calling each closure
      once is not enough by itself: two closures of one listener on one key share a set entry,
      so the second call is stale although it is the first call of its closure. */
  lemma {:induction false} OrderlyIsTimely(b: Bus, live: set<Handle>, steps: seq<Step>)
    requires Inv(b) && Outstanding(b, live) && Orderly(b, live, steps)
    ensures Timely(b, steps)
    decreases |steps|
  {
    if |steps| > 0 {
      match steps[0] {
        case Join(key, l) =>
          JoinKeepsOutstanding(b, live, key, l);
          OrderlyIsTimely(Apply(b, steps[0]), live + {Subscribe(b, key, l).1}, steps[1..]);
        case Leave(h) =>
          LeaveKeepsOutstanding(b, live, h);
          OrderlyIsTimely(Apply(b, steps[0]), live - {h}, steps[1..]);
      }
    }
  }

  /** The concrete case: `l` joins `key` twice and leaves once, another listener joins, and the
      second closure, called for the first time, drops that listener. */
  lemma OncePerClosureIsNotEnough(key: string, l: Listener, other: Listener)
    requires l != other
    ensures var (b1, first) := Subscribe(EMPTY, key, l);
      var (b2, second) := Subscribe(b1, key, l);
      var b3 := Unsubscribe(b2, first);
      var (b4, _) := Subscribe(b3, key, other);
      Listeners(b4, key) == [other] && Listeners(Unsubscribe(b4, second), key) == []
  {
    var b1 := Subscribe(EMPTY, key, l).0;
    var made: seq<seq<Listener>> := [] + [[]];
    assert made == [[]] && Add([], l) == [l];
    assert b1.sets == made[0 := [l]] == [[l]];
    assert Remove([l], l) == Remove([], l) == [];
  }

  // ----- Who gets an event -----

  /** Subscriptions and unsubscriptions of a tenant's project. */
  datatype Action =
    | Enter(tenantId: string, projectId: string, listener: Listener)
    | Quit(tenantId: string, projectId: string, handle: Handle)

  /** As calls on the bus. */
  function StepOf(x: Action): Step {
    match x
    case Enter(t, p, l) => Join(EventKey(t, p), l)
    case Quit(_, _, h) => Leave(h)
  }

  function StepsOf(actions: seq<Action>): seq<Step> {
    if |actions| == 0 then [] else [StepOf(actions[0])] + StepsOf(actions[1..])
  }

  /** Tenant ids hold no separator, and a closure belongs to the project it was handed out for. */
  predicate Proper(x: Action) {
    '\0' !in x.tenantId && (x.Quit? ==> x.handle.key == EventKey(x.tenantId, x.projectId))
  }

  function ListenerOf(x: Action): Listener { if x.Enter? then x.listener else x.handle.listener }

  /** `l` listens to the project if it did or not at first, unless it has entered or quit since. */
  predicate IsListening(actions: seq<Action>, tenantId: string, projectId: string, l: Listener, atFirst: bool)
    decreases |actions|
  {
    if |actions| == 0 then atFirst
    else
      var x := actions[0];
      IsListening(actions[1..], tenantId, projectId, l,
                  if x.tenantId == tenantId && x.projectId == projectId && ListenerOf(x) == l then x.Enter? else atFirst)
  }

  lemma ActionMeans(b: Bus, x: Action, tenantId: string, projectId: string, l: Listener)
    requires Inv(b) && Proper(x) && '\0' !in tenantId && (x.Quit? ==> IsCurrent(b, x.handle))
    requires Inv(Apply(b, StepOf(x)))
    ensures l in Listeners(Apply(b, StepOf(x)), EventKey(tenantId, projectId)) <==>
      if x.tenantId == tenantId && x.projectId == projectId && ListenerOf(x) == l then x.Enter?
      else l in Listeners(b, EventKey(tenantId, projectId))
  {
    var key := EventKey(tenantId, projectId);
    if EventKey(x.tenantId, x.projectId) == key {
      KeyIsInjective(x.tenantId, x.projectId, tenantId, projectId);
    }
    match x {
      case Enter(t, p, m) => SubscribeAdds(b, EventKey(t, p), m, key);
      case Quit(_, _, h) =>
        UnsubscribeRemoves(b, h, key);
        RemoveMembers(Listeners(b, key), h.listener);
    }
  }

  lemma {:induction false} ListenersOfRun(b: Bus, actions: seq<Action>, tenantId: string, projectId: string, l: Listener)
    requires Inv(b) && Timely(b, StepsOf(actions)) && '\0' !in tenantId && forall x :: x in actions ==> Proper(x)
    ensures var key := EventKey(tenantId, projectId); var end := Run(b, StepsOf(actions));
      Inv(end) && (l in Listeners(end, key) <==> IsListening(actions, tenantId, projectId, l, l in Listeners(b, key)))
    decreases |actions|
  {
    if |actions| > 0 {
      var x, steps := actions[0], StepsOf(actions);
      assert steps[0] == StepOf(x) && steps[1..] == StepsOf(actions[1..]) && x in actions;
      ApplyKeepsInv(b, StepOf(x));
      ActionMeans(b, x, tenantId, projectId, l);
      ListenersOfRun(Apply(b, StepOf(x)), actions[1..], tenantId, projectId, l);
    }
  }

  lemma DeliveredOnceEach(b: Bus, e: Event, d: (Listener, Event))
    requires Inv(b)
    ensures Times(Deliveries(b, e), d) ==
            if d.1 == e && d.0 in Listeners(b, EventKey(e.tenantId, e.projectId)) then 1 else 0
  {
    var to, s := Listeners(b, EventKey(e.tenantId, e.projectId)), Deliveries(b, e);
    assert Distinct(s);
    TimesWhenDistinct(s, d);
    if d.1 == e && d.0 in to {
      var i :| 0 <= i < |to| && to[i] == d.0;
      assert s[i] == d;
    }
  }

  /** Main result: after any disciplined run from an empty bus, a publish delivers its event to a
      listener exactly once if the listener has subscribed to the event's own tenant and project
      and not unsubscribed since, and not at all otherwise; it delivers no other event. */
  lemma DeliveredExactlyOnce(actions: seq<Action>, e: Event, d: (Listener, Event))
    requires Orderly(EMPTY, {}, StepsOf(actions)) && '\0' !in e.tenantId && forall x :: x in actions ==> Proper(x)
    ensures Timely(EMPTY, StepsOf(actions))
    ensures var end := Run(EMPTY, StepsOf(actions));
      && Inv(end)
      && Times(Deliveries(end, e), d) ==
         if d.1 == e && IsListening(actions, e.tenantId, e.projectId, d.0, false) then 1 else 0
  {
    OrderlyIsTimely(EMPTY, {}, StepsOf(actions));
    ListenersOfRun(EMPTY, actions, e.tenantId, e.projectId, d.0);
    DeliveredOnceEach(Run(EMPTY, StepsOf(actions)), e, d);
  }
}
