/** One step of the limiter at one address, and the reference limiter it is a cache of. */
module RateLimitSteps {
  import opened Wrappers
  import opened RateLimitSpec
  import opened RateLimitTables

  // ----- The reference: a memory that never forgets a bucket by itself -----

  type Memory = map<Addr, Bucket>

  function Lookup(m: Memory, a: Addr): Slot { if a in m then Some(m[a]) else None }

  function LookupOf(m: Memory, i: Input, w: Which): Slot {
    if i.Key(w).None? then None else Lookup(m, Addr(w, i.Key(w).value))
  }

  function Recall(m: Memory, i: Input): Slots {
    Slots(LookupOf(m, i, Global), LookupOf(m, i, Email), LookupOf(m, i, Ip))
  }

  /** What one operation does to the bucket of an address it targets. */
  function AfterHit(o: Options, slot: Slot, w: Which, op: Op, reply: Reply, now: nat): Slot {
    match op
    case CheckOp(_) => slot
    case ReserveOp(_) => if reply.Allowed? then Some(Reserved(slot, now, o)) else slot
    case ReleaseOp(_) => Released(slot)
    case FailureOp(_, r) => Some(Failed(if r then Released(slot) else slot, now, o, o.MaxFailures(w)))
    case SuccessOp(_, r) => if w.Email? then None else if r then Released(slot) else slot
  }

  function After(o: Options, slot: Slot, a: Addr, e: Event, reply: Reply): Slot {
    if e.op.input.Targets(a) then AfterHit(o, slot, a.which, e.op, reply, e.now) else slot
  }

  /** Decisions from the recalled slots alone. */
  function Answer(o: Options, v: Slots, e: Event): Reply {
    match e.op
    case CheckOp(_) => Verdict(MaxRetry(v, e.now))
    case ReserveOp(i) =>
      if MaxRetry(v, e.now) > 0 then Denied(Seconds(MaxRetry(v, e.now)))
      else Verdict(FirstOverflow(o, v, i, e.now))
    case _ => Recorded
  }

  function Remember(o: Options, m: Memory, e: Event): Memory {
    var reply := Answer(o, Recall(m, e.op.input), e);
    var known := m.Keys + (set a | a in e.op.input.Addresses());
    map a | a in known && After(o, Lookup(m, a), a, e, reply).Some? :: After(o, Lookup(m, a), a, e, reply).value
  }

  function Recollections(o: Options, m: Memory, events: seq<Event>): seq<Reply>
    decreases |events|
  {
    if |events| == 0 then []
    else [Answer(o, Recall(m, events[0].op.input), events[0])] + Recollections(o, Remember(o, m, events[0]), events[1..])
  }

  // ----- Live slots decide -----

  lemma AddressesAreTargets(i: Input, a: Addr)
    ensures a in i.Addresses() <==> i.Targets(a)
    ensures i.Targets(a) ==> a.key != ""
  {
  }

  /** Only live slots matter to a decision, and to the bucket an operation leaves behind. */
  lemma LiveSlotsDecide(o: Options, v: Slots, u: Slots, e: Event)
    requires forall w :: Alive(v.Get(w), e.now) == Alive(u.Get(w), e.now)
    ensures Answer(o, v, e) == Answer(o, u, e)
  {
    assert forall w: Which :: Alive(v.Get(w), e.now) == Alive(u.Get(w), e.now);
    assert v.global == v.Get(Global) && v.email == v.Get(Email) && v.ip == v.Get(Ip);
    assert u.global == u.Get(Global) && u.email == u.Get(Email) && u.ip == u.Get(Ip);
  }

  lemma LiveSlotsPersist(o: Options, x: Slot, y: Slot, w: Which, op: Op, reply: Reply, now: nat)
    requires Alive(x, now) == Alive(y, now)
    ensures Alive(AfterHit(o, x, w, op, reply, now), now) == Alive(AfterHit(o, y, w, op, reply, now), now)
  {
  }

  // ----- One table across one step -----

  /** `u` is `t` with nothing but dead buckets removed. */
  ghost predicate Shadow(t: Table, u: Table, now: nat) {
    && ValidTable(u) && |u.order| <= |t.order|
    && (forall x :: Find(u, x) == Find(t, x) || (Find(u, x).None? && Alive(Find(t, x), now).None?))
  }

  lemma ShadowKeepsLive(t: Table, u: Table, now: nat)
    requires Shadow(t, u, now)
    ensures LiveKeys(u.at, now) == LiveKeys(t.at, now)
    ensures forall x :: Alive(Find(u, x), now) == Alive(Find(t, x), now)
  {
    forall x
      ensures x in LiveKeys(u.at, now) <==> x in LiveKeys(t.at, now)
    {
      assert Find(u, x) == Find(t, x) || (Find(u, x).None? && Alive(Find(t, x), now).None?);
    }
  }

  lemma TouchShadow(s: State, i: Input, w: Which, now: nat)
    requires ValidState(s)
    ensures Shadow(s.Get(w), TouchTable(s, i, w, now), now)
  {
    if i.Key(w).Some? {
      TouchInMeaning(s.Get(w), i.Key(w).value, now);
    }
  }

  lemma PruneShadow(t: Table, u: Table, now: nat)
    requires Shadow(t, u, now)
    ensures Shadow(t, Pruned(u, now), now)
  {
    PrunedMeaning(u, now);
  }

  /** A denied attempt only looks: dead buckets may go, nothing else changes. */
  lemma LookedAtShadow(o: Options, s: State, i: Input, w: Which, now: nat)
    requires ValidState(s)
    ensures Shadow(s.Get(w), TouchAll(s, i, now).Get(w), now)
    ensures Shadow(s.Get(w), OverflowPruned(o, TouchAll(s, i, now), i, now).Get(w), now)
  {
    TouchShadow(s, i, w, now);
    PruneShadow(s.Get(w), TouchAll(s, i, now).Get(w), now);
  }

  /** The limiter decides from its own slots, and touching them first changes nothing. */
  lemma StepAnswers(o: Options, s: State, e: Event)
    requires ValidState(s)
    ensures Step(o, s, e).1 == Answer(o, s.At(e.op.input), e)
  {
    if e.op.ReserveOp? {
      ReserveAnswers(o, s, e.op.input, e.now);
    }
  }

  lemma ReserveAnswers(o: Options, s: State, i: Input, now: nat)
    requires ValidState(s)
    ensures Reserve(o, s, i, now).1 == Answer(o, s.At(i), Event(now, ReserveOp(i)))
  {
    TouchKeepsAnswer(o, s, i, now);
    ReserveReply(o, s, i, now);
  }

  lemma TouchKeepsAnswer(o: Options, s: State, i: Input, now: nat)
    requires ValidState(s)
    ensures var e := Event(now, ReserveOp(i)); Answer(o, TouchAll(s, i, now).At(i), e) == Answer(o, s.At(i), e)
  {
    var touched := TouchAll(s, i, now);
    forall w: Which
      ensures Alive(touched.At(i).Get(w), now) == Alive(s.At(i).Get(w), now)
    {
      TouchShadow(s, i, w, now);
      ShadowKeepsLive(s.Get(w), touched.Get(w), now);
      assert touched.At(i).Get(w) == touched.SlotOf(i, w) && s.At(i).Get(w) == s.SlotOf(i, w);
    }
    LiveSlotsDecide(o, touched.At(i), s.At(i), Event(now, ReserveOp(i)));
  }

  lemma ReserveReply(o: Options, s: State, i: Input, now: nat)
    ensures Reserve(o, s, i, now).1 ==
            if MaxRetry(s.At(i), now) > 0 then Denied(Seconds(MaxRetry(s.At(i), now)))
            else Verdict(FirstOverflow(o, TouchAll(s, i, now).At(i), i, now))
  {
  }

  // ----- One table across one step -----

  /** The steps that store a bucket: a granted reservation and a failure. */
  predicate Stores(op: Op, reply: Reply) { (op.ReserveOp? && reply.Allowed?) || op.FailureOp? }

  /** The step does not have to evict from table `w`. */
  ghost predicate Roomy(o: Options, s: State, e: Event, w: Which) {
    Stores(e.op, Step(o, s, e).1) && e.op.input.Key(w).Some? ==>
      Room(s.Get(w).at, e.op.input.Key(w).value, e.now, o.Cap(w))
  }

  /** How one slot may move: it becomes what `After` says or is dropped, and a live one is
      dropped only by an eviction. */
  ghost predicate SlotMoves(o: Options, slot: Slot, a: Addr, e: Event, slot': Slot, reply: Reply, roomy: bool) {
    var after := After(o, slot, a, e, reply);
    KeptOrDropped(after, slot') && (roomy ==> Alive(slot', e.now) == Alive(after, e.now))
  }

  ghost predicate Moves(o: Options, t: Table, w: Which, e: Event, u: Table, reply: Reply, roomy: bool) {
    && ValidTable(u)
    && (o.Cap(w) >= 1 && |t.order| <= o.Cap(w) ==> |u.order| <= o.Cap(w))
    && (forall x :: SlotMoves(o, Find(t, x), Addr(w, x), e, Find(u, x), reply, roomy))
  }

  ghost predicate TableMoves(o: Options, s: State, e: Event, w: Which, u: Table, reply: Reply) {
    Moves(o, s.Get(w), w, e, u, reply, Roomy(o, s, e, w))
  }

  /** A pruned-and-stored table moves as `After` says, when the stored bucket is the right one:
      `t` is the table before the step and `p` the one the store works on. */
  lemma GrownMoves(o: Options, t: Table, w: Which, e: Event, p: Table, u: Table, k: string, b: Bucket, reply: Reply, roomy: bool)
    requires e.op.input.Key(w) == Some(k) && Grown(p, u, k, b, e.now, o.Cap(w))
    requires roomy ==> Room(t.at, k, e.now, o.Cap(w))
    requires LiveKeys(p.at, e.now) == LiveKeys(t.at, e.now) && |p.order| <= |t.order|
    requires forall x :: x != k ==> Alive(Find(p, x), e.now) == Alive(Find(t, x), e.now)
    requires AfterHit(o, Find(t, k), w, e.op, reply, e.now) == Some(b)
    ensures Moves(o, t, w, e, u, reply, roomy)
  {
    assert Find(u, k) == Some(b) && (roomy ==> Room(p.at, k, e.now, o.Cap(w)));
    forall x
      ensures SlotMoves(o, Find(t, x), Addr(w, x), e, Find(u, x), reply, roomy)
    {
      if x == k {
        HitMoves(o, Find(t, k), Addr(w, k), e, Find(u, k), reply, roomy);
      } else {
        assert Alive(Find(p, x), e.now) == Alive(Find(t, x), e.now);
        assert KeptOrDropped(Alive(Find(p, x), e.now), Find(u, x));
        MissMoves(o, Find(t, x), Addr(w, x), e, Find(u, x), reply, roomy);
      }
    }
  }

  lemma HitMoves(o: Options, slot: Slot, a: Addr, e: Event, slot': Slot, reply: Reply, roomy: bool)
    requires e.op.input.Targets(a) && slot' == AfterHit(o, slot, a.which, e.op, reply, e.now)
    ensures SlotMoves(o, slot, a, e, slot', reply, roomy)
  {
  }

  lemma MissMoves(o: Options, slot: Slot, a: Addr, e: Event, slot': Slot, reply: Reply, roomy: bool)
    requires !e.op.input.Targets(a) && KeptOrDropped(Alive(slot, e.now), slot')
    requires roomy ==> slot' == Alive(slot, e.now)
    ensures SlotMoves(o, slot, a, e, slot', reply, roomy)
  {
  }

  lemma ShadowMoves(o: Options, t: Table, w: Which, e: Event, u: Table, reply: Reply, roomy: bool)
    requires Shadow(t, u, e.now)
    requires forall x :: After(o, Find(t, x), Addr(w, x), e, reply) == Find(t, x)
    ensures Moves(o, t, w, e, u, reply, roomy)
  {
    ShadowKeepsLive(t, u, e.now);
  }

  /** A dead bucket and no bucket leave the same bucket behind. */
  lemma FreshOrLive(slot: Slot, now: nat, o: Options, max: int)
    ensures Reserved(Alive(slot, now), now, o) == Reserved(slot, now, o)
    ensures Failed(Alive(slot, now), now, o, max) == Failed(slot, now, o, max)
    ensures Failed(Released(Alive(slot, now)), now, o, max) == Failed(Released(slot), now, o, max)
  {
  }

  // ----- Reservations -----

  /** The table a granted reservation stores into, and what it stores. */
  lemma GrantedTable(o: Options, t: Table, w: Which, e: Event, p: Table, k: string, roomy: bool)
    requires e.op.ReserveOp? && e.op.input.Key(w) == Some(k) && k != "" && Shadow(t, p, e.now)
    requires roomy ==> Room(t.at, k, e.now, o.Cap(w))
    ensures Moves(o, t, w, e, ReserveIn(p, k, e.now, o, o.Cap(w)), Allowed, roomy)
  {
    ShadowKeepsLive(t, p, e.now);
    ReserveInGrows(p, k, e.now, o, o.Cap(w));
    FreshOrLive(Find(t, k), e.now, o, 0);
    FreshOrLive(Find(p, k), e.now, o, 0);
    assert Alive(Find(t, k), e.now) == Alive(Find(p, k), e.now);
    GrownMoves(o, t, w, e, p, ReserveIn(p, k, e.now, o, o.Cap(w)), k, Reserved(Find(p, k), e.now, o), Allowed, roomy);
  }

  /** The tables after a reservation: stored into when it is granted, else only looked at. */
  lemma ReservedState(o: Options, s: State, i: Input, now: nat, w: Which)
    ensures var touched := TouchAll(s, i, now);
      var pruned := OverflowPruned(o, touched, i, now);
      var (after, reply) := Reserve(o, s, i, now);
      if reply.Allowed? then after.Get(w) == ReserveTable(o, pruned, i, w, now)
      else after.Get(w) == touched.Get(w) || after.Get(w) == pruned.Get(w)
  {
  }

  lemma ReserveMoves(o: Options, s: State, i: Input, now: nat, w: Which, reply: Reply, u: Table, roomy: bool)
    requires ValidState(s) && reply == Reserve(o, s, i, now).1 && u == Reserve(o, s, i, now).0.Get(w)
    requires roomy && reply.Allowed? && i.Key(w).Some? ==> Room(s.Get(w).at, i.Key(w).value, now, o.Cap(w))
    ensures Moves(o, s.Get(w), w, Event(now, ReserveOp(i)), u, reply, roomy)
  {
    var e := Event(now, ReserveOp(i));
    var p := OverflowPruned(o, TouchAll(s, i, now), i, now).Get(w);
    ReservedState(o, s, i, now, w);
    LookedAtShadow(o, s, i, w, now);
    if reply.Allowed? && i.Key(w).Some? {
      GrantedTable(o, s.Get(w), w, e, p, i.Key(w).value, roomy);
    } else {
      ShadowMoves(o, s.Get(w), w, e, u, reply, roomy);
    }
  }

  // ----- Settlements and failures -----

  /** Releasing never removes a live bucket and touches one key only. */
  lemma ReleaseMoves(s: State, i: Input, w: Which, now: nat)
    requires ValidState(s)
    ensures var t := ReleaseTable(s, i, w, now);
      && ValidTable(t) && |t.order| <= |s.Get(w).order|
      && LiveKeys(t.at, now) == LiveKeys(s.Get(w).at, now)
      && (forall x :: Find(t, x) == if i.Targets(Addr(w, x)) then Released(Alive(Find(s.Get(w), x), now))
                                    else Find(s.Get(w), x))
  {
    if i.Key(w).Some? {
      ReleaseInMeaning(s.Get(w), i.Key(w).value, now);
    }
  }

  /** The table a failure works on: the reservation, if any, has been released. */
  function Settled(s: State, i: Input, w: Which, now: nat, reserved: bool): Table {
    if reserved then ReleaseTable(s, i, w, now) else s.Get(w)
  }

  lemma SettledMeaning(s: State, i: Input, w: Which, now: nat, reserved: bool)
    requires ValidState(s)
    ensures var t := Settled(s, i, w, now, reserved);
      && ValidTable(t) && |t.order| <= |s.Get(w).order| && LiveKeys(t.at, now) == LiveKeys(s.Get(w).at, now)
      && (forall x :: Find(t, x) == if reserved && i.Targets(Addr(w, x)) then Released(Alive(Find(s.Get(w), x), now))
                                    else Find(s.Get(w), x))
  {
    ReleaseMoves(s, i, w, now);
  }

  lemma SettledElsewhere(s: State, i: Input, w: Which, now: nat, reserved: bool, k: string)
    requires ValidState(s) && i.Key(w) == Some(k)
    ensures var t := Settled(s, i, w, now, reserved);
      && ValidTable(t) && |t.order| <= |s.Get(w).order| && LiveKeys(t.at, now) == LiveKeys(s.Get(w).at, now)
      && Find(t, k) == (if reserved then Released(Alive(Find(s.Get(w), k), now)) else Find(s.Get(w), k))
      && (forall x :: x != k ==> Alive(Find(t, x), now) == Alive(Find(s.Get(w), x), now))
  {
    SettledMeaning(s, i, w, now, reserved);
  }

  lemma FailureState(o: Options, s: State, i: Input, reserved: bool, now: nat, w: Which)
    ensures Failure(o, s, i, reserved, now).Get(w) ==
            if i.Key(w).None? then s.Get(w)
            else FailIn(Settled(s, i, w, now, reserved), i.Key(w).value, now, o, o.MaxFailures(w), o.Cap(w))
  {
  }

  lemma FailedTable(o: Options, s: State, w: Which, e: Event, k: string, roomy: bool)
    requires ValidState(s) && e.op.FailureOp? && e.op.input.Key(w) == Some(k)
    requires roomy ==> Room(s.Get(w).at, k, e.now, o.Cap(w))
    ensures var t := Settled(s, e.op.input, w, e.now, e.op.reserved);
      Moves(o, s.Get(w), w, e, FailIn(t, k, e.now, o, o.MaxFailures(w), o.Cap(w)), Recorded, roomy)
  {
    var t, max := Settled(s, e.op.input, w, e.now, e.op.reserved), o.MaxFailures(w);
    assert k != "" && e.op.input.Targets(Addr(w, k));
    SettledElsewhere(s, e.op.input, w, e.now, e.op.reserved, k);
    FailInGrows(t, k, e.now, o, max, o.Cap(w));
    FreshOrLive(Find(s.Get(w), k), e.now, o, max);
    GrownMoves(o, s.Get(w), w, e, t, FailIn(t, k, e.now, o, max, o.Cap(w)), k, Failed(Find(t, k), e.now, o, max), Recorded, roomy);
  }

  lemma FailureMoves(o: Options, s: State, w: Which, e: Event, u: Table, roomy: bool)
    requires ValidState(s) && e.op.FailureOp? && u == Failure(o, s, e.op.input, e.op.reserved, e.now).Get(w)
    requires roomy && e.op.input.Key(w).Some? ==> Room(s.Get(w).at, e.op.input.Key(w).value, e.now, o.Cap(w))
    ensures Moves(o, s.Get(w), w, e, u, Recorded, roomy)
  {
    FailureState(o, s, e.op.input, e.op.reserved, e.now, w);
    if e.op.input.Key(w).Some? {
      FailedTable(o, s, w, e, e.op.input.Key(w).value, roomy);
    } else {
      ShadowMoves(o, s.Get(w), w, e, u, Recorded, roomy);
    }
  }

  lemma SuccessState(s: State, i: Input, reserved: bool, now: nat, w: Which)
    ensures Success(s, i, reserved, now).Get(w) ==
            if w.Email? then Delete(Settled(s, i, w, now, reserved), i.EmailKey()) else Settled(s, i, w, now, reserved)
  {
  }

  lemma SettleMoves(o: Options, s: State, w: Which, e: Event, u: Table, roomy: bool)
    requires ValidState(s) && (e.op.ReleaseOp? || e.op.SuccessOp?)
    requires u == if e.op.ReleaseOp? then ReleaseAll(s, e.op.input, e.now).Get(w)
                  else Success(s, e.op.input, e.op.reserved, e.now).Get(w)
    ensures Moves(o, s.Get(w), w, e, u, Recorded, roomy)
  {
    var i, reserved := e.op.input, e.op.ReleaseOp? || e.op.reserved;
    var t := Settled(s, i, w, e.now, reserved);
    SettledMeaning(s, i, w, e.now, reserved);
    if e.op.SuccessOp? {
      SuccessState(s, i, reserved, e.now, w);
      DeleteMeaning(t, i.EmailKey());
    }
    forall x
      ensures SlotMoves(o, Find(s.Get(w), x), Addr(w, x), e, Find(u, x), Recorded, roomy)
    {
      assert Find(t, x) == if reserved && i.Targets(Addr(w, x)) then Released(Alive(Find(s.Get(w), x), e.now))
                           else Find(s.Get(w), x);
    }
  }

  // ----- Every step -----

  lemma StepMoves(o: Options, s: State, e: Event, w: Which)
    requires ValidState(s)
    ensures TableMoves(o, s, e, w, Step(o, s, e).0.Get(w), Step(o, s, e).1)
  {
    var u, reply, roomy := Step(o, s, e).0.Get(w), Step(o, s, e).1, Roomy(o, s, e, w);
    match e.op {
      case CheckOp(i) =>
        TouchShadow(s, i, w, e.now);
        ShadowMoves(o, s.Get(w), w, e, u, reply, roomy);
      case ReserveOp(i) => ReserveMoves(o, s, i, e.now, w, reply, u, roomy);
      case FailureOp(_, _) => FailureMoves(o, s, w, e, u, roomy);
      case _ => SettleMoves(o, s, w, e, u, roomy);
    }
  }

  lemma StepKeepsValid(o: Options, s: State, e: Event)
    requires ValidState(s)
    ensures ValidState(Step(o, s, e).0)
  {
    StepMoves(o, s, e, Global);
    StepMoves(o, s, e, Email);
    StepMoves(o, s, e, Ip);
    var s', reply := Step(o, s, e).0, Step(o, s, e).1;
    forall k | k in s'.global.at
      ensures k == "global"
    {
      assert SlotMoves(o, Find(s.Get(Global), k), Addr(Global, k), e, Find(s'.Get(Global), k), reply,
                       Roomy(o, s, e, Global));
    }
  }
}
