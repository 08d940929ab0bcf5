/** Reservations are accounted for: pending attempts against a ledger of outstanding
    reservations, over whole runs of labelled calls. */
module RateLimitBooks {
  import opened Wrappers
  import opened RateLimitSpec
  import opened RateLimitTables
  import opened RateLimitSteps
  import opened RateLimitTheorems

  // ----- The ledger -----

  predicate Settles(op: Op) {
    op.ReleaseOp? || (op.FailureOp? && op.reserved) || (op.SuccessOp? && op.reserved)
  }

  /** A call of the limiter; `attempt` says which sign-in attempt it belongs to. */
  datatype Call = Call(event: Event, attempt: nat)

  /** The attempts whose reservation was granted and not yet settled, with their input. */
  type Ledger = map<nat, Input>

  function Entered(l: Ledger, c: Call, reply: Reply): Ledger {
    if c.event.op.ReserveOp? && reply.Allowed? then l[c.attempt := c.event.op.input]
    else if Settles(c.event.op) then l - {c.attempt}
    else l
  }

  function Outstanding(l: Ledger, a: Addr): set<nat> { set id | id in l && l[id].Targets(a) }

  /** An attempt reserves again only when its earlier reservation is settled, and settles with
      the input it reserved with. */
  predicate Labelled(l: Ledger, c: Call) {
    && (c.event.op.ReserveOp? ==> c.attempt !in l)
    && (Settles(c.event.op) && c.attempt in l ==> l[c.attempt] == c.event.op.input)
  }

  /** The settlement settles something: its attempt has an outstanding reservation. */
  predicate Matched(l: Ledger, c: Call) { Settles(c.event.op) ==> c.attempt in l }

  /** Pending attempts are exactly the outstanding reservations. */
  predicate Booked(l: Ledger, a: Addr, slot: Slot) {
    |Outstanding(l, a)| == if slot.None? then 0 else slot.value.pendingAttempts
  }

  predicate WithinLimit(o: Options, w: Which, slot: Slot) {
    slot.None? || slot.value.attempts + slot.value.pendingAttempts <= o.MaxFailures(w)
  }

  /** What the books of `a` ask of the surroundings: when the window of the bucket has ended,
      everything in it is settled, and the bucket is neither evicted nor, for an email, cleared
      by a success. */
  ghost predicate Kept(o: Options, s: State, c: Call, l: Ledger, a: Addr) {
    && Labelled(l, c)
    && (c.event.op.input.Targets(a) && a.which.Email? ==> !c.event.op.SuccessOp?)
    && (s.Slot(a).Some? && s.Slot(a).value.windowExpiresAt <= c.event.now ==> Outstanding(l, a) == {})
    && (a.which.Global? || Roomy(o, s, c.event, a.which))
  }

  /** The callers' discipline: every settlement settles an outstanding reservation, and every
      failure is one. */
  ghost predicate Disciplined(o: Options, s: State, c: Call, l: Ledger, a: Addr) {
    && Kept(o, s, c, l, a)
    && (c.event.op.input.Targets(a) ==> Matched(l, c) && (c.event.op.FailureOp? ==> c.event.op.reserved))
  }

  /** A settlement that settles nothing is harmless only while nobody else's reservation is
      outstanding. */
  predicate Harmless(l: Ledger, c: Call, a: Addr) {
    c.event.op.input.Targets(a) ==> Matched(l, c) || Outstanding(l, a) == {}
  }

  // ----- One call and the books -----

  /** How many reservations of `a` are outstanding after one more call. */
  lemma OutstandingAfter(l: Ledger, c: Call, reply: Reply, a: Addr)
    requires Labelled(l, c)
    ensures var n, n' := |Outstanding(l, a)|, |Outstanding(Entered(l, c, reply), a)|;
      n' == if !c.event.op.input.Targets(a) then n
            else if c.event.op.ReserveOp? && reply.Allowed? then n + 1
            else if Settles(c.event.op) && c.attempt in l then n - 1
            else n
  {
    var before, after, id := Outstanding(l, a), Outstanding(Entered(l, c, reply), a), c.attempt;
    if c.event.op.ReserveOp? && reply.Allowed? {
      assert after == if c.event.op.input.Targets(a) then before + {id} else before;
    } else if Settles(c.event.op) {
      assert after == before - {id};
      assert id in before <==> id in l && c.event.op.input.Targets(a);
    }
  }

  /** What a call does to the pending count of a bucket. */
  function PendingAfter(p: nat, targets: bool, op: Op, reply: Reply): nat {
    if !targets then p
    else if op.ReserveOp? && reply.Allowed? then p + 1
    else if Settles(op) && p > 0 then p - 1
    else p
  }

  function Pending(slot: Slot): nat { if slot.None? then 0 else slot.value.pendingAttempts }

  lemma AfterPending(o: Options, slot: Slot, a: Addr, e: Event, reply: Reply)
    requires e.op.input.Targets(a) && a.which.Email? ==> !e.op.SuccessOp?
    requires slot.Some? && slot.value.windowExpiresAt <= e.now ==> Pending(slot) == 0
    ensures Pending(After(o, slot, a, e, reply)) == PendingAfter(Pending(slot), e.op.input.Targets(a), e.op, reply)
  {
  }

  /** A bucket is dropped only with its window over, when it holds no pending attempt. */
  lemma StepPending(o: Options, s: State, e: Event, a: Addr)
    requires o.windowMs >= 1 && ValidState(s) && (a.which.Global? || Roomy(o, s, e, a.which))
    requires e.op.input.Targets(a) && a.which.Email? ==> !e.op.SuccessOp?
    requires s.Slot(a).Some? && s.Slot(a).value.windowExpiresAt <= e.now ==> Pending(s.Slot(a)) == 0
    ensures var n := PendingAfter(Pending(s.Slot(a)), e.op.input.Targets(a), e.op, Step(o, s, e).1);
      Pending(Step(o, s, e).0.Slot(a)) == n
  {
    var slot, slot', reply := s.Slot(a), Step(o, s, e).0.Slot(a), Step(o, s, e).1;
    SlotStep(o, s, e, a);
    GlobalIsRoomy(o, s, e);
    AfterPending(o, slot, a, e, reply);
    DroppedIsEmpty(o, slot, a, e, slot', reply);
  }

  lemma DroppedIsEmpty(o: Options, slot: Slot, a: Addr, e: Event, slot': Slot, reply: Reply)
    requires o.windowMs >= 1 && SlotMoves(o, slot, a, e, slot', reply, true)
    requires slot.Some? && slot.value.windowExpiresAt <= e.now ==> Pending(slot) == 0
    ensures Pending(slot') == Pending(After(o, slot, a, e, reply))
  {
  }

  /** From matching books: they match after a call if and only if the call is harmless. */
  lemma CallKeepsBooks(o: Options, s: State, c: Call, l: Ledger, a: Addr)
    requires o.windowMs >= 1 && ValidState(s) && Booked(l, a, s.Slot(a)) && Kept(o, s, c, l, a)
    ensures Booked(Entered(l, c, Step(o, s, c.event).1), a, Step(o, s, c.event).0.Slot(a)) <==> Harmless(l, c, a)
  {
    StepPending(o, s, c.event, a);
    OutstandingAfter(l, c, Step(o, s, c.event).1, a);
    assert Outstanding(l, a) == {} <==> |Outstanding(l, a)| == 0;
  }

  // ----- Runs and the books -----

  ghost predicate RunKept(o: Options, s: State, calls: seq<Call>, l: Ledger, a: Addr)
    decreases |calls|
  {
    |calls| == 0
    || (&& Kept(o, s, calls[0], l, a)
        && RunKept(o, Step(o, s, calls[0].event).0, calls[1..], Entered(l, calls[0], Step(o, s, calls[0].event).1), a))
  }

  /** The books match after every call of the run. */
  ghost predicate AlwaysBooked(o: Options, s: State, calls: seq<Call>, l: Ledger, a: Addr)
    decreases |calls|
  {
    && Booked(l, a, s.Slot(a))
    && (|calls| > 0 ==>
          AlwaysBooked(o, Step(o, s, calls[0].event).0, calls[1..], Entered(l, calls[0], Step(o, s, calls[0].event).1), a))
  }

  ghost predicate RunHarmless(o: Options, s: State, calls: seq<Call>, l: Ledger, a: Addr)
    decreases |calls|
  {
    |calls| == 0
    || (&& Harmless(l, calls[0], a)
        && RunHarmless(o, Step(o, s, calls[0].event).0, calls[1..], Entered(l, calls[0], Step(o, s, calls[0].event).1), a))
  }

  /** Main result: the pending count of a bucket equals the outstanding reservations throughout
      a run if and only if every settlement either settles an outstanding reservation or comes
      while none is outstanding at that bucket.  A second settlement of one attempt while
      another is outstanding always breaks the books. */
  lemma {:induction false} BooksMatchExactlyWhen(o: Options, s: State, calls: seq<Call>, l: Ledger, a: Addr)
    requires o.windowMs >= 1 && ValidState(s) && Booked(l, a, s.Slot(a)) && RunKept(o, s, calls, l, a)
    ensures AlwaysBooked(o, s, calls, l, a) <==> RunHarmless(o, s, calls, l, a)
    decreases |calls|
  {
    if |calls| > 0 {
      var c := calls[0];
      var s', l' := Step(o, s, c.event).0, Entered(l, c, Step(o, s, c.event).1);
      CallKeepsBooks(o, s, c, l, a);
      StepKeepsValid(o, s, c.event);
      if Harmless(l, c, a) {
        BooksMatchExactlyWhen(o, s', calls[1..], l', a);
      } else {
        NotBooked(o, s', calls[1..], l', a);
      }
    }
  }

  lemma NotBooked(o: Options, s: State, calls: seq<Call>, l: Ledger, a: Addr)
    requires !Booked(l, a, s.Slot(a))
    ensures !AlwaysBooked(o, s, calls, l, a)
  {
  }

  // ----- The limit -----

  ghost predicate RunDisciplined(o: Options, s: State, calls: seq<Call>, l: Ledger, a: Addr)
    decreases |calls|
  {
    |calls| == 0
    || (&& Disciplined(o, s, calls[0], l, a)
        && RunDisciplined(o, Step(o, s, calls[0].event).0, calls[1..], Entered(l, calls[0], Step(o, s, calls[0].event).1), a))
  }

  function Events(calls: seq<Call>): seq<Event>
  {
    if |calls| == 0 then [] else [calls[0].event] + Events(calls[1..])
  }

  /** The ledger a run ends with. */
  function RunLedger(o: Options, s: State, calls: seq<Call>, l: Ledger): Ledger
    decreases |calls|
  {
    if |calls| == 0 then l
    else RunLedger(o, Step(o, s, calls[0].event).0, calls[1..], Entered(l, calls[0], Step(o, s, calls[0].event).1))
  }

  /** A granted reservation found room in every one of its buckets. */
  lemma GrantHadRoom(o: Options, v: Slots, i: Input, w: Which, now: nat)
    requires o.windowMs >= 1 && i.Key(w).Some? && FirstOverflow(o, v, i, now) <= 0
    ensures var b := Current(v.Get(w), now, o); b.attempts + b.pendingAttempts < o.MaxFailures(w)
  {
    assert OverflowOf(o, v, i, Global, now) <= 0 && OverflowOf(o, v, i, Email, now) <= 0 && OverflowOf(o, v, i, Ip, now) <= 0;
  }

  lemma AfterWithinLimit(o: Options, slot: Slot, a: Addr, e: Event, reply: Reply)
    requires WithinLimit(o, a.which, slot)
    requires e.op.FailureOp? && e.op.input.Targets(a) ==>
      e.op.reserved && slot.Some? && slot.value.windowExpiresAt > e.now && slot.value.pendingAttempts > 0
    requires e.op.ReserveOp? && reply.Allowed? && e.op.input.Targets(a) ==>
      var b := Current(slot, e.now, o); b.attempts + b.pendingAttempts < o.MaxFailures(a.which)
    ensures WithinLimit(o, a.which, After(o, slot, a, e, reply))
  {
  }

  lemma GrantedHasRoom(o: Options, s: State, e: Event, a: Addr)
    requires o.windowMs >= 1 && ValidState(s)
    requires e.op.ReserveOp? && Step(o, s, e).1.Allowed? && e.op.input.Targets(a)
    ensures var b := Current(s.Slot(a), e.now, o); b.attempts + b.pendingAttempts < o.MaxFailures(a.which)
  {
    StepAnswers(o, s, e);
    GrantHadRoom(o, s.At(e.op.input), e.op.input, a.which, e.now);
    assert s.At(e.op.input).Get(a.which) == s.Slot(a);
  }

  lemma CallKeepsLimit(o: Options, s: State, c: Call, l: Ledger, a: Addr)
    requires o.windowMs >= 1 && ValidState(s) && Disciplined(o, s, c, l, a)
    requires Booked(l, a, s.Slot(a)) && WithinLimit(o, a.which, s.Slot(a))
    ensures WithinLimit(o, a.which, Step(o, s, c.event).0.Slot(a))
  {
    var e, slot, reply := c.event, s.Slot(a), Step(o, s, c.event).1;
    if e.op.ReserveOp? && reply.Allowed? && e.op.input.Targets(a) {
      GrantedHasRoom(o, s, e, a);
    }
    if e.op.FailureOp? && e.op.input.Targets(a) {
      assert c.attempt in Outstanding(l, a);
    }
    AfterWithinLimit(o, slot, a, e, reply);
    SlotStep(o, s, e, a);
    assert KeptOrDropped(After(o, slot, a, e, reply), Step(o, s, e).0.Slot(a));
  }

  /** Main result: on every disciplined run the pending count of a bucket is exactly the
      number of outstanding reservations, and failures and pending attempts together never
      exceed its limit. */
  lemma {:induction false} RunBalances(o: Options, s: State, calls: seq<Call>, l: Ledger, a: Addr)
    requires o.windowMs >= 1 && ValidState(s) && RunDisciplined(o, s, calls, l, a)
    requires Booked(l, a, s.Slot(a)) && WithinLimit(o, a.which, s.Slot(a))
    ensures var end := Run(o, s, Events(calls)).Slot(a);
      Booked(RunLedger(o, s, calls, l), a, end) && WithinLimit(o, a.which, end)
    decreases |calls|
  {
    if |calls| > 0 {
      var c := calls[0];
      var s', l' := Step(o, s, c.event).0, Entered(l, c, Step(o, s, c.event).1);
      CallKeepsBooks(o, s, c, l, a);
      CallKeepsLimit(o, s, c, l, a);
      StepKeepsValid(o, s, c.event);
      RunBalances(o, s', calls[1..], l', a);
      assert Events(calls)[0] == c.event && Events(calls)[1..] == Events(calls[1..]);
    }
  }

  /** From an empty limiter: the global bucket, which nothing ever evicts, books exactly the
      outstanding reservations and never more than the global limit. */
  lemma GlobalBooksBalance(o: Options, calls: seq<Call>)
    requires o.windowMs >= 1 && RunDisciplined(o, EMPTY, calls, map[], Addr(Global, "global"))
    ensures var a := Addr(Global, "global"); var end := Run(o, EMPTY, Events(calls)).Slot(a);
      Booked(RunLedger(o, EMPTY, calls, map[]), a, end) && WithinLimit(o, Global, end)
  {
    assert Outstanding(map[], Addr(Global, "global")) == {};
    RunBalances(o, EMPTY, calls, map[], Addr(Global, "global"));
  }

  // ----- A login that settles twice -----

  /** Attempt 0 of `x` signs in, a step after it throws and its reservation is released again,
      while attempt 1 of `y` is under way. */
  function TwiceSettled(x: Input, y: Input, now: nat): seq<Call> {
    [Call(Event(now, ReserveOp(x)), 0), Call(Event(now, ReserveOp(y)), 1),
     Call(Event(now, SuccessOp(x, true)), 0), Call(Event(now, ReleaseOp(x)), 0)]
  }

  /** A first reservation of fresh keys is granted while the global bucket has room. */
  lemma FreshKeysAreGranted(o: Options, s: State, i: Input, now: nat)
    requires o.windowMs >= 1 && o.maxFailures >= 1 && ValidState(s)
    requires forall w :: w != Global ==> s.SlotOf(i, w).None?
    requires var b := Current(s.Slot(Addr(Global, "global")), now, o); b.attempts + b.pendingAttempts < o.maxGlobalFailures
    requires s.Slot(Addr(Global, "global")).Some? ==> s.Slot(Addr(Global, "global")).value.blockedUntil <= now
    ensures Reserve(o, s, i, now).1.Allowed?
  {
    forall a | i.Targets(a) && s.Slot(a).Some?
      ensures s.Slot(a).value.blockedUntil <= now
    {
      assert a.which != Global ==> s.SlotOf(i, a.which) == s.Slot(a);
    }
    CheckAllowedExactlyWhen(s, i, now);
    assert s.SlotOf(i, Global) == s.Slot(Addr(Global, "global"));
    ReserveGrantedExactlyWhen(o, s, i, now);
  }

  /** What the global bucket is after each of the four calls. */
  predicate GlobalIs(s: State, pending: nat, window: int) {
    s.Slot(Addr(Global, "global")) == Some(Bucket(0, pending, window, 0))
  }

  lemma GlobalMoves(o: Options, slot: Slot, e: Event, slot': Slot, reply: Reply, pending: nat)
    requires o.windowMs >= 1 && !e.op.CheckOp? && !e.op.FailureOp?
    requires SlotMoves(o, slot, Addr(Global, "global"), e, slot', reply, true)
    requires slot == Some(Bucket(0, pending, e.now + o.windowMs, 0))
      || (slot.None? && pending == 0 && e.op.ReserveOp? && reply.Allowed?)
    ensures slot' == Some(Bucket(0, PendingAfter(pending, true, e.op, reply), e.now + o.windowMs, 0))
  {
    assert e.op.input.Targets(Addr(Global, "global"));
  }

  lemma GlobalAfter(o: Options, s: State, e: Event, pending: nat)
    requires o.windowMs >= 1 && ValidState(s) && !e.op.CheckOp? && !e.op.FailureOp?
    requires GlobalIs(s, pending, e.now + o.windowMs)
      || (s.Slot(Addr(Global, "global")).None? && pending == 0 && e.op.ReserveOp? && Step(o, s, e).1.Allowed?)
    ensures GlobalIs(Step(o, s, e).0, PendingAfter(pending, true, e.op, Step(o, s, e).1), e.now + o.windowMs)
  {
    var a := Addr(Global, "global");
    SlotStep(o, s, e, a);
    GlobalIsRoomy(o, s, e);
    GlobalMoves(o, s.Slot(a), e, Step(o, s, e).0.Slot(a), Step(o, s, e).1, pending);
  }

  lemma FirstReservation(o: Options, x: Input, now: nat)
    requires o.windowMs >= 1 && o.maxFailures >= 1 && o.maxGlobalFailures >= 1
    ensures var (s, reply) := Step(o, EMPTY, Event(now, ReserveOp(x)));
      reply == Allowed && ValidState(s) && GlobalIs(s, 1, now + o.windowMs)
  {
    var e := Event(now, ReserveOp(x));
    EmptyHasNoSlots(x);
    FreshKeysAreGranted(o, EMPTY, x, now);
    StepKeepsValid(o, EMPTY, e);
    GlobalAfter(o, EMPTY, e, 0);
  }

  lemma EmptyHasNoSlots(x: Input)
    ensures ValidState(EMPTY) && (forall a: Addr :: EMPTY.Slot(a).None?) && (forall w :: EMPTY.SlotOf(x, w).None?)
  {
  }

  /** A reservation leaves the slots of other keys empty. */
  lemma OthersStayEmpty(o: Options, x: Input, now: nat, a: Addr)
    requires !x.Targets(a)
    ensures Step(o, EMPTY, Event(now, ReserveOp(x))).0.Slot(a).None?
  {
    EmptyHasNoSlots(x);
    SlotStep(o, EMPTY, Event(now, ReserveOp(x)), a);
  }

  lemma SecondReservation(o: Options, s: State, y: Input, now: nat)
    requires o.windowMs >= 1 && o.maxFailures >= 1 && o.maxGlobalFailures >= 2 && y.Key(Ip).None?
    requires ValidState(s) && GlobalIs(s, 1, now + o.windowMs) && s.Slot(Addr(Email, y.EmailKey())).None?
    ensures var (s', reply) := Step(o, s, Event(now, ReserveOp(y)));
      reply == Allowed && ValidState(s') && GlobalIs(s', 2, now + o.windowMs)
  {
    assert s.SlotOf(y, Email) == s.Slot(Addr(Email, y.EmailKey())) && s.SlotOf(y, Ip).None?;
    FreshKeysAreGranted(o, s, y, now);
    GlobalAfter(o, s, Event(now, ReserveOp(y)), 1);
    StepKeepsValid(o, s, Event(now, ReserveOp(y)));
  }

  /** State and ledger at the end of a run. */
  function End(o: Options, s: State, calls: seq<Call>, l: Ledger): (State, Ledger) {
    (Run(o, s, Events(calls)), RunLedger(o, s, calls, l))
  }

  /** One call takes state and ledger from `s` and `l` to `s'` and `l'`. */
  predicate Goes(o: Options, s: State, l: Ledger, c: Call, s': State, l': Ledger) {
    Step(o, s, c.event).0 == s' && Entered(l, c, Step(o, s, c.event).1) == l'
  }

  lemma EndOfCons(o: Options, s: State, c: Call, calls: seq<Call>, l: Ledger, s': State, l': Ledger)
    requires Goes(o, s, l, c, s', l')
    ensures End(o, s, [c] + calls, l) == End(o, s', calls, l')
  {
    assert ([c] + calls)[1..] == calls;
    assert Events([c] + calls)[1..] == Events(calls);
  }

  lemma EndOfTwo(o: Options, s: State, l: Ledger, c: Call, s': State, l': Ledger, d: Call, s'': State, l'': Ledger, calls: seq<Call>)
    requires Goes(o, s, l, c, s', l') && Goes(o, s', l', d, s'', l'')
    ensures End(o, s, [c, d] + calls, l) == End(o, s'', calls, l'')
  {
    assert [c, d] + calls == [c] + ([d] + calls);
    EndOfCons(o, s, c, [d] + calls, l, s', l');
    EndOfCons(o, s', d, calls, l', s'', l'');
  }

  /** The concrete run: it ends with no pending attempt at the global bucket although attempt 1
      is outstanding. */
  lemma SettlingTwiceUnbalances(o: Options, x: Input, y: Input, now: nat)
    requires o.windowMs >= 1 && o.maxFailures >= 1 && o.maxGlobalFailures >= 2
    requires x.EmailKey() != y.EmailKey() && x.Key(Ip).None? && y.Key(Ip).None?
    ensures var (end, l) := End(o, EMPTY, TwiceSettled(x, y, now), map[]);
      GlobalIs(end, 0, now + o.windowMs) && l == map[1 := y] && |Outstanding(l, Addr(Global, "global"))| == 1
  {
    var s2 := TwoReserved(o, x, y, now);
    var s4 := SettledTwice(o, s2, x, y, now);
    assert TwiceSettled(x, y, now) == Reserves(x, y, now) + (Settlements(x, now) + []);
    assert Outstanding(map[1 := y], Addr(Global, "global")) == {1};
  }

  function Reserves(x: Input, y: Input, now: nat): seq<Call> {
    [Call(Event(now, ReserveOp(x)), 0), Call(Event(now, ReserveOp(y)), 1)]
  }

  function Settlements(x: Input, now: nat): seq<Call> {
    [Call(Event(now, SuccessOp(x, true)), 0), Call(Event(now, ReleaseOp(x)), 0)]
  }

  lemma TwoReserved(o: Options, x: Input, y: Input, now: nat) returns (s2: State)
    requires o.windowMs >= 1 && o.maxFailures >= 1 && o.maxGlobalFailures >= 2
    requires x.EmailKey() != y.EmailKey() && x.Key(Ip).None? && y.Key(Ip).None?
    ensures ValidState(s2) && GlobalIs(s2, 2, now + o.windowMs)
    ensures forall calls :: End(o, EMPTY, Reserves(x, y, now) + calls, map[]) == End(o, s2, calls, map[0 := x, 1 := y])
  {
    var c0, c1 := Call(Event(now, ReserveOp(x)), 0), Call(Event(now, ReserveOp(y)), 1);
    FirstReservation(o, x, now);
    var s1 := Step(o, EMPTY, c0.event).0;
    assert !x.Targets(Addr(Email, y.EmailKey()));
    OthersStayEmpty(o, x, now, Addr(Email, y.EmailKey()));
    SecondReservation(o, s1, y, now);
    s2 := Step(o, s1, c1.event).0;
    assert map[0 := x][1 := y] == map[0 := x, 1 := y];
    assert Goes(o, EMPTY, map[], c0, s1, map[0 := x]) && Goes(o, s1, map[0 := x], c1, s2, map[0 := x, 1 := y]);
    forall calls
      ensures End(o, EMPTY, Reserves(x, y, now) + calls, map[]) == End(o, s2, calls, map[0 := x, 1 := y])
    {
      EndOfTwo(o, EMPTY, map[], c0, s1, map[0 := x], c1, s2, map[0 := x, 1 := y], calls);
    }
  }

  /** Success and release, both of attempt 0, with two attempts pending before them. */
  lemma SettledTwice(o: Options, s: State, x: Input, y: Input, now: nat) returns (s4: State)
    requires o.windowMs >= 1 && ValidState(s) && GlobalIs(s, 2, now + o.windowMs)
    ensures GlobalIs(s4, 0, now + o.windowMs)
    ensures End(o, s, Settlements(x, now) + [], map[0 := x, 1 := y]) == (s4, map[1 := y])
  {
    var c2, c3 := Call(Event(now, SuccessOp(x, true)), 0), Call(Event(now, ReleaseOp(x)), 0);
    var s3 := Step(o, s, c2.event).0;
    s4 := Step(o, s3, c3.event).0;
    GlobalAfter(o, s, c2.event, 2);
    StepKeepsValid(o, s, c2.event);
    GlobalAfter(o, s3, c3.event, 1);
    LedgerWithout(x, y);
    assert Goes(o, s, map[0 := x, 1 := y], c2, s3, map[1 := y]) && Goes(o, s3, map[1 := y], c3, s4, map[1 := y]);
    EndOfTwo(o, s, map[0 := x, 1 := y], c2, s3, map[1 := y], c3, s4, map[1 := y], []);
  }

  lemma LedgerWithout(x: Input, y: Input)
    ensures var l: Ledger := map[0 := x, 1 := y]; l - {0} == map[1 := y]
    ensures var l: Ledger := map[1 := y]; l - {0} == l
  {
  }

  // ----- Discipline and blocks -----

  /** A disciplined caller cannot lift a block either: a failure after the window has ended would
      settle a reservation made in it. */
  lemma DisciplineLeavesBlocks(o: Options, s: State, c: Call, l: Ledger, a: Addr, window: int, until: int)
    requires ValidState(s) && HeldUntil(s.Slot(a), window, until) && Disciplined(o, s, c, l, a)
    ensures Undisturbed(o, s, c.event, a, window)
  {
    GlobalIsRoomy(o, s, c.event);
    if FailsAt(c.event, a) {
      assert c.attempt in Outstanding(l, a);
    }
  }

  /** Main result: on every disciplined run, until its end a block denies every check and every
      reservation for its key. */
  lemma {:induction false} DisciplinedBlockHolds(o: Options, s: State, t: nat, calls: seq<Call>, l: Ledger, a: Addr,
                                                 window: int, until: int, n: nat)
    requires ValidState(s) && Ordered(t, Events(calls)) && n < |calls|
    requires forall c :: c in calls ==> c.event.now < until
    requires Sound(o, a.which, s.Slot(a), t) && HeldUntil(s.Slot(a), window, until)
    requires RunDisciplined(o, s, calls, l, a)
    ensures |Replies(o, s, Events(calls))| == |calls| == |Events(calls)|
    ensures var e := calls[n].event;
      e.op.input.Targets(a) && (e.op.CheckOp? || e.op.ReserveOp?) ==> Replies(o, s, Events(calls))[n].Denied?
    decreases |calls|
  {
    var c := calls[0];
    assert c in calls;
    assert Events(calls)[0] == c.event && Events(calls)[1..] == Events(calls[1..]);
    DisciplineLeavesBlocks(o, s, c, l, a, window, until);
    StepHolds(o, s, t, c.event, a, window, until);
    StepKeepsSound(o, s, c.event, a, t);
    StepKeepsValid(o, s, c.event);
    if |calls| > 1 {
      DisciplinedBlockHolds(o, Step(o, s, c.event).0, c.event.now, calls[1..], Entered(l, c, Step(o, s, c.event).1), a,
                            window, until, if n == 0 then 0 else n - 1);
    }
  }
}
