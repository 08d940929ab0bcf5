/** What the rate limiter promises over whole runs. */
module RateLimitTheorems {
  import opened Wrappers
  import opened RateLimitSpec
  import opened RateLimitTables
  import opened RateLimitSteps

  lemma SlotStep(o: Options, s: State, e: Event, a: Addr)
    requires ValidState(s)
    ensures SlotMoves(o, s.Slot(a), a, e, Step(o, s, e).0.Slot(a), Step(o, s, e).1, Roomy(o, s, e, a.which))
  {
    StepMoves(o, s, e, a.which);
    assert SlotMoves(o, Find(s.Get(a.which), a.key), Addr(a.which, a.key), e,
                     Find(Step(o, s, e).0.Get(a.which), a.key), Step(o, s, e).1, Roomy(o, s, e, a.which));
  }

  /** The single global entry never needs an eviction. */
  lemma GlobalIsRoomy(o: Options, s: State, e: Event)
    requires ValidState(s)
    ensures Roomy(o, s, e, Global)
  {
    assert LiveKeys(s.global.at, e.now) + {"global"} == {"global"};
  }

  // ----- Pruning, lazy expiry and the insertion order are invisible -----

  ghost predicate Same(s: State, m: Memory, now: nat) {
    forall a: Addr :: Alive(s.Slot(a), now) == Alive(Lookup(m, a), now)
  }

  ghost function RememberedLive(m: Memory, w: Which, now: nat): set<string> {
    set a | a in m && a.which == w && !Dead(m[a], now) :: a.key
  }

  /** Counting the key of a bucket to be stored, no more unexpired keys are remembered than the
      caps allow.  A denied attempt stores nothing and may meet a full table. */
  ghost predicate WithinCaps(o: Options, m: Memory, e: Event) {
    forall w: Which :: w != Global && Stores(e.op, Answer(o, Recall(m, e.op.input), e)) && e.op.input.Key(w).Some? ==>
      |RememberedLive(m, w, e.now) + {e.op.input.Key(w).value}| <= o.Cap(w)
  }

  ghost predicate RunWithinCaps(o: Options, m: Memory, events: seq<Event>)
    decreases |events|
  {
    |events| == 0 || (WithinCaps(o, m, events[0]) && RunWithinCaps(o, Remember(o, m, events[0]), events[1..]))
  }

  lemma SameLater(s: State, m: Memory, t: nat, now: nat)
    requires Same(s, m, t) && t <= now
    ensures Same(s, m, now)
  {
    forall a: Addr
      ensures Alive(s.Slot(a), now) == Alive(Lookup(m, a), now)
    {
      assert Alive(s.Slot(a), t) == Alive(Lookup(m, a), t);
    }
  }

  lemma SameLiveKeys(s: State, m: Memory, w: Which, now: nat)
    requires Same(s, m, now)
    ensures LiveKeys(s.Get(w).at, now) == RememberedLive(m, w, now)
  {
    forall k
      ensures k in LiveKeys(s.Get(w).at, now) <==> k in RememberedLive(m, w, now)
    {
      var a := Addr(w, k);
      assert Alive(s.Slot(a), now) == Alive(Lookup(m, a), now);
      if k in RememberedLive(m, w, now) {
        var b :| b in m && b.which == w && !Dead(m[b], now) && b.key == k;
        assert b == a;
      }
    }
  }

  lemma RememberAt(o: Options, m: Memory, e: Event, a: Addr)
    ensures Lookup(Remember(o, m, e), a) == After(o, Lookup(m, a), a, e, Answer(o, Recall(m, e.op.input), e))
  {
    AddressesAreTargets(e.op.input, a);
  }

  lemma SameAnswers(o: Options, s: State, m: Memory, e: Event)
    requires ValidState(s) && Same(s, m, e.now)
    ensures Step(o, s, e).1 == Answer(o, Recall(m, e.op.input), e)
  {
    StepAnswers(o, s, e);
    var i := e.op.input;
    forall w: Which
      ensures Alive(s.At(i).Get(w), e.now) == Alive(Recall(m, i).Get(w), e.now)
    {
      if i.Key(w).Some? {
        var a := Addr(w, i.Key(w).value);
        assert Alive(s.Slot(a), e.now) == Alive(Lookup(m, a), e.now);
      }
    }
    LiveSlotsDecide(o, s.At(i), Recall(m, i), e);
  }

  lemma StepAgrees(o: Options, s: State, m: Memory, e: Event)
    requires ValidState(s) && Same(s, m, e.now) && WithinCaps(o, m, e)
    ensures Step(o, s, e).1 == Answer(o, Recall(m, e.op.input), e)
    ensures Same(Step(o, s, e).0, Remember(o, m, e), e.now)
  {
    SameAnswers(o, s, m, e);
    forall a: Addr
      ensures Alive(Step(o, s, e).0.Slot(a), e.now) == Alive(Lookup(Remember(o, m, e), a), e.now)
    {
      SlotAgrees(o, s, m, e, a);
    }
  }

  lemma RoomyWithinCaps(o: Options, s: State, m: Memory, e: Event, w: Which)
    requires ValidState(s) && Same(s, m, e.now) && WithinCaps(o, m, e)
    ensures Roomy(o, s, e, w)
  {
    SameAnswers(o, s, m, e);
    GlobalIsRoomy(o, s, e);
    SameLiveKeys(s, m, w, e.now);
  }

  lemma SlotAgrees(o: Options, s: State, m: Memory, e: Event, a: Addr)
    requires ValidState(s) && Same(s, m, e.now) && WithinCaps(o, m, e)
    ensures Alive(Step(o, s, e).0.Slot(a), e.now) == Alive(Lookup(Remember(o, m, e), a), e.now)
  {
    var reply := Step(o, s, e).1;
    SameAnswers(o, s, m, e);
    RoomyWithinCaps(o, s, m, e, a.which);
    SlotStep(o, s, e, a);
    RememberAt(o, m, e, a);
    assert Alive(s.Slot(a), e.now) == Alive(Lookup(m, a), e.now);
    LiveSlotsPersist(o, s.Slot(a), Lookup(m, a), a.which, e.op, reply, e.now);
  }

  /** Main result: with a monotone clock and never more unexpired keys than the caps, every
      reply of every run is the reply of the limiter that forgets nothing. */
  lemma {:induction false} RunAgrees(o: Options, s: State, m: Memory, t: nat, events: seq<Event>)
    requires ValidState(s) && Same(s, m, t) && Ordered(t, events) && RunWithinCaps(o, m, events)
    ensures Replies(o, s, events) == Recollections(o, m, events)
    decreases |events|
  {
    if |events| > 0 {
      var e := events[0];
      SameLater(s, m, t, e.now);
      StepAgrees(o, s, m, e);
      StepKeepsValid(o, s, e);
      RunAgrees(o, Step(o, s, e).0, Remember(o, m, e), e.now, events[1..]);
    }
  }

  lemma FreshLimiterAgrees(o: Options, events: seq<Event>)
    requires Ordered(0, events) && RunWithinCaps(o, map[], events)
    ensures Replies(o, EMPTY, events) == Recollections(o, map[], events)
  {
    RunAgrees(o, EMPTY, map[], 0, events);
  }

  // ----- Denied attempts leave no trace -----

  /** A denied reservation changes no live counter in any of the three tables. */
  lemma DeniedReserveIsInvisible(o: Options, s: State, i: Input, now: nat, a: Addr)
    requires ValidState(s) && Reserve(o, s, i, now).1.Denied?
    ensures Alive(Reserve(o, s, i, now).0.Slot(a), now) == Alive(s.Slot(a), now)
  {
    LookedAtShadow(o, s, i, a.which, now);
    ShadowKeepsLive(s.Get(a.which), Reserve(o, s, i, now).0.Get(a.which), now);
  }

  // ----- Memory is bounded -----

  ghost predicate WithinTableCaps(o: Options, s: State) {
    forall w :: |s.Get(w).order| <= o.Cap(w)
  }

  lemma {:induction false} RunStaysWithinCaps(o: Options, s: State, events: seq<Event>)
    requires o.maxTrackedEmails >= 1 && o.maxTrackedIps >= 1
    requires ValidState(s) && WithinTableCaps(o, s)
    ensures ValidState(Run(o, s, events)) && WithinTableCaps(o, Run(o, s, events))
    decreases |events|
  {
    if |events| > 0 {
      StepKeepsValid(o, s, events[0]);
      forall w
        ensures |Step(o, s, events[0]).0.Get(w).order| <= o.Cap(w)
      {
        assert |s.Get(w).order| <= o.Cap(w);
        StepKeepsCap(o, s, events[0], w);
      }
      RunStaysWithinCaps(o, Step(o, s, events[0]).0, events[1..]);
    }
  }

  lemma StepKeepsCap(o: Options, s: State, e: Event, w: Which)
    requires ValidState(s) && o.Cap(w) >= 1 && |s.Get(w).order| <= o.Cap(w)
    ensures |Step(o, s, e).0.Get(w).order| <= o.Cap(w)
  {
    StepMoves(o, s, e, w);
  }

  // ----- When an attempt is allowed -----

  /** A check is allowed exactly when no key of the caller has a block that has yet to end. */
  lemma CheckAllowedExactlyWhen(s: State, i: Input, now: nat)
    ensures Check(s, i, now).1.Allowed? <==>
      forall a :: i.Targets(a) && s.Slot(a).Some? ==> s.Slot(a).value.blockedUntil <= now
  {
    if Check(s, i, now).1.Allowed? {
      forall a | i.Targets(a) && s.Slot(a).Some?
        ensures s.Slot(a).value.blockedUntil <= now
      {
        RetryBelowMax(s.At(i), a.which, now);
      }
    } else {
      var a := DenyingTarget(s, i, now);
    }
  }

  /** A reservation is granted exactly when in addition each of its buckets, counted in its
      current window, has room for one more pending attempt. */
  lemma ReserveGrantedExactlyWhen(o: Options, s: State, i: Input, now: nat)
    requires o.windowMs >= 1 && ValidState(s)
    ensures Reserve(o, s, i, now).1.Allowed? <==>
      && Check(s, i, now).1.Allowed?
      && forall w: Which :: i.Key(w).Some? ==>
           var b := Current(s.SlotOf(i, w), now, o); b.attempts + b.pendingAttempts < o.MaxFailures(w)
  {
    ReserveAnswers(o, s, i, now);
    var v := s.At(i);
    forall w: Which
      ensures OverflowOf(o, v, i, w, now) <= 0 <==>
        (i.Key(w).Some? ==> var b := Current(s.SlotOf(i, w), now, o); b.attempts + b.pendingAttempts < o.MaxFailures(w))
    {
      assert v.Get(w) == s.SlotOf(i, w);
    }
    assert FirstOverflow(o, v, i, now) <= 0 <==> forall w :: OverflowOf(o, v, i, w, now) <= 0 by {
      OverflowFree(o, v, i, now);
    }
  }

  /** What a refused reservation is told: the wait of its longest block, as `check` reports it,
      or, for lack of room, the first full second past min(window, 30 s). */
  lemma ReserveAdvertises(o: Options, s: State, i: Input, now: nat)
    requires o.windowMs >= 1 && ValidState(s) && Reserve(o, s, i, now).1.Denied?
    ensures Check(s, i, now).1.Denied? ==> Reserve(o, s, i, now).1 == Check(s, i, now).1
    ensures Check(s, i, now).1.Allowed? ==>
      var r := Reserve(o, s, i, now).1.retryAfterSeconds;
      && 1 <= r <= 30 && 1000 * (r - 1) < o.windowMs
      && (1000 * r >= o.windowMs || r == 30)
  {
    ReserveAnswers(o, s, i, now);
    OverflowIsFixed(o, s.At(i), i, now);
  }

  /** All waits for lack of room are the same. */
  lemma OverflowIsFixed(o: Options, v: Slots, i: Input, now: nat)
    ensures FirstOverflow(o, v, i, now) == 0 || FirstOverflow(o, v, i, now) == Min(o.windowMs, MAX_RESERVATION_MS)
  {
  }

  lemma OverflowFree(o: Options, v: Slots, i: Input, now: nat)
    ensures FirstOverflow(o, v, i, now) <= 0 <==> forall w :: OverflowOf(o, v, i, w, now) <= 0
  {
    if FirstOverflow(o, v, i, now) <= 0 {
      forall w: Which
        ensures OverflowOf(o, v, i, w, now) <= 0
      {
        assert OverflowOf(o, v, i, Global, now) <= 0 && OverflowOf(o, v, i, Email, now) <= 0;
      }
    }
  }

  /** A success clears the email's record, block included, and nothing else: every other live
      bucket keeps its failures, its window and its block. */
  lemma SuccessForgetsOnlyTheEmail(o: Options, s: State, i: Input, reserved: bool, now: nat, a: Addr)
    requires ValidState(s)
    ensures var slot, slot' := s.Slot(a), Success(s, i, reserved, now).Slot(a);
      if a == Addr(Email, i.EmailKey()) then slot'.None?
      else if Alive(slot, now).None? then Alive(slot', now).None?
      else slot'.Some? && slot'.value == slot.value.(pendingAttempts := slot'.value.pendingAttempts)
  {
    SlotStep(o, s, Event(now, SuccessOp(i, reserved)), a);
  }

  // ----- Failures add up to a block -----

  function FailureCount(events: seq<Event>, a: Addr): nat
    decreases |events|
  {
    if |events| == 0 then 0 else (if FailsAt(events[0], a) then 1 else 0) + FailureCount(events[1..], a)
  }

  /** End of the block once `n` failures are counted and `events` have followed. */
  function BlockEnd(o: Options, events: seq<Event>, a: Addr, n: nat, until: int): int
    decreases |events|
  {
    if |events| == 0 then until
    else if !FailsAt(events[0], a) then BlockEnd(o, events[1..], a, n, until)
    else
      BlockEnd(o, events[1..], a, n + 1,
               if n + 1 >= o.MaxFailures(a.which) then events[0].now + o.blockMs else until)
  }

  predicate Counts(slot: Slot, window: int, n: nat, until: int) {
    slot.Some? && slot.value.windowExpiresAt == window && slot.value.attempts == n && slot.value.blockedUntil == until
  }

  lemma StepCounts(o: Options, s: State, e: Event, a: Addr, window: int, n: nat, until: int)
    requires ValidState(s) && Counts(s.Slot(a), window, n, until) && e.now < window
    requires Undisturbed(o, s, e, a, window)
    ensures var n' := if FailsAt(e, a) then n + 1 else n;
      Counts(Step(o, s, e).0.Slot(a), window, n',
             if FailsAt(e, a) && n' >= o.MaxFailures(a.which) then e.now + o.blockMs else until)
  {
    SlotStep(o, s, e, a);
  }

  /** `n` failures and a block until `until`, then `events`. */
  predicate Tallied(o: Options, slot: Slot, window: int, events: seq<Event>, a: Addr, n: nat, until: int) {
    Counts(slot, window, n + FailureCount(events, a), BlockEnd(o, events, a, n, until))
  }

  lemma TalliedFirst(o: Options, slot: Slot, window: int, events: seq<Event>, a: Addr, n: nat, until: int, n': nat, until': int)
    requires |events| > 0 && n' == (if FailsAt(events[0], a) then n + 1 else n)
    requires until' == if FailsAt(events[0], a) && n' >= o.MaxFailures(a.which) then events[0].now + o.blockMs else until
    ensures Tallied(o, slot, window, events, a, n, until) == Tallied(o, slot, window, events[1..], a, n', until')
  {
  }

  /** Main result: within its window a bucket counts every failure of its key, and from the
      limit on each failure starts a block of full length anew. */
  lemma {:induction false} FailuresAreCounted(o: Options, s: State, events: seq<Event>, a: Addr, window: int, n: nat, until: int)
    requires ValidState(s) && Counts(s.Slot(a), window, n, until)
    requires RunUndisturbed(o, s, events, a, window) && forall e :: e in events ==> e.now < window
    ensures Tallied(o, Run(o, s, events).Slot(a), window, events, a, n, until)
    decreases |events|
  {
    if |events| > 0 {
      var e := events[0];
      assert e in events;
      var n' := if FailsAt(e, a) then n + 1 else n;
      var until' := if FailsAt(e, a) && n' >= o.MaxFailures(a.which) then e.now + o.blockMs else until;
      StepCounts(o, s, e, a, window, n, until);
      StepKeepsValid(o, s, e);
      FailuresAreCounted(o, Step(o, s, e).0, events[1..], a, window, n', until');
      TalliedFirst(o, Run(o, s, events).Slot(a), window, events, a, n, until, n', until');
    }
  }

  /** The first failure of a key without a running window opens one of full length. */
  lemma FirstFailureOpensAWindow(o: Options, s: State, e: Event, a: Addr)
    requires o.windowMs >= 1 && ValidState(s) && FailsAt(e, a) && (a.which.Global? || Roomy(o, s, e, a.which))
    requires s.Slot(a).Some? ==> s.Slot(a).value.windowExpiresAt <= e.now
    ensures Counts(Step(o, s, e).0.Slot(a), e.now + o.windowMs, 1,
                   if o.MaxFailures(a.which) <= 1 then e.now + o.blockMs else 0)
  {
    SlotStep(o, s, e, a);
    GlobalIsRoomy(o, s, e);
  }

  // ----- The advertised wait -----

  predicate BlockedAtMost(slot: Slot, bound: int) {
    slot.None? || slot.value.blockedUntil <= bound
  }

  predicate FailsAt(e: Event, a: Addr) { e.op.FailureOp? && e.op.input.Targets(a) }

  lemma StepKeepsBlockEnd(o: Options, s: State, e: Event, a: Addr, bound: nat)
    requires ValidState(s) && BlockedAtMost(s.Slot(a), bound) && !FailsAt(e, a)
    ensures BlockedAtMost(Step(o, s, e).0.Slot(a), bound)
  {
    SlotStep(o, s, e, a);
  }

  /** Only a failure moves the end of a block. */
  lemma {:induction false} RunKeepsBlockEnd(o: Options, s: State, events: seq<Event>, a: Addr, bound: nat)
    requires ValidState(s) && BlockedAtMost(s.Slot(a), bound)
    requires forall e :: e in events ==> !FailsAt(e, a)
    ensures BlockedAtMost(Run(o, s, events).Slot(a), bound)
    decreases |events|
  {
    if |events| > 0 {
      assert !FailsAt(events[0], a);
      StepKeepsBlockEnd(o, s, events[0], a, bound);
      StepKeepsValid(o, s, events[0]);
      RunKeepsBlockEnd(o, Step(o, s, events[0]).0, events[1..], a, bound);
    }
  }

  /** A caller denied by `check` who waits the advertised seconds is allowed, whatever else
      happens meanwhile, as long as none of its keys fails. */
  lemma AdvertisedWaitSuffices(o: Options, s: State, i: Input, now: nat, events: seq<Event>)
    requires ValidState(s) && Check(s, i, now).1.Denied?
    requires forall e, a :: e in events && i.Targets(a) ==> !FailsAt(e, a)
    ensures var r := Check(s, i, now).1.retryAfterSeconds;
      r >= 1 && Check(Run(o, Check(s, i, now).0, events), i, now + 1000 * r).1 == Allowed
  {
    var r := Check(s, i, now).1.retryAfterSeconds;
    var end := Run(o, Check(s, i, now).0, events);
    forall w: Which
      ensures BlockedAtMost(end.At(i).Get(w), now + 1000 * r)
    {
      assert end.At(i).Get(w) == end.SlotOf(i, w);
      if i.Key(w).Some? {
        WaitOutlastsBlock(o, s, i, now, events, Addr(w, i.Key(w).value));
      }
    }
    RetryWithin(end.At(i), now + 1000 * r);
  }

  lemma WaitOutlastsBlock(o: Options, s: State, i: Input, now: nat, events: seq<Event>, a: Addr)
    requires ValidState(s) && Check(s, i, now).1.Denied? && i.Targets(a)
    requires forall e :: e in events ==> !FailsAt(e, a)
    ensures var r := Check(s, i, now).1.retryAfterSeconds;
      r >= 1 && BlockedAtMost(Run(o, Check(s, i, now).0, events).Slot(a), now + 1000 * r)
  {
    var ms, r := MaxRetry(s.At(i), now), Check(s, i, now).1.retryAfterSeconds;
    assert r >= 1 && ms <= 1000 * r;
    var e := Event(now, CheckOp(i));
    assert RetryMs(s.Slot(a), now) <= ms by { RetryBelowMax(s.At(i), a.which, now); }
    StepKeepsValid(o, s, e);
    SlotStep(o, s, e, a);
    RunKeepsBlockEnd(o, Check(s, i, now).0, events, a, now + 1000 * r);
  }

  lemma RetryBelowMax(v: Slots, w: Which, now: nat)
    ensures RetryMs(v.Get(w), now) <= MaxRetry(v, now)
  {
  }

  lemma RetryWithin(v: Slots, now: nat)
    requires forall w :: BlockedAtMost(v.Get(w), now)
    ensures MaxRetry(v, now) == 0
  {
    assert BlockedAtMost(v.Get(Global), now) && BlockedAtMost(v.Get(Email), now) && BlockedAtMost(v.Get(Ip), now);
  }

  // ----- The wait advertised for lack of room -----

  /** No room for one more pending attempt at `now`. */
  predicate IsFull(o: Options, slot: Slot, w: Which, now: nat) {
    var b := Current(slot, now, o); b.attempts + b.pendingAttempts >= o.MaxFailures(w)
  }

  /** A refused reservation leaves every bucket as full as it was, at any later time. */
  lemma RefusalKeepsFullness(o: Options, s: State, i: Input, now: nat, w: Which, later: nat)
    requires ValidState(s) && Reserve(o, s, i, now).1.Denied? && now <= later
    ensures var s' := Reserve(o, s, i, now).0;
      && IsFull(o, s'.SlotOf(i, w), w, later) == IsFull(o, s.SlotOf(i, w), w, later)
      && RetryMs(s'.SlotOf(i, w), later) == RetryMs(s.SlotOf(i, w), later)
  {
    if i.Key(w).Some? {
      var a := Addr(w, i.Key(w).value);
      DeniedReserveIsInvisible(o, s, i, now, a);
      SameWhenAlive(o, Reserve(o, s, i, now).0.Slot(a), s.Slot(a), w, now, later);
    }
  }

  lemma SameWhenAlive(o: Options, x: Slot, y: Slot, w: Which, now: nat, later: nat)
    requires Alive(x, now) == Alive(y, now) && now <= later
    ensures IsFull(o, x, w, later) == IsFull(o, y, w, later) && RetryMs(x, later) == RetryMs(y, later)
  {
  }

  /** With limits of at least one, a bucket is full later exactly if it is full now and its window
      has not ended by then: neither failures nor pending attempts go away before that. */
  lemma FullLater(o: Options, slot: Slot, w: Which, now: nat, later: nat)
    requires o.MaxFailures(w) >= 1 && now <= later
    ensures IsFull(o, slot, w, later) <==> IsFull(o, slot, w, now) && slot.Some? && slot.value.windowExpiresAt > later
  {
  }

  /** The bucket was full, and its window is still running at `later`. */
  predicate StaysFull(o: Options, slot: Slot, w: Which, now: nat, later: nat) {
    IsFull(o, slot, w, now) && slot.Some? && slot.value.windowExpiresAt > later
  }

  /** No bucket of the caller stays full until `later`. */
  ghost predicate NoneStaysFull(o: Options, s: State, i: Input, now: nat, later: nat) {
    forall w: Which :: i.Key(w).Some? ==> !StaysFull(o, s.SlotOf(i, w), w, now, later)
  }

  lemma GrantedUnlessFull(o: Options, s: State, i: Input, now: nat)
    requires o.windowMs >= 1 && ValidState(s) && Check(s, i, now).1.Allowed?
    ensures Reserve(o, s, i, now).1.Allowed? <==> forall w: Which :: i.Key(w).Some? ==> !IsFull(o, s.SlotOf(i, w), w, now)
  {
    ReserveGrantedExactlyWhen(o, s, i, now);
  }

  lemma GrantedLater(o: Options, s: State, i: Input, now: nat, later: nat, s': State)
    requires o.windowMs >= 1 && o.maxFailures >= 1 && o.maxGlobalFailures >= 1 && ValidState(s)
    requires Check(s, i, now).1.Allowed? && Reserve(o, s, i, now).1.Denied? && now <= later
    requires s' == Reserve(o, s, i, now).0
    ensures Reserve(o, s', i, later).1.Allowed? <==> NoneStaysFull(o, s, i, now, later)
  {
    var e := Event(now, ReserveOp(i));
    StepKeepsValid(o, s, e);
    assert Step(o, s, e).0 == s';
    NoBlockComes(o, s, i, now, later);
    GrantedUnlessFull(o, s', i, later);
    forall w: Which
      ensures IsFull(o, s'.SlotOf(i, w), w, later) <==> StaysFull(o, s.SlotOf(i, w), w, now, later)
    {
      RefusalKeepsFullness(o, s, i, now, w, later);
      FullLater(o, s.SlotOf(i, w), w, now, later);
    }
  }

  /** Main result: an attempt refused for lack of room is granted after the advertised wait, if
      nothing else happens, exactly when no bucket that was full still has its window running;
      with windows longer than 30 s the wait alone does not bring that about. */
  lemma RoomWaitHelpsExactlyWhen(o: Options, s: State, i: Input, now: nat, s': State, r: nat, later: nat)
    requires o.windowMs >= 1 && o.maxFailures >= 1 && o.maxGlobalFailures >= 1 && ValidState(s)
    requires Check(s, i, now).1.Allowed? && Reserve(o, s, i, now) == (s', Denied(r)) && later == now + 1000 * r
    ensures Reserve(o, s', i, later).1.Allowed? <==> NoneStaysFull(o, s, i, now, later)
  {
    assert later >= now;
    GrantedLater(o, s, i, now, later, s');
  }

  /** Waiting brings no block. */
  lemma NoBlockComes(o: Options, s: State, i: Input, now: nat, later: nat)
    requires ValidState(s) && Check(s, i, now).1.Allowed? && Reserve(o, s, i, now).1.Denied? && now <= later
    ensures Check(Reserve(o, s, i, now).0, i, later).1.Allowed?
  {
    var s' := Reserve(o, s, i, now).0;
    RefusalKeepsFullness(o, s, i, now, Global, later);
    RefusalKeepsFullness(o, s, i, now, Email, later);
    RefusalKeepsFullness(o, s, i, now, Ip, later);
  }

  /** The common case: a bucket is full in a window longer than the wait; the attempt is refused,
      and so is the retry. */
  lemma RoomWaitFails(o: Options, s: State, i: Input, now: nat, w: Which, s': State, r: nat, later: nat)
    requires o.windowMs >= 1 && o.maxFailures >= 1 && o.maxGlobalFailures >= 1 && ValidState(s)
    requires Check(s, i, now).1.Allowed? && i.Key(w).Some? && StaysFull(o, s.SlotOf(i, w), w, now, now + 30000)
    requires Reserve(o, s, i, now) == (s', Denied(r)) && later == now + 1000 * r
    ensures 1 <= r <= 30 && !Reserve(o, s', i, later).1.Allowed?
  {
    ReserveAdvertises(o, s, i, now);
    RefusedAgain(o, s, i, now, w, s', later);
  }

  lemma FullIsRefused(o: Options, s: State, i: Input, now: nat, w: Which)
    requires o.windowMs >= 1 && ValidState(s) && Check(s, i, now).1.Allowed?
    requires i.Key(w).Some? && IsFull(o, s.SlotOf(i, w), w, now)
    ensures Reserve(o, s, i, now).1.Denied?
  {
    GrantedUnlessFull(o, s, i, now);
    ReserveIsAnswered(o, s, i, now);
  }

  lemma RefusedAgain(o: Options, s: State, i: Input, now: nat, w: Which, s': State, later: nat)
    requires o.windowMs >= 1 && o.maxFailures >= 1 && o.maxGlobalFailures >= 1 && ValidState(s)
    requires Check(s, i, now).1.Allowed? && Reserve(o, s, i, now).1.Denied? && s' == Reserve(o, s, i, now).0
    requires now <= later <= now + 30000
    requires i.Key(w).Some? && StaysFull(o, s.SlotOf(i, w), w, now, now + 30000)
    ensures !Reserve(o, s', i, later).1.Allowed?
  {
    GrantedLater(o, s, i, now, later, s');
    assert StaysFull(o, s.SlotOf(i, w), w, now, later);
  }

  lemma ReserveIsAnswered(o: Options, s: State, i: Input, now: nat)
    ensures Reserve(o, s, i, now).1.Allowed? || Reserve(o, s, i, now).1.Denied?
  {
  }

  // ----- A block lasts until its end -----

  /** A stored block is backed by a full count and ends at most one block length after `t`. */
  predicate Sound(o: Options, w: Which, slot: Slot, t: nat) {
    slot.None? || slot.value.blockedUntil <= 0
    || (slot.value.attempts >= o.MaxFailures(w) && slot.value.blockedUntil <= t + o.blockMs)
  }

  lemma StepKeepsSound(o: Options, s: State, e: Event, a: Addr, t: nat)
    requires ValidState(s) && Sound(o, a.which, s.Slot(a), t) && t <= e.now
    ensures Sound(o, a.which, Step(o, s, e).0.Slot(a), e.now)
  {
    SlotStep(o, s, e, a);
    SoundMoves(o, s.Slot(a), a, e, Step(o, s, e).0.Slot(a), Step(o, s, e).1, Roomy(o, s, e, a.which), t);
  }

  lemma SoundMoves(o: Options, slot: Slot, a: Addr, e: Event, slot': Slot, reply: Reply, roomy: bool, t: nat)
    requires SlotMoves(o, slot, a, e, slot', reply, roomy) && Sound(o, a.which, slot, t) && t <= e.now
    ensures Sound(o, a.which, slot', e.now)
  {
  }

  /** Every state a fresh limiter reaches is sound at every address. */
  lemma {:induction false} RunKeepsSound(o: Options, s: State, t: nat, events: seq<Event>, a: Addr, end: nat)
    requires ValidState(s) && Sound(o, a.which, s.Slot(a), t) && Ordered(t, events) && t <= end
    requires forall e :: e in events ==> e.now <= end
    ensures Sound(o, a.which, Run(o, s, events).Slot(a), end)
    decreases |events|
  {
    if |events| > 0 {
      assert events[0] in events;
      StepKeepsSound(o, s, events[0], a, t);
      StepKeepsValid(o, s, events[0]);
      RunKeepsSound(o, Step(o, s, events[0]).0, events[0].now, events[1..], a, end);
    }
  }

  /** The bucket at `a`, with this window, is blocked until `until` or later. */
  predicate HeldUntil(slot: Slot, window: int, until: int) {
    slot.Some? && slot.value.windowExpiresAt == window && slot.value.blockedUntil >= until
  }

  /** Nothing lifts the block of `a` early: no eviction from its table, no success for that
      email, and no failure after the window has ended. */
  ghost predicate Undisturbed(o: Options, s: State, e: Event, a: Addr, window: int) {
    && Roomy(o, s, e, a.which)
    && (a.which.Email? && e.op.input.Targets(a) ==> !e.op.SuccessOp?)
    && (FailsAt(e, a) ==> e.now < window)
  }

  ghost predicate RunUndisturbed(o: Options, s: State, events: seq<Event>, a: Addr, window: int)
    decreases |events|
  {
    |events| == 0
    || (Undisturbed(o, s, events[0], a, window) && RunUndisturbed(o, Step(o, s, events[0]).0, events[1..], a, window))
  }

  lemma HeldMeansDenied(s: State, i: Input, a: Addr, window: int, until: int, now: nat)
    requires HeldUntil(s.Slot(a), window, until) && i.Targets(a) && now < until
    ensures MaxRetry(s.At(i), now) >= until - now > 0
  {
    RetryBelowMax(s.At(i), a.which, now);
  }

  lemma StepHolds(o: Options, s: State, t: nat, e: Event, a: Addr, window: int, until: int)
    requires ValidState(s) && t <= e.now < until
    requires Sound(o, a.which, s.Slot(a), t) && HeldUntil(s.Slot(a), window, until)
    requires Undisturbed(o, s, e, a, window)
    ensures HeldUntil(Step(o, s, e).0.Slot(a), window, until)
    ensures e.op.input.Targets(a) && (e.op.CheckOp? || e.op.ReserveOp?) ==> Step(o, s, e).1.Denied?
  {
    SlotStep(o, s, e, a);
    StepAnswers(o, s, e);
    if e.op.input.Targets(a) {
      HeldMeansDenied(s, e.op.input, a, window, until, e.now);
    }
  }

  /** Main result: until its end, a block denies every check and every reservation for its key. */
  lemma {:induction false} BlockHolds(o: Options, s: State, t: nat, events: seq<Event>, a: Addr, window: int, until: int, n: nat)
    requires ValidState(s) && Ordered(t, events) && n < |events|
    requires forall e :: e in events ==> e.now < until
    requires Sound(o, a.which, s.Slot(a), t) && HeldUntil(s.Slot(a), window, until)
    requires RunUndisturbed(o, s, events, a, window)
    ensures |Replies(o, s, events)| == |events|
    ensures events[n].op.input.Targets(a) && (events[n].op.CheckOp? || events[n].op.ReserveOp?) ==>
      Replies(o, s, events)[n].Denied?
    decreases |events|
  {
    var e := events[0];
    assert e in events;
    StepHolds(o, s, t, e, a, window, until);
    StepKeepsSound(o, s, e, a, t);
    StepKeepsValid(o, s, e);
    var s' := Step(o, s, e).0;
    if |events| > 1 {
      BlockHolds(o, s', e.now, events[1..], a, window, until, if n == 0 then 0 else n - 1);
    }
  }

  lemma {:induction false} OrderedUpToLast(t: nat, events: seq<Event>, last: Event)
    requires Ordered(t, events + [last])
    ensures forall e :: e in events + [last] ==> e.now <= last.now
    decreases |events|
  {
    if |events| > 0 {
      assert (events + [last])[1..] == events[1..] + [last];
      OrderedUpToLast(events[0].now, events[1..], last);
      assert last in events[1..] + [last];
      EarlierThanLast(events[0].now, events[1..], last);
    }
  }

  lemma {:induction false} EarlierThanLast(t: nat, events: seq<Event>, last: Event)
    requires Ordered(t, events + [last])
    ensures t <= last.now
    decreases |events|
  {
    if |events| > 0 {
      assert (events + [last])[1..] == events[1..] + [last];
      EarlierThanLast(events[0].now, events[1..], last);
    }
  }

  /** The address whose block is the longest one the caller meets. */
  predicate Denies(s: State, i: Input, now: nat, a: Addr) {
    i.Targets(a) && s.Slot(a).Some? && s.Slot(a).value.blockedUntil == now + MaxRetry(s.At(i), now)
  }

  /** The target whose block a denial reports. */
  lemma DenyingTarget(s: State, i: Input, now: nat) returns (a: Addr)
    requires MaxRetry(s.At(i), now) > 0
    ensures Denies(s, i, now, a)
  {
    var ms := MaxRetry(s.At(i), now);
    var w: Which := if RetryMs(s.At(i).Get(Global), now) == ms then Global
                    else if RetryMs(s.At(i).Get(Email), now) == ms then Email else Ip;
    assert RetryMs(s.At(i).Get(w), now) == ms;
    a := Addr(w, i.Key(w).value);
  }

  /** The advertised wait is tight: as long as nothing disturbs the one bucket that denies,
      one second less is still denied. */
  lemma AdvertisedWaitIsTight(o: Options, s: State, i: Input, now: nat, events: seq<Event>, later: Event, a: Addr)
    requires ValidState(s) && Check(s, i, now).1.Denied? && Denies(s, i, now, a)
    requires later == Event(now + 1000 * (Check(s, i, now).1.retryAfterSeconds - 1), CheckOp(i))
    requires Ordered(now, events + [later]) && Sound(o, a.which, s.Slot(a), now)
    requires RunUndisturbed(o, Check(s, i, now).0, events + [later], a, s.Slot(a).value.windowExpiresAt)
    ensures |Replies(o, Check(s, i, now).0, events + [later])| == |events| + 1
    ensures Replies(o, Check(s, i, now).0, events + [later])[|events|].Denied?
  {
    var e := Event(now, CheckOp(i));
    SlotStep(o, s, e, a);
    StepKeepsValid(o, s, e);
    var b := s.Slot(a).value;
    OrderedUpToLast(now, events, later);
    assert later.now < b.blockedUntil;
    BlockHolds(o, Check(s, i, now).0, now, events + [later], a, b.windowExpiresAt, b.blockedUntil, |events|);
  }
}
