/** Which limit belongs to which key, said in the fields of the options and of the input alone. */
module RateLimitLimits {
  import opened Wrappers
  import opened RateLimitSpec
  import opened RateLimitTables
  import opened RateLimitSteps
  import opened RateLimitTheorems

  /** The keys of an input: one for everybody, its email, and its ip if it has one. */
  predicate Names(i: Input, a: Addr) {
    match a.which
    case Global => a.key == "global"
    case Email => a.key == if i.email == "" then "unknown-email" else i.email
    case Ip => a.key != "" && i.ip == Some(a.key)
  }

  predicate Fails(e: Event, a: Addr) { e.op.FailureOp? && Names(e.op.input, a) }

  function Failures(events: seq<Event>, a: Addr): nat {
    if |events| == 0 then 0 else (if Fails(events[0], a) then 1 else 0) + Failures(events[1..], a)
  }

  /** The time of the last failure, or `last` without one. */
  function LastFailure(events: seq<Event>, a: Addr, last: int): int {
    if |events| == 0 then last else LastFailure(events[1..], a, if Fails(events[0], a) then events[0].now else last)
  }

  lemma NamesAreTargets(i: Input, a: Addr)
    ensures i.Targets(a) <==> Names(i, a)
  {
  }

  // ----- A run from an empty limiter inside one window -----

  /** The limit of `a` is `max`, `n` failures are counted, the last one at `last`. */
  predicate Tracks(o: Options, slot: Slot, max: int, n: nat, last: int, end: int) {
    if slot.None? then n == 0
    else
      && slot.value.attempts == n && slot.value.windowExpiresAt >= end
      && slot.value.blockedUntil == if n >= 1 && n >= max then last + o.blockMs else 0
  }

  /** No eviction from the table of `a`, and no success for that email. */
  ghost predicate Steady(o: Options, s: State, e: Event, a: Addr) {
    Roomy(o, s, e, a.which) && (a.which.Email? && Names(e.op.input, a) ==> !e.op.SuccessOp?)
  }

  ghost predicate RunSteady(o: Options, s: State, events: seq<Event>, a: Addr)
    decreases |events|
  {
    |events| == 0 || (Steady(o, s, events[0], a) && RunSteady(o, Step(o, s, events[0]).0, events[1..], a))
  }

  lemma MovesTrack(o: Options, slot: Slot, a: Addr, e: Event, slot': Slot, reply: Reply, max: int, n: nat, last: int, end: int)
    requires SlotMoves(o, slot, a, e, slot', reply, true) && Tracks(o, slot, max, n, last, end)
    requires max == if a.which.Global? then o.maxGlobalFailures else o.maxFailures
    requires e.now < end <= e.now + o.windowMs
    requires a.which.Email? && Names(e.op.input, a) ==> !e.op.SuccessOp?
    ensures Tracks(o, slot', max, if Fails(e, a) then n + 1 else n, if Fails(e, a) then e.now else last, end)
  {
    NamesAreTargets(e.op.input, a);
  }

  lemma {:induction false} RunTracks(o: Options, s: State, events: seq<Event>, a: Addr, max: int, n: nat, last: int, end: int)
    requires ValidState(s) && RunSteady(o, s, events, a) && Tracks(o, s.Slot(a), max, n, last, end)
    requires max == if a.which.Global? then o.maxGlobalFailures else o.maxFailures
    requires forall e :: e in events ==> e.now < end <= e.now + o.windowMs
    ensures Tracks(o, Run(o, s, events).Slot(a), max, n + Failures(events, a), LastFailure(events, a, last), end)
    decreases |events|
  {
    if |events| > 0 {
      var e := events[0];
      assert e in events;
      SlotStep(o, s, e, a);
      MovesTrack(o, s.Slot(a), a, e, Step(o, s, e).0.Slot(a), Step(o, s, e).1, max, n, last, end);
      StepKeepsValid(o, s, e);
      var n', last' := if Fails(e, a) then n + 1 else n, if Fails(e, a) then e.now else last;
      RunTracks(o, Step(o, s, e).0, events[1..], a, max, n', last', end);
      CountFirst(events, a, n, last);
    }
  }

  lemma CountFirst(events: seq<Event>, a: Addr, n: nat, last: int)
    requires |events| > 0
    ensures n + Failures(events, a) == (if Fails(events[0], a) then n + 1 else n) + Failures(events[1..], a)
    ensures LastFailure(events, a, last) == LastFailure(events[1..], a, if Fails(events[0], a) then events[0].now else last)
  {
  }

  /** The key has a block that has yet to end. */
  predicate Blocks(s: State, a: Addr, now: nat) { s.Slot(a).Some? && s.Slot(a).value.blockedUntil > now }

  /** A check is denied exactly when everybody, the caller's email or the caller's ip is blocked. */
  lemma DeniedBecauseOf(s: State, i: Input, now: nat)
    ensures Check(s, i, now).1.Denied? <==>
      || Blocks(s, Addr(Global, "global"), now)
      || Blocks(s, Addr(Email, if i.email == "" then "unknown-email" else i.email), now)
      || (i.ip.Some? && i.ip.value != "" && Blocks(s, Addr(Ip, i.ip.value), now))
  {
    CheckAllowedExactlyWhen(s, i, now);
    forall a
      ensures i.Targets(a) <==> Names(i, a)
    {
      NamesAreTargets(i, a);
    }
    if i.ip.Some? && i.ip.value != "" {
      assert i.Targets(Addr(Ip, i.ip.value));
    }
    assert i.Targets(Addr(Global, "global")) && i.Targets(Addr(Email, if i.email == "" then "unknown-email" else i.email));
  }

  /** Main result: from an empty limiter and inside one window, while the block of the last failure
      lasts, an email or an ip is blocked if and only if it has failed `maxFailures` times, and
      everybody if and only if there were `maxGlobalFailures` failures in all. */
  lemma BlockedExactlyWhen(o: Options, events: seq<Event>, t: nat, a: Addr, now: nat)
    requires RunSteady(o, EMPTY, events, a) && Failures(events, a) >= 1
    requires forall e :: e in events ==> t <= e.now < t + o.windowMs
    requires now < LastFailure(events, a, 0) + o.blockMs
    ensures var n := Failures(events, a);
      && (a.which.Email? || a.which.Ip? ==> (Blocks(Run(o, EMPTY, events), a, now) <==> n >= o.maxFailures))
      && (a.which.Global? ==> (Blocks(Run(o, EMPTY, events), a, now) <==> n >= o.maxGlobalFailures))
  {
    var max := if a.which.Global? then o.maxGlobalFailures else o.maxFailures;
    RunTracks(o, EMPTY, events, a, max, 0, 0, t + o.windowMs);
  }

  /** For the check: with nobody else of the caller's keys blocked, `maxFailures` decides. */
  lemma IpDecides(o: Options, events: seq<Event>, t: nat, i: Input, now: nat)
    requires i.ip.Some? && i.ip.value != "" && RunSteady(o, EMPTY, events, Addr(Ip, i.ip.value))
    requires Failures(events, Addr(Ip, i.ip.value)) >= 1 && now < LastFailure(events, Addr(Ip, i.ip.value), 0) + o.blockMs
    requires forall e :: e in events ==> t <= e.now < t + o.windowMs
    requires var s := Run(o, EMPTY, events);
      !Blocks(s, Addr(Global, "global"), now) && !Blocks(s, Addr(Email, if i.email == "" then "unknown-email" else i.email), now)
    ensures Check(Run(o, EMPTY, events), i, now).1.Denied? <==> Failures(events, Addr(Ip, i.ip.value)) >= o.maxFailures
  {
    DeniedBecauseOf(Run(o, EMPTY, events), i, now);
    BlockedExactlyWhen(o, events, t, Addr(Ip, i.ip.value), now);
  }

  // ----- Room -----

  /** One more pending attempt fits under `max`: a bucket whose window has ended counts nothing. */
  predicate Fits(slot: Slot, now: nat, max: int) {
    if slot.Some? && slot.value.windowExpiresAt > now then slot.value.attempts + slot.value.pendingAttempts < max else 0 < max
  }

  /** Main result: a reservation is granted if and only if the check is and one more attempt fits
      under `maxGlobalFailures` for everybody and under `maxFailures` for the email and the ip. */
  lemma GrantedWithinLimits(o: Options, s: State, i: Input, now: nat)
    requires o.windowMs >= 1 && ValidState(s)
    ensures Reserve(o, s, i, now).1.Allowed? <==>
      && Check(s, i, now).1.Allowed?
      && Fits(s.Slot(Addr(Global, "global")), now, o.maxGlobalFailures)
      && Fits(s.Slot(Addr(Email, if i.email == "" then "unknown-email" else i.email)), now, o.maxFailures)
      && (i.ip.Some? && i.ip.value != "" ==> Fits(s.Slot(Addr(Ip, i.ip.value)), now, o.maxFailures))
  {
    ReserveGrantedExactlyWhen(o, s, i, now);
    forall w: Which | i.Key(w).Some?
      ensures s.SlotOf(i, w) == s.Slot(Addr(w, i.Key(w).value))
      ensures (var b := Current(s.SlotOf(i, w), now, o); b.attempts + b.pendingAttempts < o.MaxFailures(w)) <==>
              Fits(s.SlotOf(i, w), now, if w.Global? then o.maxGlobalFailures else o.maxFailures)
    {
    }
    assert i.Key(Global) == Some("global");
    assert i.Key(Email) == Some(if i.email == "" then "unknown-email" else i.email);
  }

  // ----- Tables -----

  /** Pruning forgets a bucket if and only if its window has ended and its block has. */
  lemma ForgottenExactlyWhen(t: Table, k: string, now: nat)
    requires ValidTable(t)
    ensures k in Pruned(t, now).at <==> k in t.at && (t.at[k].windowExpiresAt > now || t.at[k].blockedUntil > now)
    ensures k in Pruned(t, now).at <==> k in Pruned(t, now).order
  {
    PrunedMeaning(t, now);
    assert Find(Pruned(t, now), k) == Alive(Find(t, k), now);
  }

  /** No run keeps more emails than `maxTrackedEmails`, more ips than `maxTrackedIps`, or more than
      one entry for everybody. */
  lemma TablesStayWithin(o: Options, events: seq<Event>)
    requires o.maxTrackedEmails >= 1 && o.maxTrackedIps >= 1
    ensures var s := Run(o, EMPTY, events);
      |s.emails.at| <= o.maxTrackedEmails && |s.ips.at| <= o.maxTrackedIps && |s.global.at| <= 1
  {
    assert forall w :: |EMPTY.Get(w).order| == 0;
    RunStaysWithinCaps(o, EMPTY, events);
    var s := Run(o, EMPTY, events);
    assert |s.Get(Email).order| <= o.Cap(Email) && |s.Get(Ip).order| <= o.Cap(Ip) && |s.Get(Global).order| <= o.Cap(Global);
    OneEntryEach(s.emails);
    OneEntryEach(s.ips);
    OneEntryEach(s.global);
  }

  lemma OneEntryEach(t: Table)
    requires ValidTable(t)
    ensures |t.at| == |t.order|
  {
    DistinctCount(t.order);
    assert (set k | k in t.order) == t.at.Keys;
  }

  /** Emails and ips are evicted by their own caps: storing one live key more than the table's cap
      forgets another one, and up to the cap none is forgotten. */
  lemma EvictedByOwnCap(o: Options, s: State, e: Event, a: Addr)
    requires ValidState(s) && Stores(e.op, Step(o, s, e).1) && !a.which.Global?
    requires !Names(e.op.input, a) && s.Slot(a).Some? && !Dead(s.Slot(a).value, e.now)
    requires e.op.input.ip.Some? && e.op.input.ip.value != ""
    requires var k := if a.which.Email? then (if e.op.input.email == "" then "unknown-email" else e.op.input.email)
                      else e.op.input.ip.value;
      |LiveKeys((if a.which.Email? then s.emails else s.ips).at, e.now) + {k}|
        <= if a.which.Email? then o.maxTrackedEmails else o.maxTrackedIps
    ensures Step(o, s, e).0.Slot(a) == s.Slot(a)
  {
    NamesAreTargets(e.op.input, a);
    SlotStep(o, s, e, a);
  }

  /** A table that was looked at for room holds no ended bucket afterwards; the tables behind the
      first one without room were not looked at, and lose none but the caller's own. */
  lemma LookedAtIsPruned(o: Options, s: State, i: Input, now: nat, k: string)
    requires o.windowMs >= 1 && ValidState(s) && i.ip.Some? && i.ip.value != ""
    requires Check(s, i, now).1.Allowed? && Reserve(o, s, i, now).1.Denied?
    ensures var after, email := Reserve(o, s, i, now).0, if i.email == "" then "unknown-email" else i.email;
      var everybody, own := Fits(s.Slot(Addr(Global, "global")), now, o.maxGlobalFailures), Fits(s.Slot(Addr(Email, email)), now, o.maxFailures);
      && (k in after.global.at ==> after.global.at[k].windowExpiresAt > now || after.global.at[k].blockedUntil > now)
      && (everybody && k in after.emails.at ==> after.emails.at[k].windowExpiresAt > now || after.emails.at[k].blockedUntil > now)
      && (everybody && own && k in after.ips.at ==> after.ips.at[k].windowExpiresAt > now || after.ips.at[k].blockedUntil > now)
      && (!everybody && k != email ==> Find(after.emails, k) == Find(s.emails, k))
      && (!(everybody && own) && k != i.ip.value ==> Find(after.ips, k) == Find(s.ips, k))
  {
    var touched := TouchAll(s, i, now);
    var own := Addr(Email, if i.email == "" then "unknown-email" else i.email);
    assert i.Key(Global) == Some("global") && i.Key(Email) == Some(own.key) && i.Key(Ip) == i.ip;
    RoomAt(o, s, i, Global, now);
    RoomAt(o, s, i, Email, now);
    LeftBy(o, s, i, now);
    TouchedKeeps(s, i, Global, now, k);
    TouchedKeeps(s, i, Email, now, k);
    TouchedKeeps(s, i, Ip, now, k);
    ForgottenExactlyWhen(touched.global, k, now);
    ForgottenExactlyWhen(touched.emails, k, now);
    ForgottenExactlyWhen(touched.ips, k, now);
  }

  lemma RoomAt(o: Options, s: State, i: Input, w: Which, now: nat)
    requires o.windowMs >= 1 && ValidState(s) && i.Key(w).Some?
    ensures OverflowOf(o, TouchAll(s, i, now).At(i), i, w, now) > 0 <==>
      !Fits(s.Slot(Addr(w, i.Key(w).value)), now, if w.Global? then o.maxGlobalFailures else o.maxFailures)
  {
    TouchInMeaning(s.Get(w), i.Key(w).value, now);
    assert TouchAll(s, i, now).At(i).Get(w) == Alive(s.Slot(Addr(w, i.Key(w).value)), now);
  }

  lemma TouchedKeeps(s: State, i: Input, w: Which, now: nat, k: string)
    requires ValidState(s) && i.Key(w).Some?
    ensures ValidTable(TouchAll(s, i, now).Get(w))
    ensures k != i.Key(w).value ==> Find(TouchAll(s, i, now).Get(w), k) == Find(s.Get(w), k)
  {
    TouchInMeaning(s.Get(w), i.Key(w).value, now);
  }

  lemma LeftBy(o: Options, s: State, i: Input, now: nat)
    requires i.ip.Some? && i.ip.value != "" && Check(s, i, now).1.Allowed? && Reserve(o, s, i, now).1.Denied?
    ensures var t, after := TouchAll(s, i, now), Reserve(o, s, i, now).0;
      var global, email := OverflowOf(o, t.At(i), i, Global, now) > 0, OverflowOf(o, t.At(i), i, Email, now) > 0;
      && after.global == Pruned(t.global, now)
      && after.emails == (if global then t.emails else Pruned(t.emails, now))
      && after.ips == (if global || email then t.ips else Pruned(t.ips, now))
  {
    assert i.Key(Global).Some? && i.Key(Email).Some? && i.Key(Ip).Some?;
  }
}
