/** The sign-in rate limiter as a transition system: buckets, insertion-ordered tables,
    and one function per operation of the limiter.  The class in RateLimiter.dfy is proved
    against these functions; RateLimitTheorems.dfy proves what the limiter promises. */
module RateLimitSpec {
  import opened Wrappers

  const MAX_RESERVATION_MS: int := 30000

  datatype Options = Options(
    maxFailures: int, maxGlobalFailures: int,
    maxTrackedEmails: int, maxTrackedIps: int,
    windowMs: int, blockMs: int)
  {
    function MaxFailures(w: Which): int {
      if w.Global? then maxGlobalFailures else maxFailures
    }

    function Cap(w: Which): int {
      match w
      case Global => 1
      case Email => maxTrackedEmails
      case Ip => maxTrackedIps
    }
  }

  // ----- One bucket -----

  datatype Bucket = Bucket(attempts: nat, pendingAttempts: nat, windowExpiresAt: int, blockedUntil: int)

  type Slot = Option<Bucket>

  predicate Dead(b: Bucket, now: nat) {
    b.windowExpiresAt <= now && b.blockedUntil <= now
  }

  /** What of a slot can still influence a decision at `now`. */
  function Alive(slot: Slot, now: nat): Slot {
    if slot.Some? && !Dead(slot.value, now) then slot else None
  }

  /** The bucket an operation works on: the stored one while its window runs, else a new one. */
  function Current(slot: Slot, now: nat, o: Options): Bucket {
    if slot.Some? && slot.value.windowExpiresAt > now then slot.value
    else Bucket(0, 0, now + o.windowMs, 0)
  }

  function RetryMs(slot: Slot, now: nat): int {
    if slot.None? then 0 else Max(0, slot.value.blockedUntil - now)
  }

  function OverflowMs(slot: Slot, now: nat, o: Options, max: int): int {
    var b := Current(slot, now, o);
    if b.attempts + b.pendingAttempts < max then 0 else Min(o.windowMs, MAX_RESERVATION_MS)
  }

  function Reserved(slot: Slot, now: nat, o: Options): Bucket {
    var b := Current(slot, now, o);
    b.(pendingAttempts := b.pendingAttempts + 1)
  }

  function Released(slot: Slot): Slot {
    if slot.None? then None
    else Some(slot.value.(pendingAttempts := if slot.value.pendingAttempts == 0 then 0 else slot.value.pendingAttempts - 1))
  }

  function Failed(slot: Slot, now: nat, o: Options, max: int): Bucket {
    var b := Current(slot, now, o);
    var c := b.(attempts := b.attempts + 1);
    if c.attempts >= max then c.(blockedUntil := now + o.blockMs) else c
  }

  // ----- An insertion-ordered table of buckets -----

  datatype Table = Table(order: seq<string>, at: map<string, Bucket>)

  ghost predicate ValidTable(t: Table) {
    && Distinct(t.order)
    && (forall k :: k in t.order <==> k in t.at)
    && "" !in t.order
  }

  function Find(t: Table, k: string): Slot {
    if k in t.at then Some(t.at[k]) else None
  }

  function Without(keys: seq<string>, k: string): seq<string> {
    if |keys| == 0 then [] else (if keys[0] == k then [] else [keys[0]]) + Without(keys[1..], k)
  }

  function Delete(t: Table, k: string): Table {
    if k in t.at then Table(Without(t.order, k), t.at - {k}) else t
  }

  /** Replacing a value keeps the key's place; a new key goes last. */
  function Put(t: Table, k: string, b: Bucket): Table {
    Table(if k in t.at then t.order else t.order + [k], t.at[k := b])
  }

  function Survivors(keys: seq<string>, at: map<string, Bucket>, now: nat): seq<string> {
    if |keys| == 0 then []
    else (if keys[0] in at && Dead(at[keys[0]], now) then [] else [keys[0]]) + Survivors(keys[1..], at, now)
  }

  function Pruned(t: Table, now: nat): Table {
    Table(Survivors(t.order, t.at, now), map k | k in t.at && !Dead(t.at[k], now) :: t.at[k])
  }

  function EvictOldest(t: Table): Table {
    if |t.order| > 0 && t.order[0] != "" then Delete(t, t.order[0]) else t
  }

  /** Store `b` under `k`, first making room when `k` is new and the table is full. */
  function Store(t: Table, k: string, b: Bucket, cap: int): Table {
    Put(if k !in t.at && |t.order| >= cap then EvictOldest(t) else t, k, b)
  }

  function TouchIn(t: Table, k: string, now: nat): Table {
    if k in t.at && Dead(t.at[k], now) then Delete(t, k) else t
  }

  function ReserveIn(t: Table, k: string, now: nat, o: Options, cap: int): Table {
    var p := Pruned(t, now);
    Store(p, k, Reserved(Find(p, k), now, o), cap)
  }

  function ReleaseIn(t: Table, k: string, now: nat): Table {
    if k !in t.at then t
    else if Dead(t.at[k], now) then Delete(t, k)
    else Put(t, k, Released(Find(t, k)).value)
  }

  function FailIn(t: Table, k: string, now: nat, o: Options, max: int, cap: int): Table {
    var p := Pruned(t, now);
    Store(p, k, Failed(Find(p, k), now, o, max), cap)
  }

  // ----- The limiter: three tables -----

  datatype Which = Global | Email | Ip

  datatype Addr = Addr(which: Which, key: string)

  datatype State = State(global: Table, emails: Table, ips: Table) {
    function Get(w: Which): Table {
      match w
      case Global => global
      case Email => emails
      case Ip => ips
    }

    function Set(w: Which, t: Table): State {
      match w
      case Global => this.(global := t)
      case Email => this.(emails := t)
      case Ip => this.(ips := t)
    }

    function Slot(a: Addr): Slot { Find(Get(a.which), a.key) }

    function SlotOf(i: Input, w: Which): Slot {
      if i.Key(w).None? then None else Find(Get(w), i.Key(w).value)
    }

    function At(i: Input): Slots { Slots(SlotOf(i, Global), SlotOf(i, Email), SlotOf(i, Ip)) }
  }

  const EMPTY_TABLE := Table([], map[])
  const EMPTY := State(EMPTY_TABLE, EMPTY_TABLE, EMPTY_TABLE)

  /** `email` is already trimmed and lower-cased, `ip` already trimmed. */
  datatype Input = Input(email: string, ip: Option<string>) {
    function EmailKey(): string { if email == "" then "unknown-email" else email }

    function Key(w: Which): Option<string> {
      match w
      case Global => Some("global")
      case Email => Some(EmailKey())
      case Ip => if ip.Some? && ip.value != "" then ip else None
    }

    predicate Targets(a: Addr) { Key(a.which) == Some(a.key) }

    /** The reservations an attempt needs, in the order in which they are tried. */
    function Addresses(): seq<Addr> {
      [Addr(Global, "global"), Addr(Email, EmailKey())]
      + (if Key(Ip).Some? then [Addr(Ip, Key(Ip).value)] else [])
    }
  }

  datatype Reply = Allowed | Denied(retryAfterSeconds: int) | Recorded

  /** Math.ceil(ms / 1000), at least 1. */
  function Seconds(ms: int): int { Max(1, (ms + 999) / 1000) }

  function Verdict(ms: int): Reply { if ms <= 0 then Allowed else Denied(Seconds(ms)) }

  /** One table's part of an operation: unchanged when the input has no key for it. */
  function TouchTable(s: State, i: Input, w: Which, now: nat): Table {
    if i.Key(w).None? then s.Get(w) else TouchIn(s.Get(w), i.Key(w).value, now)
  }

  function PruneTable(s: State, i: Input, w: Which, now: nat): Table {
    if i.Key(w).None? then s.Get(w) else Pruned(s.Get(w), now)
  }

  function ReserveTable(o: Options, s: State, i: Input, w: Which, now: nat): Table {
    if i.Key(w).None? then s.Get(w) else ReserveIn(s.Get(w), i.Key(w).value, now, o, o.Cap(w))
  }

  function ReleaseTable(s: State, i: Input, w: Which, now: nat): Table {
    if i.Key(w).None? then s.Get(w) else ReleaseIn(s.Get(w), i.Key(w).value, now)
  }

  function FailTable(o: Options, s: State, i: Input, w: Which, now: nat): Table {
    if i.Key(w).None? then s.Get(w)
    else FailIn(s.Get(w), i.Key(w).value, now, o, o.MaxFailures(w), o.Cap(w))
  }

  /** The slots an input meets, one per table; no ip key, no slot. */
  datatype Slots = Slots(global: Slot, email: Slot, ip: Slot) {
    function Get(w: Which): Slot {
      match w
      case Global => global
      case Email => email
      case Ip => ip
    }
  }

  function MaxRetry(v: Slots, now: nat): int {
    Max(RetryMs(v.global, now), Max(RetryMs(v.email, now), RetryMs(v.ip, now)))
  }

  function OverflowOf(o: Options, v: Slots, i: Input, w: Which, now: nat): int {
    if i.Key(w).None? then 0 else OverflowMs(v.Get(w), now, o, o.MaxFailures(w))
  }

  /** The wait of the first table without room for one more pending attempt. */
  function FirstOverflow(o: Options, v: Slots, i: Input, now: nat): int {
    if OverflowOf(o, v, i, Global, now) > 0 then OverflowOf(o, v, i, Global, now)
    else if OverflowOf(o, v, i, Email, now) > 0 then OverflowOf(o, v, i, Email, now)
    else OverflowOf(o, v, i, Ip, now)
  }

  /** Every table that was looked at before the verdict is pruned. */
  function OverflowPruned(o: Options, s: State, i: Input, now: nat): State {
    var g := s.Set(Global, PruneTable(s, i, Global, now));
    if OverflowOf(o, s.At(i), i, Global, now) > 0 then g
    else
      var e := g.Set(Email, PruneTable(s, i, Email, now));
      if OverflowOf(o, s.At(i), i, Email, now) > 0 then e
      else e.Set(Ip, PruneTable(s, i, Ip, now))
  }

  function TouchAll(s: State, i: Input, now: nat): State {
    State(TouchTable(s, i, Global, now), TouchTable(s, i, Email, now), TouchTable(s, i, Ip, now))
  }

  function ReserveAll(o: Options, s: State, i: Input, now: nat): State {
    State(ReserveTable(o, s, i, Global, now), ReserveTable(o, s, i, Email, now), ReserveTable(o, s, i, Ip, now))
  }

  function ReleaseAll(s: State, i: Input, now: nat): State {
    State(ReleaseTable(s, i, Global, now), ReleaseTable(s, i, Email, now), ReleaseTable(s, i, Ip, now))
  }

  function FailAll(o: Options, s: State, i: Input, now: nat): State {
    State(FailTable(o, s, i, Global, now), FailTable(o, s, i, Email, now), FailTable(o, s, i, Ip, now))
  }

  function Check(s: State, i: Input, now: nat): (State, Reply) {
    (TouchAll(s, i, now), Verdict(MaxRetry(s.At(i), now)))
  }

  function Reserve(o: Options, s: State, i: Input, now: nat): (State, Reply) {
    var touched := TouchAll(s, i, now);
    var ms := MaxRetry(s.At(i), now);
    if ms > 0 then (touched, Denied(Seconds(ms)))
    else
      var overflow := FirstOverflow(o, touched.At(i), i, now);
      var pruned := OverflowPruned(o, touched, i, now);
      if overflow > 0 then (pruned, Denied(Seconds(overflow)))
      else (ReserveAll(o, pruned, i, now), Allowed)
  }

  function Failure(o: Options, s: State, i: Input, reserved: bool, now: nat): State {
    FailAll(o, if reserved then ReleaseAll(s, i, now) else s, i, now)
  }

  function Success(s: State, i: Input, reserved: bool, now: nat): State {
    var r := if reserved then ReleaseAll(s, i, now) else s;
    r.Set(Email, Delete(r.emails, i.EmailKey()))
  }

  // ----- Runs -----

  datatype Op =
    | CheckOp(input: Input)
    | ReserveOp(input: Input)
    | ReleaseOp(input: Input)
    | FailureOp(input: Input, reserved: bool)
    | SuccessOp(input: Input, reserved: bool)

  datatype Event = Event(now: nat, op: Op)

  function Step(o: Options, s: State, e: Event): (State, Reply) {
    match e.op
    case CheckOp(i) => Check(s, i, e.now)
    case ReserveOp(i) => Reserve(o, s, i, e.now)
    case ReleaseOp(i) => (ReleaseAll(s, i, e.now), Recorded)
    case FailureOp(i, r) => (Failure(o, s, i, r, e.now), Recorded)
    case SuccessOp(i, r) => (Success(s, i, r, e.now), Recorded)
  }

  function Replies(o: Options, s: State, events: seq<Event>): seq<Reply>
    decreases |events|
  {
    if |events| == 0 then []
    else [Step(o, s, events[0]).1] + Replies(o, Step(o, s, events[0]).0, events[1..])
  }

  function Run(o: Options, s: State, events: seq<Event>): State
    decreases |events|
  {
    if |events| == 0 then s else Run(o, Step(o, s, events[0]).0, events[1..])
  }

  /** The clock never runs backwards, starting from `t`. */
  predicate Ordered(t: nat, events: seq<Event>)
    decreases |events|
  {
    |events| == 0 || (t <= events[0].now && Ordered(events[0].now, events[1..]))
  }

  ghost predicate ValidState(s: State) {
    ValidTable(s.global) && ValidTable(s.emails) && ValidTable(s.ips)
    && (forall k :: k in s.global.at ==> k == "global")
  }
}
