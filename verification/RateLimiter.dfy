/** The in-memory limiter itself: three mutable maps and the operations on them, each proved
    to do exactly what RateLimitSpec says. */
module RateLimiter {
  import opened Wrappers
  import opened RateLimitSpec
  import opened RateLimitTables
  import opened RateLimitSteps

  /** An insertion-ordered map from keys to buckets. */
  class BucketMap {
    var order: seq<string>
    var at: map<string, Bucket>

    ghost function Contents(): Table
      reads this
    {
      Table(order, at)
    }

    constructor ()
      ensures Contents() == EMPTY_TABLE
    {
      order := [];
      at := map[];
    }

    function Get(key: string): Slot
      reads this
    {
      if key in at then Some(at[key]) else None
    }

    method Set(key: string, bucket: Bucket)
      modifies this
      ensures Contents() == Put(old(Contents()), key, bucket)
    {
      if key !in at {
        order := order + [key];
      }
      at := at[key := bucket];
    }

    method Remove(key: string)
      modifies this
      ensures Contents() == Delete(old(Contents()), key)
    {
      if key in at {
        order := Without(order, key);
        at := at - {key};
      }
    }
  }

  lemma {:induction false} WithoutAbsent(a: seq<string>, k: string)
    requires k !in a
    ensures Without(a, k) == a
  {
    if |a| > 0 {
      WithoutAbsent(a[1..], k);
    }
  }

  lemma {:induction false} SurvivorsConcat(a: seq<string>, b: seq<string>, at: map<string, Bucket>, now: nat)
    ensures Survivors(a + b, at, now) == Survivors(a, at, now) + Survivors(b, at, now)
  {
    if |a| == 0 {
      assert a + b == b;
    } else {
      assert (a + b)[1..] == a[1..] + b;
      SurvivorsConcat(a[1..], b, at, now);
    }
  }

  lemma {:induction false} WithoutMiddle(a: seq<string>, k: string, b: seq<string>)
    requires k !in a && k !in b
    ensures Without(a + ([k] + b), k) == a + b
  {
    var all := a + ([k] + b);
    if |a| == 0 {
      assert all[1..] == b;
      WithoutAbsent(b, k);
      assert a + b == b;
    } else {
      assert all[1..] == a[1..] + ([k] + b);
      WithoutMiddle(a[1..], k, b);
      assert a + b == [a[0]] + (a[1..] + b);
    }
  }

  /** Deleting the key under the iterator leaves the survivors before it and the keys after it. */
  lemma PruneStep(keys: seq<string>, i: nat, at: map<string, Bucket>, now: nat)
    requires i < |keys| && Distinct(keys) && keys[i] in at
    ensures var before, after := Survivors(keys[..i], at, now), keys[i + 1..];
            Survivors(keys[..i + 1], at, now) + after ==
            if Dead(at[keys[i]], now) then Without(before + keys[i..], keys[i]) else before + keys[i..]
    ensures keys[..i + 1] == keys[..i] + [keys[i]] && keys[i] !in keys[..i]
  {
    var k, before, after := keys[i], Survivors(keys[..i], at, now), keys[i + 1..];
    SplitAt(keys, i);
    SurvivorsConcat(keys[..i], [k], at, now);
    OneSurvivor(k, at, now);
    AloneInKeys(keys, i, at, now);
    WithoutMiddle(before, k, after);
    Regroup(before, k, after);
  }

  lemma SplitAt(keys: seq<string>, i: nat)
    requires i < |keys|
    ensures keys[..i + 1] == keys[..i] + [keys[i]] && keys[i..] == [keys[i]] + keys[i + 1..]
  {
  }

  lemma Regroup(before: seq<string>, k: string, after: seq<string>)
    ensures before + [k] + after == before + ([k] + after) && before + [] + after == before + after
  {
  }

  lemma OneSurvivor(k: string, at: map<string, Bucket>, now: nat)
    requires k in at
    ensures Survivors([k], at, now) == if Dead(at[k], now) then [] else [k]
  {
    assert [k][1..] == [];
  }

  lemma AloneInKeys(keys: seq<string>, i: nat, at: map<string, Bucket>, now: nat)
    requires i < |keys| && Distinct(keys)
    ensures keys[i] !in keys[..i] && keys[i] !in keys[i + 1..] && keys[i] !in Survivors(keys[..i], at, now)
  {
    SurvivorsMembers(keys[..i], at, now);
  }

  /** `u` is `t` after the iterator has passed the first `i` keys. */
  ghost predicate PrunedUpTo(t: Table, u: Table, i: nat, now: nat)
    requires i <= |t.order|
  {
    && u.order == Survivors(t.order[..i], t.at, now) + t.order[i..]
    && (forall k :: Find(u, k) == if k in t.order[..i] then Alive(Find(t, k), now) else Find(t, k))
  }

  lemma PruneNext(t: Table, u: Table, i: nat, now: nat)
    requires ValidTable(t) && i < |t.order| && PrunedUpTo(t, u, i, now)
    ensures t.order[i] in t.at && Find(u, t.order[i]) == Some(t.at[t.order[i]])
    ensures PrunedUpTo(t, if Dead(t.at[t.order[i]], now) then Delete(u, t.order[i]) else u, i + 1, now)
  {
    var k := t.order[i];
    assert k in t.order;
    PruneStep(t.order, i, t.at, now);
    assert Find(u, k) == Some(t.at[k]);
  }

  lemma PruneDone(t: Table, u: Table, now: nat)
    requires ValidTable(t) && PrunedUpTo(t, u, |t.order|, now)
    ensures u == Pruned(t, now)
  {
    assert t.order[..|t.order|] == t.order;
    forall k
      ensures Find(u, k) == Alive(Find(t, k), now)
    {
      assert Find(u, k) == if k in t.order then Alive(Find(t, k), now) else Find(t, k);
    }
    assert u.at == Pruned(t, now).at by {
      forall k
        ensures k in u.at <==> k in Pruned(t, now).at
      {
        assert Find(u, k) == Alive(Find(t, k), now);
      }
      forall k | k in u.at
        ensures u.at[k] == Pruned(t, now).at[k]
      {
        assert Find(u, k) == Alive(Find(t, k), now);
      }
    }
  }

  method PruneExpiredBuckets(buckets: BucketMap, now: nat)
    requires ValidTable(buckets.Contents())
    modifies buckets
    ensures buckets.Contents() == Pruned(old(buckets.Contents()), now)
  {
    ghost var t := buckets.Contents();
    var keys := buckets.order;
    for i := 0 to |keys|
      invariant PrunedUpTo(t, buckets.Contents(), i, now)
    {
      PruneNext(t, buckets.Contents(), i, now);
      if Dead(buckets.at[keys[i]], now) {
        buckets.Remove(keys[i]);
      }
    }
    PruneDone(t, buckets.Contents(), now);
  }

  method DeleteOldestBucket(buckets: BucketMap)
    modifies buckets
    ensures buckets.Contents() == EvictOldest(old(buckets.Contents()))
  {
    if |buckets.order| > 0 {
      var oldestKey := buckets.order[0];
      if oldestKey != "" {
        buckets.Remove(oldestKey);
      }
    }
  }

  method GetRetryAfterMs(buckets: BucketMap, key: string, now: nat) returns (ms: int)
    modifies buckets
    ensures buckets.Contents() == TouchIn(old(buckets.Contents()), key, now)
    ensures ms == RetryMs(old(buckets.Get(key)), now)
  {
    var bucket := buckets.Get(key);
    if bucket.None? {
      return 0;
    }
    if Dead(bucket.value, now) {
      buckets.Remove(key);
      return 0;
    }
    ms := Max(0, bucket.value.blockedUntil - now);
  }

  method RetryAfterForReservationOverflow(buckets: BucketMap, key: string, now: nat, o: Options, max: int)
    returns (ms: int)
    requires ValidTable(buckets.Contents())
    modifies buckets
    ensures buckets.Contents() == Pruned(old(buckets.Contents()), now)
    ensures ms == OverflowMs(old(buckets.Get(key)), now, o, max)
  {
    PrunedMeaning(buckets.Contents(), now);
    PruneExpiredBuckets(buckets, now);
    var existing := buckets.Get(key);
    var bucket := Current(existing, now, o);
    assert bucket == Current(old(buckets.Get(key)), now, o);
    if bucket.attempts + bucket.pendingAttempts < max {
      return 0;
    }
    ms := Min(o.windowMs, MAX_RESERVATION_MS);
  }

  /** The common tail of reserving and of recording: make room for a new key, then store. */
  method StoreBucket(buckets: BucketMap, key: string, bucket: Bucket, cap: int)
    modifies buckets
    ensures buckets.Contents() == Store(old(buckets.Contents()), key, bucket, cap)
  {
    if buckets.Get(key).None? && |buckets.order| >= cap {
      DeleteOldestBucket(buckets);
    }
    buckets.Set(key, bucket);
  }

  method ReserveInBucket(buckets: BucketMap, key: string, now: nat, o: Options, cap: int)
    requires ValidTable(buckets.Contents())
    modifies buckets
    ensures buckets.Contents() == ReserveIn(old(buckets.Contents()), key, now, o, cap)
  {
    PruneExpiredBuckets(buckets, now);
    var bucket := Current(buckets.Get(key), now, o);
    bucket := bucket.(pendingAttempts := bucket.pendingAttempts + 1);
    StoreBucket(buckets, key, bucket, cap);
  }

  method ReleaseReservedAttemptInBucket(buckets: BucketMap, key: string, now: nat)
    modifies buckets
    ensures buckets.Contents() == ReleaseIn(old(buckets.Contents()), key, now)
  {
    var bucket := buckets.Get(key);
    if bucket.None? {
      return;
    }
    if Dead(bucket.value, now) {
      buckets.Remove(key);
      return;
    }
    buckets.Set(key, bucket.value.(pendingAttempts := Max(0, bucket.value.pendingAttempts - 1)));
  }

  method RecordFailureInBucket(buckets: BucketMap, key: string, now: nat, o: Options, max: int, cap: int)
    requires ValidTable(buckets.Contents())
    modifies buckets
    ensures buckets.Contents() == FailIn(old(buckets.Contents()), key, now, o, max, cap)
  {
    PruneExpiredBuckets(buckets, now);
    var bucket := Current(buckets.Get(key), now, o);
    bucket := bucket.(attempts := bucket.attempts + 1);
    if bucket.attempts >= max {
      bucket := bucket.(blockedUntil := now + o.blockMs);
    }
    StoreBucket(buckets, key, bucket, cap);
  }

  class AuthRateLimiter {
    const o: Options
    const globalBucket: BucketMap
    const emailBuckets: BucketMap
    const ipBuckets: BucketMap

    ghost function Footprint(): set<object> { {globalBucket, emailBuckets, ipBuckets} }

    ghost function Model(): State
      reads Footprint()
    {
      State(globalBucket.Contents(), emailBuckets.Contents(), ipBuckets.Contents())
    }

    ghost predicate Valid()
      reads Footprint()
    {
      && globalBucket != emailBuckets && globalBucket != ipBuckets && emailBuckets != ipBuckets
      && ValidState(Model())
    }

    constructor (options: Options)
      ensures Valid() && fresh(Footprint()) && Model() == EMPTY && o == options
    {
      o := options;
      globalBucket := new BucketMap();
      emailBuckets := new BucketMap();
      ipBuckets := new BucketMap();
    }

    function Buckets(w: Which): BucketMap {
      match w
      case Global => globalBucket
      case Email => emailBuckets
      case Ip => ipBuckets
    }

    method Check(input: Input, now: nat) returns (reply: Reply)
      requires Valid()
      modifies Footprint()
      ensures Valid()
      ensures (Model(), reply) == Step(o, old(Model()), Event(now, CheckOp(input)))
    {
      ghost var s := Model();
      var global := GetRetryAfterMs(globalBucket, "global", now);
      var email := GetRetryAfterMs(emailBuckets, input.EmailKey(), now);
      var ip := 0;
      if input.Key(Ip).Some? {
        ip := GetRetryAfterMs(ipBuckets, input.Key(Ip).value, now);
      }
      reply := Verdict(Max(global, Max(email, ip)));
      assert Model() == TouchAll(s, input, now);
      StepKeepsValid(o, s, Event(now, CheckOp(input)));
    }

    /** The first pass over the reservations: the longest wait, touching every bucket. */
    method LongestRetry(input: Input, now: nat) returns (ms: int)
      requires Valid()
      modifies Footprint()
      ensures Valid() && Model() == TouchAll(old(Model()), input, now)
      ensures ms == MaxRetry(old(Model()).At(input), now)
    {
      ghost var s := Model();
      var reservations := input.Addresses();
      ms := 0;
      for n := 0 to |reservations|
        invariant forall w: Which :: Model().Get(w) == if Position(w) < n then TouchTable(s, input, w, now) else s.Get(w)
        invariant ms == MaxRetry(Slots(if 0 < n then s.SlotOf(input, Global) else None,
                                       if 1 < n then s.SlotOf(input, Email) else None,
                                       if 2 < n then s.SlotOf(input, Ip) else None), now)
      {
        var a := reservations[n];
        var retry := GetRetryAfterMs(Buckets(a.which), a.key, now);
        ms := Max(ms, retry);
      }
      StepKeepsValid(o, s, Event(now, CheckOp(input)));
      SameTables(Model(), TouchAll(s, input, now));
    }

    /** The overflow wait of one table, which is pruned on the way. */
    method OverflowIn(w: Which, input: Input, now: nat) returns (ms: int)
      requires globalBucket != emailBuckets && globalBucket != ipBuckets && emailBuckets != ipBuckets
      requires input.Key(w).Some? && ValidTable(Model().Get(w))
      modifies Buckets(w)
      ensures forall x: Which :: Model().Get(x) == if x == w then PruneTable(old(Model()), input, w, now) else old(Model()).Get(x)
      ensures ms == OverflowMs(Find(old(Model()).Get(w), input.Key(w).value), now, o, o.MaxFailures(w))
    {
      ms := RetryAfterForReservationOverflow(Buckets(w), input.Key(w).value, now, o, o.MaxFailures(w));
    }

    /** The second pass: stop at the first bucket without room. */
    method FirstWithoutRoom(input: Input, now: nat) returns (ms: int)
      requires Valid()
      modifies Footprint()
      ensures Valid() && Model() == OverflowPruned(o, old(Model()), input, now)
      ensures ms == Max(0, FirstOverflow(o, old(Model()).At(input), input, now))
    {
      ghost var s := Model();
      var reservations := input.Addresses();
      PrunedStaysValid(o, s, input, now);
      for n := 0 to |reservations|
        invariant Passed(o, s, Model(), input, now, n)
      {
        var w := reservations[n].which;
        NextTarget(o, s, Model(), input, now, n);
        ghost var u := Model();
        ms := OverflowIn(w, input, now);
        PassNext(o, s, u, Model(), input, now, n, ms);
        if ms > 0 {
          return;
        }
      }
      PassedAll(o, s, Model(), input, now);
      ms := 0;
    }

    /** The reservation in one table; the others stay as they are. */
    method ReserveOne(a: Addr, input: Input, now: nat)
      requires globalBucket != emailBuckets && globalBucket != ipBuckets && emailBuckets != ipBuckets
      requires input.Key(a.which) == Some(a.key) && ValidTable(Model().Get(a.which))
      modifies Buckets(a.which)
      ensures forall w: Which :: Model().Get(w) == if w == a.which then ReserveTable(o, old(Model()), input, w, now) else old(Model()).Get(w)
    {
      ReserveInBucket(Buckets(a.which), a.key, now, o, o.Cap(a.which));
    }

    /** The third pass: reserve in every bucket. */
    method ReserveEverywhere(input: Input, now: nat)
      requires Valid()
      modifies Footprint()
      ensures Model() == ReserveAll(o, old(Model()), input, now)
    {
      ghost var s := Model();
      var reservations := input.Addresses();
      for n := 0 to |reservations|
        invariant ReservedUpTo(o, s, Model(), input, now, n)
      {
        var a := reservations[n];
        ghost var u := Model();
        ReserveOne(a, input, now);
        ReservedNext(o, s, u, Model(), input, now, n);
      }
      SameTables(Model(), ReserveAll(o, s, input, now));
    }

    method ReserveAttempt(input: Input, now: nat) returns (reply: Reply)
      requires Valid()
      modifies Footprint()
      ensures Valid()
      ensures (Model(), reply) == Step(o, old(Model()), Event(now, ReserveOp(input)))
    {
      ghost var s := Model();
      StepKeepsValid(o, s, Event(now, ReserveOp(input)));
      var retryAfterMs := LongestRetry(input, now);
      if retryAfterMs > 0 {
        return Denied(Seconds(retryAfterMs));
      }
      var overflow := FirstWithoutRoom(input, now);
      if overflow > 0 {
        return Denied(Seconds(overflow));
      }
      ReserveEverywhere(input, now);
      return Allowed;
    }

    method ReleaseReservedAttempt(input: Input, now: nat)
      requires Valid()
      modifies Footprint()
      ensures Valid()
      ensures Model() == Step(o, old(Model()), Event(now, ReleaseOp(input))).0
    {
      ghost var s := Model();
      StepKeepsValid(o, s, Event(now, ReleaseOp(input)));
      ReleaseReservedAttemptInBucket(globalBucket, "global", now);
      ReleaseReservedAttemptInBucket(emailBuckets, input.EmailKey(), now);
      if input.Key(Ip).Some? {
        ReleaseReservedAttemptInBucket(ipBuckets, input.Key(Ip).value, now);
      }
    }

    method FailEverywhere(input: Input, now: nat)
      requires Valid()
      modifies Footprint()
      ensures Model() == FailAll(o, old(Model()), input, now)
    {
      RecordFailureInBucket(globalBucket, "global", now, o, o.maxGlobalFailures, 1);
      RecordFailureInBucket(emailBuckets, input.EmailKey(), now, o, o.maxFailures, o.maxTrackedEmails);
      if input.Key(Ip).Some? {
        RecordFailureInBucket(ipBuckets, input.Key(Ip).value, now, o, o.maxFailures, o.maxTrackedIps);
      }
    }

    method RecordFailure(input: Input, reserved: bool, now: nat)
      requires Valid()
      modifies Footprint()
      ensures Valid()
      ensures Model() == Step(o, old(Model()), Event(now, FailureOp(input, reserved))).0
    {
      ghost var s := Model();
      FailureKeepsValid(o, s, input, reserved, now);
      if reserved {
        ReleaseReservedAttempt(input, now);
        assert Model() == ReleaseAll(s, input, now);
      }
      FailEverywhere(input, now);
      assert Model() == Failure(o, s, input, reserved, now);
    }

    method RecordSuccess(input: Input, reserved: bool, now: nat)
      requires Valid()
      modifies Footprint()
      ensures Valid()
      ensures Model() == Step(o, old(Model()), Event(now, SuccessOp(input, reserved))).0
    {
      ghost var s := Model();
      StepKeepsValid(o, s, Event(now, SuccessOp(input, reserved)));
      if reserved {
        ReleaseReservedAttempt(input, now);
      }
      emailBuckets.Remove(input.EmailKey());
    }
  }

  lemma FailureKeepsValid(o: Options, s: State, i: Input, reserved: bool, now: nat)
    requires ValidState(s)
    ensures ValidState(Failure(o, s, i, reserved, now))
    ensures Step(o, s, Event(now, FailureOp(i, reserved))).0 == Failure(o, s, i, reserved, now)
  {
    StepKeepsValid(o, s, Event(now, FailureOp(i, reserved)));
  }

  lemma PrunedStaysValid(o: Options, s: State, i: Input, now: nat)
    requires ValidState(s)
    ensures ValidState(OverflowPruned(o, s, i, now))
  {
    PrunedMeaning(s.global, now);
    PrunedMeaning(s.emails, now);
    PrunedMeaning(s.ips, now);
  }

  /** The first `n` reservations found room, and their tables are pruned. */
  ghost predicate Passed(o: Options, s: State, u: State, i: Input, now: nat, n: nat) {
    && (forall w: Which :: u.Get(w) == if Position(w) < n then PruneTable(s, i, w, now) else s.Get(w))
    && (forall w: Which :: Position(w) < n ==> OverflowOf(o, s.At(i), i, w, now) <= 0)
  }

  lemma NextTarget(o: Options, s: State, u: State, i: Input, now: nat, n: nat)
    requires ValidState(s) && Passed(o, s, u, i, now, n) && n < |i.Addresses()|
    ensures var w := i.Addresses()[n].which;
      Position(w) == n && i.Key(w).Some? && u.Get(w) == s.Get(w) && ValidTable(u.Get(w))
  {
  }

  lemma PassNext(o: Options, s: State, u: State, u': State, i: Input, now: nat, n: nat, ms: int)
    requires Passed(o, s, u, i, now, n) && n < |i.Addresses()|
    requires var w := i.Addresses()[n].which;
      && (forall x: Which :: u'.Get(x) == if x == w then PruneTable(u, i, w, now) else u.Get(x))
      && ms == OverflowOf(o, s.At(i), i, w, now)
    ensures ms <= 0 ==> Passed(o, s, u', i, now, n + 1)
    ensures ms > 0 ==> u' == OverflowPruned(o, s, i, now) && ms == FirstOverflow(o, s.At(i), i, now)
  {
    var w := i.Addresses()[n].which;
    assert Position(w) == n && u.Get(w) == s.Get(w);
    if ms > 0 {
      assert u' == State(u'.Get(Global), u'.Get(Email), u'.Get(Ip));
      assert n > 0 ==> OverflowOf(o, s.At(i), i, Global, now) <= 0;
      assert n > 1 ==> OverflowOf(o, s.At(i), i, Email, now) <= 0;
    }
  }

  lemma PassedAll(o: Options, s: State, u: State, i: Input, now: nat)
    requires Passed(o, s, u, i, now, |i.Addresses()|)
    ensures u == OverflowPruned(o, s, i, now) && FirstOverflow(o, s.At(i), i, now) <= 0
  {
    assert u == State(u.Get(Global), u.Get(Email), u.Get(Ip));
    assert OverflowOf(o, s.At(i), i, Global, now) <= 0 && OverflowOf(o, s.At(i), i, Email, now) <= 0;
  }

  /** The first `n` reservations are made. */
  ghost predicate ReservedUpTo(o: Options, s: State, u: State, i: Input, now: nat, n: nat) {
    forall w: Which :: u.Get(w) == if Position(w) < n then ReserveTable(o, s, i, w, now) else s.Get(w)
  }

  lemma ReservedNext(o: Options, s: State, u: State, u': State, i: Input, now: nat, n: nat)
    requires ReservedUpTo(o, s, u, i, now, n) && n < |i.Addresses()|
    requires var a := i.Addresses()[n];
      forall w: Which :: u'.Get(w) == if w == a.which then ReserveTable(o, u, i, w, now) else u.Get(w)
    ensures ReservedUpTo(o, s, u', i, now, n + 1)
  {
    var a := i.Addresses()[n];
    assert Position(a.which) == n && u.Get(a.which) == s.Get(a.which);
  }

  lemma SameTables(s: State, u: State)
    requires s.Get(Global) == u.Get(Global) && s.Get(Email) == u.Get(Email) && s.Get(Ip) == u.Get(Ip)
    ensures s == u
  {
  }

  function Position(w: Which): nat {
    match w
    case Global => 0
    case Email => 1
    case Ip => 2
  }
}
