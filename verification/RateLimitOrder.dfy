/** Which bucket is forgotten when a table is full: tables keep their keys in the order in which
    they arrived, and the live key that arrived first goes. */
module RateLimitOrder {
  import opened Wrappers
  import opened RateLimitSpec
  import opened RateLimitTables
  import opened RateLimitSteps

  /** `x` stands somewhere before `y`. */
  ghost predicate Precedes(order: seq<string>, x: string, y: string) {
    exists a, b :: 0 <= a < b < |order| && order[a] == x && order[b] == y
  }

  ghost predicate Live(t: Table, k: string, now: nat) { k in t.at && !Dead(t.at[k], now) }

  /** The keys of `u` stand in `t` as well, in the same order. */
  ghost predicate SameOrder(t: seq<string>, u: seq<string>) {
    forall i, j :: 0 <= i < j < |u| ==> Precedes(t, u[i], u[j])
  }

  /** Arrivals go to the end: a key that was live before the step stands behind no key but those that
      were live and stood before it already. */
  ghost predicate ByArrival(t: Table, u: Table, now: nat) {
    forall i, j :: 0 <= i < j < |u.order| && Live(t, u.order[j], now) && Live(u, u.order[i], now) ==>
      Live(t, u.order[i], now) && Precedes(t.order, u.order[i], u.order[j])
  }

  // ----- Removing keys keeps the order -----

  lemma PrecedesIn(order: seq<string>, rest: seq<string>, x: string, y: string)
    requires |order| > 0 && rest == order[1..] && Precedes(rest, x, y)
    ensures Precedes(order, x, y)
  {
    var a, b :| 0 <= a < b < |rest| && rest[a] == x && rest[b] == y;
    assert order[a + 1] == x && order[b + 1] == y;
  }

  lemma PrecedesFirst(order: seq<string>, y: string)
    requires |order| > 0 && y in order[1..]
    ensures Precedes(order, order[0], y)
  {
    var b :| 0 <= b < |order[1..]| && order[1..][b] == y;
    assert order[b + 1] == y;
  }

  lemma ConsKeepsOrder(order: seq<string>, u: seq<string>, rest: seq<string>)
    requires |order| > 0 && rest == order[1..] && SameOrder(rest, u) && forall y :: y in u ==> y in rest
    ensures SameOrder(order, u) && SameOrder(order, [order[0]] + u)
  {
    forall i, j | 0 <= i < j < |u|
      ensures Precedes(order, u[i], u[j])
    {
      PrecedesIn(order, rest, u[i], u[j]);
    }
    var v := [order[0]] + u;
    forall i, j | 0 <= i < j < |v|
      ensures Precedes(order, v[i], v[j])
    {
      if i == 0 {
        PrecedesFirst(order, u[j - 1]);
      } else {
        assert v[i] == u[i - 1] && v[j] == u[j - 1];
      }
    }
  }

  lemma {:induction false} WithoutKeepsOrder(keys: seq<string>, k: string)
    ensures SameOrder(keys, Without(keys, k))
  {
    if |keys| > 0 {
      WithoutKeepsOrder(keys[1..], k);
      WithoutContents(keys[1..], k);
      ConsKeepsOrder(keys, Without(keys[1..], k), keys[1..]);
      assert [] + Without(keys[1..], k) == Without(keys[1..], k);
    }
  }

  lemma {:induction false} SurvivorsKeepOrder(keys: seq<string>, at: map<string, Bucket>, now: nat)
    ensures SameOrder(keys, Survivors(keys, at, now)) && forall x :: x in Survivors(keys, at, now) ==> x in keys
  {
    if |keys| > 0 {
      SurvivorsKeepOrder(keys[1..], at, now);
      ConsKeepsOrder(keys, Survivors(keys[1..], at, now), keys[1..]);
      assert [] + Survivors(keys[1..], at, now) == Survivors(keys[1..], at, now);
      assert keys == [keys[0]] + keys[1..];
    }
  }

  /** `u` is `t` with some keys removed; what is left ends when it did. */
  ghost predicate Thinned(t: Table, u: Table) {
    && SameOrder(t.order, u.order)
    && forall k :: k in u.at ==>
         k in t.at && u.at[k].windowExpiresAt == t.at[k].windowExpiresAt && u.at[k].blockedUntil == t.at[k].blockedUntil
  }

  lemma ThinnedTwice(t: Table, u: Table, v: Table)
    requires Thinned(t, u) && Thinned(u, v)
    ensures Thinned(t, v)
  {
    forall i, j | 0 <= i < j < |v.order|
      ensures Precedes(t.order, v.order[i], v.order[j])
    {
      assert Precedes(u.order, v.order[i], v.order[j]);
      var a, b :| 0 <= a < b < |u.order| && u.order[a] == v.order[i] && u.order[b] == v.order[j];
    }
  }

  lemma Unthinned(t: Table)
    ensures Thinned(t, t)
  {
  }

  lemma DeleteThins(t: Table, k: string)
    ensures Thinned(t, Delete(t, k))
  {
    WithoutKeepsOrder(t.order, k);
    Unthinned(t);
  }

  lemma PrunedThins(t: Table, now: nat)
    ensures Thinned(t, Pruned(t, now))
  {
    SurvivorsKeepOrder(t.order, t.at, now);
  }

  lemma ReleaseThins(t: Table, k: string, now: nat)
    ensures Thinned(t, ReleaseIn(t, k, now))
  {
    DeleteThins(t, k);
    Unthinned(t);
  }

  lemma ThinnedIsByArrival(t: Table, u: Table, now: nat)
    requires Thinned(t, u)
    ensures ByArrival(t, u, now)
  {
  }

  /** The table with room for `k`. */
  function Roomed(t: Table, k: string, cap: int): Table { if k !in t.at && |t.order| >= cap then EvictOldest(t) else t }

  lemma RoomedThins(t: Table, k: string, cap: int)
    requires ValidTable(t)
    ensures Thinned(t, Roomed(t, k, cap)) && ValidTable(Roomed(t, k, cap)) && (k in t.at ==> k in Roomed(t, k, cap).at)
  {
    Unthinned(t);
    if |t.order| > 0 {
      DeleteThins(t, t.order[0]);
      DeleteMeaning(t, t.order[0]);
    }
  }

  lemma PrunedIsLive(t: Table, p: Table, now: nat)
    requires Thinned(t, p) && ValidTable(p) && forall x :: Live(t, x, now) ==> x in p.at
    ensures Thinned(t, Pruned(p, now)) && ValidTable(Pruned(p, now))
    ensures forall x :: x in Pruned(p, now).at <==> Live(t, x, now)
  {
    PrunedMeaning(p, now);
    PrunedThins(p, now);
    ThinnedTwice(t, p, Pruned(p, now));
  }

  /** Storing after pruning: a key that is not there yet goes to the end. */
  lemma StoreIsByArrival(t: Table, p: Table, k: string, b: Bucket, now: nat, cap: int)
    requires Thinned(t, p) && ValidTable(p) && forall x :: Live(t, x, now) ==> x in p.at
    ensures ByArrival(t, Store(Pruned(p, now), k, b, cap), now)
  {
    PrunedIsLive(t, p, now);
    RoomedThins(Pruned(p, now), k, cap);
    ThinnedTwice(t, Pruned(p, now), Roomed(Pruned(p, now), k, cap));
    PutIsByArrival(t, Roomed(Pruned(p, now), k, cap), k, b, now);
  }

  lemma PutIsByArrival(t: Table, q: Table, k: string, b: Bucket, now: nat)
    requires Thinned(t, q) && ValidTable(q) && (forall x :: x in q.at ==> Live(t, x, now)) && (Live(t, k, now) ==> k in q.at)
    ensures ByArrival(t, Put(q, k, b), now)
  {
    var u := Put(q, k, b);
    forall i, j | 0 <= i < j < |u.order| && Live(t, u.order[j], now) && Live(u, u.order[i], now)
      ensures Live(t, u.order[i], now) && Precedes(t.order, u.order[i], u.order[j])
    {
      assert j < |q.order|;
      assert u.order[i] == q.order[i] && u.order[j] == q.order[j] && q.order[i] in q.order;
    }
  }

  // ----- Every step -----

  lemma TouchThins(t: Table, k: string, now: nat)
    requires ValidTable(t)
    ensures Thinned(t, TouchIn(t, k, now)) && ValidTable(TouchIn(t, k, now))
    ensures forall x :: Live(t, x, now) ==> x in TouchIn(t, k, now).at
  {
    DeleteThins(t, k);
    DeleteMeaning(t, k);
    Unthinned(t);
  }

  lemma TouchedThins(s: State, i: Input, w: Which, now: nat)
    requires ValidState(s)
    ensures Thinned(s.Get(w), TouchAll(s, i, now).Get(w))
  {
    if i.Key(w).Some? {
      TouchThins(s.Get(w), i.Key(w).value, now);
    } else {
      Unthinned(s.Get(w));
    }
  }

  lemma PrunedOrNot(o: Options, s: State, i: Input, w: Which, now: nat)
    ensures OverflowPruned(o, s, i, now).Get(w) == s.Get(w) || OverflowPruned(o, s, i, now).Get(w) == Pruned(s.Get(w), now)
  {
  }

  /** What an operation has done to a table before it stores, if it stores. */
  lemma LookedAtThins(o: Options, s: State, i: Input, w: Which, now: nat)
    requires ValidState(s)
    ensures Thinned(s.Get(w), OverflowPruned(o, TouchAll(s, i, now), i, now).Get(w))
  {
    var u := TouchAll(s, i, now).Get(w);
    TouchedThins(s, i, w, now);
    PrunedOrNot(o, TouchAll(s, i, now), i, w, now);
    PrunedThins(u, now);
    ThinnedTwice(s.Get(w), u, Pruned(u, now));
  }

  lemma ReleasedThins(s: State, i: Input, w: Which, now: nat)
    requires ValidState(s)
    ensures Thinned(s.Get(w), ReleaseAll(s, i, now).Get(w)) && ValidTable(ReleaseAll(s, i, now).Get(w))
    ensures forall x :: Live(s.Get(w), x, now) ==> x in ReleaseAll(s, i, now).Get(w).at
  {
    var t := s.Get(w);
    if i.Key(w).Some? {
      ReleaseThins(t, i.Key(w).value, now);
      KeyIsNotEmpty(i, w);
      ReleaseInMeaning(t, i.Key(w).value, now);
      forall x | Live(t, x, now)
        ensures x in ReleaseIn(t, i.Key(w).value, now).at
      {
        assert x in LiveKeys(t.at, now);
      }
    } else {
      Unthinned(t);
    }
  }

  lemma KeyIsNotEmpty(i: Input, w: Which)
    ensures i.Key(w).Some? ==> i.Key(w).value != ""
  {
  }

  lemma FailIsByArrival(o: Options, s: State, i: Input, reserved: bool, w: Which, now: nat)
    requires ValidState(s)
    ensures ByArrival(s.Get(w), Failure(o, s, i, reserved, now).Get(w), now)
  {
    var t, p := s.Get(w), (if reserved then ReleaseAll(s, i, now) else s).Get(w);
    ReleasedThins(s, i, w, now);
    Unthinned(t);
    if i.Key(w).Some? {
      StoreIsByArrival(t, p, i.Key(w).value, Failed(Find(Pruned(p, now), i.Key(w).value), now, o, o.MaxFailures(w)), now, o.Cap(w));
    }
    ThinnedIsByArrival(t, p, now);
  }

  lemma ReserveIsByArrival(o: Options, s: State, i: Input, w: Which, now: nat)
    requires ValidState(s)
    ensures ByArrival(s.Get(w), Reserve(o, s, i, now).0.Get(w), now)
  {
    var t := s.Get(w);
    var p := OverflowPruned(o, TouchAll(s, i, now), i, now).Get(w);
    TouchedThins(s, i, w, now);
    LookedAtThins(o, s, i, w, now);
    LookedAtShadow(o, s, i, w, now);
    ShadowKeepsLive(t, p, now);
    forall x | Live(t, x, now)
      ensures x in p.at
    {
      assert x in LiveKeys(t.at, now);
    }
    if i.Key(w).Some? {
      StoreIsByArrival(t, p, i.Key(w).value, Reserved(Find(Pruned(p, now), i.Key(w).value), now, o), now, o.Cap(w));
    }
    ThinnedIsByArrival(t, p, now);
    ThinnedIsByArrival(t, TouchAll(s, i, now).Get(w), now);
  }

  lemma SuccessIsByArrival(s: State, i: Input, reserved: bool, w: Which, now: nat)
    requires ValidState(s)
    ensures ByArrival(s.Get(w), Success(s, i, reserved, now).Get(w), now)
  {
    var t, p := s.Get(w), (if reserved then ReleaseAll(s, i, now) else s).Get(w);
    ReleasedThins(s, i, w, now);
    Unthinned(t);
    DeleteThins(p, i.EmailKey());
    ThinnedTwice(t, p, Delete(p, i.EmailKey()));
    ThinnedIsByArrival(t, p, now);
    ThinnedIsByArrival(t, Delete(p, i.EmailKey()), now);
  }

  lemma CheckIsByArrival(s: State, i: Input, w: Which, now: nat)
    requires ValidState(s)
    ensures ByArrival(s.Get(w), Check(s, i, now).0.Get(w), now)
  {
    TouchedThins(s, i, w, now);
    ThinnedIsByArrival(s.Get(w), TouchAll(s, i, now).Get(w), now);
  }

  lemma ReleaseIsByArrival(s: State, i: Input, w: Which, now: nat)
    requires ValidState(s)
    ensures ByArrival(s.Get(w), ReleaseAll(s, i, now).Get(w), now)
  {
    ReleasedThins(s, i, w, now);
    ThinnedIsByArrival(s.Get(w), ReleaseAll(s, i, now).Get(w), now);
  }

  /** Main result: whatever the operation, each of the three tables keeps its live keys in the order
      in which they arrived, and what arrives goes to the end. */
  lemma StepIsByArrival(o: Options, s: State, e: Event, w: Which)
    requires ValidState(s)
    ensures ByArrival(s.Get(w), Step(o, s, e).0.Get(w), e.now)
  {
    match e.op {
      case CheckOp(i) => CheckIsByArrival(s, i, w, e.now);
      case ReserveOp(i) => ReserveIsByArrival(o, s, i, w, e.now);
      case ReleaseOp(i) => ReleaseIsByArrival(s, i, w, e.now);
      case FailureOp(i, r) => FailIsByArrival(o, s, i, r, w, e.now);
      case SuccessOp(i, r) => SuccessIsByArrival(s, i, r, w, e.now);
    }
  }

  // ----- Who goes -----

  /** Among the live keys `x` stands first. */
  ghost predicate StandsFirst(t: Table, x: string, now: nat) {
    exists n :: 0 <= n < |t.order| && t.order[n] == x && forall m :: 0 <= m < n ==> !Live(t, t.order[m], now)
  }

  /** Main result: when a new key meets a table full of live ones, the live key that stands first is
      forgotten, and no other. */
  lemma OldestIsForgotten(t: Table, k: string, b: Bucket, now: nat, cap: int, x: string)
    requires ValidTable(t) && k != "" && 1 <= cap <= |LiveKeys(t.at, now)|
    requires Live(t, x, now) && !Live(t, k, now)
    ensures Find(Store(Pruned(t, now), k, b, cap), x).None? <==>
      exists n :: 0 <= n < |t.order| && t.order[n] == x && forall m :: 0 <= m < n ==> !Live(t, t.order[m], now)
  {
    var p := Pruned(t, now);
    PrunedMeaning(t, now);
    PrunedSize(t, now);
    assert Find(p, x) == Alive(Find(t, x), now) && Find(p, k) == Alive(Find(t, k), now);
    FirstIsForgotten(p, k, b, cap, x);
    FirstSurvives(t, now);
    FirstIsUnique(t, now, p.order[0], x);
  }

  lemma FirstIsForgotten(p: Table, k: string, b: Bucket, cap: int, x: string)
    requires ValidTable(p) && k != "" && k !in p.at && 1 <= cap <= |p.order| && x in p.at
    ensures Find(Store(p, k, b, cap), x).None? <==> x == p.order[0]
  {
    assert p.order[0] in p.order;
    DeleteMeaning(p, p.order[0]);
    PutMeaning(Delete(p, p.order[0]), k, b);
  }

  lemma FirstSurvives(t: Table, now: nat)
    requires ValidTable(t) && |Pruned(t, now).order| > 0
    ensures Live(t, Pruned(t, now).order[0], now) && StandsFirst(t, Pruned(t, now).order[0], now)
  {
    var n := FirstSurvivor(t.order, t.at, now);
    assert t.order[n] in t.order;
  }

  lemma {:induction false} FirstSurvivor(keys: seq<string>, at: map<string, Bucket>, now: nat) returns (n: nat)
    requires |Survivors(keys, at, now)| > 0
    ensures n < |keys| && keys[n] == Survivors(keys, at, now)[0]
    ensures !(keys[n] in at && Dead(at[keys[n]], now)) && forall m :: 0 <= m < n ==> keys[m] in at && Dead(at[keys[m]], now)
  {
    if keys[0] in at && Dead(at[keys[0]], now) {
      n := FirstSurvivor(keys[1..], at, now);
      assert forall m :: 0 < m < |keys| ==> keys[m] == keys[1..][m - 1];
      n := n + 1;
    } else {
      n := 0;
    }
  }

  lemma FirstIsUnique(t: Table, now: nat, first: string, x: string)
    requires ValidTable(t) && Live(t, x, now) && Live(t, first, now) && StandsFirst(t, first, now)
    ensures x == first <==> StandsFirst(t, x, now)
  {
    var n :| 0 <= n < |t.order| && t.order[n] == first && forall m :: 0 <= m < n ==> !Live(t, t.order[m], now);
    if StandsFirst(t, x, now) {
      var a :| 0 <= a < |t.order| && t.order[a] == x && forall m :: 0 <= m < a ==> !Live(t, t.order[m], now);
      assert a == n;
    }
  }
}
