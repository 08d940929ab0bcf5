/** What the table operations of the rate limiter mean for a lookup, and how they keep
    the table well formed. */
module RateLimitTables {
  import opened Wrappers
  import opened RateLimitSpec

  lemma {:induction false} WithoutContents(keys: seq<string>, k: string)
    ensures forall x :: x in Without(keys, k) <==> x in keys && x != k
  {
    if |keys| > 0 {
      WithoutContents(keys[1..], k);
      assert keys == [keys[0]] + keys[1..];
    }
  }

  lemma {:induction false} WithoutMembers(keys: seq<string>, k: string)
    requires Distinct(keys)
    ensures Distinct(Without(keys, k))
    ensures |Without(keys, k)| == |keys| - (if k in keys then 1 else 0)
  {
    if |keys| > 0 {
      WithoutMembers(keys[1..], k);
      WithoutContents(keys[1..], k);
      assert keys == [keys[0]] + keys[1..];
      assert keys[0] !in keys[1..];
    }
  }

  lemma {:induction false} SurvivorsMembers(keys: seq<string>, at: map<string, Bucket>, now: nat)
    requires Distinct(keys)
    ensures Distinct(Survivors(keys, at, now))
    ensures forall x :: x in Survivors(keys, at, now) <==> x in keys && !(x in at && Dead(at[x], now))
    ensures |Survivors(keys, at, now)| <= |keys|
  {
    if |keys| > 0 {
      SurvivorsMembers(keys[1..], at, now);
      assert keys == [keys[0]] + keys[1..];
    }
  }

  /** An entry an operation did not work on is kept, or dropped altogether. */
  predicate KeptOrDropped(before: Slot, after: Slot) { after == before || after.None? }

  lemma DeleteMeaning(t: Table, k: string)
    requires ValidTable(t)
    ensures ValidTable(Delete(t, k)) && |Delete(t, k).order| == |t.order| - (if k in t.at then 1 else 0)
    ensures forall x :: Find(Delete(t, k), x) == if x == k then None else Find(t, x)
  {
    WithoutMembers(t.order, k);
    WithoutContents(t.order, k);
  }

  lemma PrunedMeaning(t: Table, now: nat)
    requires ValidTable(t)
    ensures ValidTable(Pruned(t, now)) && |Pruned(t, now).order| <= |t.order|
    ensures forall x :: Find(Pruned(t, now), x) == Alive(Find(t, x), now)
  {
    SurvivorsMembers(t.order, t.at, now);
  }

  lemma PutMeaning(t: Table, k: string, b: Bucket)
    requires ValidTable(t) && k != ""
    ensures ValidTable(Put(t, k, b)) && |Put(t, k, b).order| == |t.order| + (if k in t.at then 0 else 1)
    ensures forall x :: Find(Put(t, k, b), x) == if x == k then Some(b) else Find(t, x)
  {
    if k !in t.at {
      assert k !in t.order;
    }
  }

  /** The oldest key, and only that one, goes when a new key meets a full table. */
  lemma StoreMeaning(t: Table, k: string, b: Bucket, cap: int)
    requires ValidTable(t) && k != ""
    ensures ValidTable(Store(t, k, b, cap))
    ensures Find(Store(t, k, b, cap), k) == Some(b)
    ensures k in t.at || |t.order| < cap ==>
      forall x :: x != k ==> Find(Store(t, k, b, cap), x) == Find(t, x)
    ensures forall x :: x != k ==> KeptOrDropped(Find(t, x), Find(Store(t, k, b, cap), x))
    ensures cap >= 1 && |t.order| <= cap ==> |Store(t, k, b, cap).order| <= cap
  {
    var roomy := if k !in t.at && |t.order| >= cap then EvictOldest(t) else t;
    if |t.order| > 0 {
      assert t.order[0] in t.order;
      DeleteMeaning(t, t.order[0]);
    }
    PutMeaning(roomy, k, b);
  }

  // ----- Live keys -----

  ghost function LiveKeys(at: map<string, Bucket>, now: nat): set<string> {
    set k | k in at && !Dead(at[k], now)
  }

  lemma PrunedSize(t: Table, now: nat)
    requires ValidTable(t)
    ensures |Pruned(t, now).order| == |LiveKeys(t.at, now)|
  {
    SurvivorsMembers(t.order, t.at, now);
    DistinctCount(Pruned(t, now).order);
    assert (set k | k in Pruned(t, now).order) == LiveKeys(t.at, now);
  }

  /** There is room for `k` at `now`: counting it, the live keys fit under the cap. */
  ghost predicate Room(at: map<string, Bucket>, k: string, now: nat, cap: int) {
    |LiveKeys(at, now) + {k}| <= cap
  }

  lemma RoomMeansNoEviction(t: Table, k: string, now: nat, cap: int)
    requires ValidTable(t) && Room(t.at, k, now, cap)
    ensures k in Pruned(t, now).at || |Pruned(t, now).order| < cap
  {
    PrunedSize(t, now);
    if k !in Pruned(t, now).at {
      assert k !in LiveKeys(t.at, now);
    }
  }

  // ----- The four table operations of the limiter, seen through a lookup -----

  lemma TouchInMeaning(t: Table, k: string, now: nat)
    requires ValidTable(t)
    ensures ValidTable(TouchIn(t, k, now)) && |TouchIn(t, k, now).order| <= |t.order|
    ensures forall x :: Find(TouchIn(t, k, now), x) == if x == k then Alive(Find(t, k), now) else Find(t, x)
  {
    DeleteMeaning(t, k);
  }

  lemma ReleaseInMeaning(t: Table, k: string, now: nat)
    requires ValidTable(t) && k != ""
    ensures ValidTable(ReleaseIn(t, k, now)) && |ReleaseIn(t, k, now).order| <= |t.order|
    ensures Find(ReleaseIn(t, k, now), k) == Released(Alive(Find(t, k), now))
    ensures forall x :: x != k ==> Find(ReleaseIn(t, k, now), x) == Find(t, x)
    ensures LiveKeys(ReleaseIn(t, k, now).at, now) == LiveKeys(t.at, now)
  {
    DeleteMeaning(t, k);
    if k in t.at {
      PutMeaning(t, k, Released(Find(t, k)).value);
    }
  }

  /** `u` is `t` pruned at `now` with `b` stored under `k` in a table of `cap` entries. */
  ghost predicate Grown(t: Table, u: Table, k: string, b: Bucket, now: nat, cap: int) {
    && ValidTable(u)
    && Find(u, k) == Some(b)
    && (forall x :: x != k ==> KeptOrDropped(Alive(Find(t, x), now), Find(u, x)))
    && (Room(t.at, k, now, cap) ==> forall x :: x != k ==> Find(u, x) == Alive(Find(t, x), now))
    && (cap >= 1 && |t.order| <= cap ==> |u.order| <= cap)
  }

  lemma StoreGrows(t: Table, k: string, b: Bucket, now: nat, cap: int)
    requires ValidTable(t) && k != ""
    ensures Grown(t, Store(Pruned(t, now), k, b, cap), k, b, now, cap)
  {
    PrunedMeaning(t, now);
    StoreMeaning(Pruned(t, now), k, b, cap);
    if Room(t.at, k, now, cap) {
      RoomMeansNoEviction(t, k, now, cap);
    }
  }

  /** The hypothesis on the caps is exact: in a table within its cap, storing a new bucket
      forgets some other live bucket if and only if there was no room. */
  lemma EvictionIsLackOfRoom(t: Table, k: string, b: Bucket, now: nat, cap: int)
    requires ValidTable(t) && k != "" && 1 <= cap && |t.order| <= cap
    ensures Room(t.at, k, now, cap) <==>
      forall x :: x != k ==> Find(Store(Pruned(t, now), k, b, cap), x) == Alive(Find(t, x), now)
  {
    StoreGrows(t, k, b, now, cap);
    if !Room(t.at, k, now, cap) {
      var p := Pruned(t, now);
      PrunedMeaning(t, now);
      PrunedSize(t, now);
      assert k in LiveKeys(t.at, now) ==> LiveKeys(t.at, now) + {k} == LiveKeys(t.at, now);
      assert k !in p.at && |p.order| >= cap;
      var oldest := p.order[0];
      assert oldest in p.order;
      DeleteMeaning(p, oldest);
      PutMeaning(Delete(p, oldest), k, b);
      assert Find(Store(p, k, b, cap), oldest) == None;
    }
  }

  lemma ReserveInGrows(t: Table, k: string, now: nat, o: Options, cap: int)
    requires ValidTable(t) && k != ""
    ensures Grown(t, ReserveIn(t, k, now, o, cap), k, Reserved(Find(t, k), now, o), now, cap)
  {
    PrunedMeaning(t, now);
    assert Reserved(Find(Pruned(t, now), k), now, o) == Reserved(Find(t, k), now, o);
    StoreGrows(t, k, Reserved(Find(t, k), now, o), now, cap);
  }

  lemma FailInGrows(t: Table, k: string, now: nat, o: Options, max: int, cap: int)
    requires ValidTable(t) && k != ""
    ensures Grown(t, FailIn(t, k, now, o, max, cap), k, Failed(Find(t, k), now, o, max), now, cap)
  {
    PrunedMeaning(t, now);
    assert Failed(Find(Pruned(t, now), k), now, o, max) == Failed(Find(t, k), now, o, max);
    StoreGrows(t, k, Failed(Find(t, k), now, o, max), now, cap);
  }
}
