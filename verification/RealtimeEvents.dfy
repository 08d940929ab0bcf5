/** Realtime events of transactions: a publish is deferred until its transaction commits, and then
    goes through the bus to whoever listens at that moment.  The bus of notifications keys its
    listener sets by a channel, and is otherwise the one of planning events. */
module RealtimeEvents {
  import opened Wrappers
  import Queues = AfterCommit
  import Bus = EventBus

  /** The two protocols side by side: steps of transactions and calls on the bus. */
  datatype Moment = OfQueue(step: Queues.Step) | OfBus(call: Bus.Step)

  function QueueSteps(moments: seq<Moment>): seq<Queues.Step>
    decreases |moments|
  {
    if |moments| == 0 then []
    else
      var before, m := QueueSteps(moments[..|moments| - 1]), moments[|moments| - 1];
      if m.OfQueue? then before + [m.step] else before
  }

  /** The bus after the moments; only closures that have been handed out can be called. */
  ghost function BusAt(moments: seq<Moment>): (b: Bus.Bus)
    ensures Bus.Shaped(b)
    decreases |moments|
  {
    if |moments| == 0 then Bus.EMPTY
    else
      var b, m := BusAt(moments[..|moments| - 1]), moments[|moments| - 1];
      if m.OfBus? && (m.call.Leave? ==> Bus.Genuine(b, m.call.handle)) then
        Bus.ApplyKeepsShape(b, m.call);
        Bus.Apply(b, m.call)
      else b
  }

  /** A delivery: a listener, and the callback whose publish reached it. */
  type Delivery = (Bus.Listener, Queues.Callback)

  /** The callback publishes its event to each listener of its channel, in order. */
  ghost function Publish(b: Bus.Bus, c: Queues.Callback, channelOf: Queues.Callback -> string): seq<Delivery>
    requires Bus.Shaped(b)
  {
    var to := Bus.Listeners(b, channelOf(c));
    seq(|to|, i requires 0 <= i < |to| => (to[i], c))
  }

  ghost function PublishAll(b: Bus.Bus, queue: seq<Queues.Callback>, channelOf: Queues.Callback -> string): seq<Delivery>
    requires Bus.Shaped(b)
  {
    if |queue| == 0 then [] else Publish(b, queue[0], channelOf) + PublishAll(b, queue[1..], channelOf)
  }

  /** The callbacks a moment calls: those of a committing transaction, or one deferred outside. */
  function CalledBy(before: seq<Moment>, m: Moment): seq<Queues.Callback> {
    if m.OfBus? then []
    else
      match m.step
      case DeferOutside(c) => [c]
      case Commit(tx) =>
        var open := Queues.Run(QueueSteps(before)).open;
        if tx in open then open[tx] else []
      case _ => []
  }

  ghost function Delivered(moments: seq<Moment>, channelOf: Queues.Callback -> string): seq<Delivery>
    decreases |moments|
  {
    if |moments| == 0 then []
    else
      var before, m := moments[..|moments| - 1], moments[|moments| - 1];
      Delivered(before, channelOf) + PublishAll(BusAt(before), CalledBy(before, m), channelOf)
  }

  // ----- One publish, one queue -----

  /** `l` listens to the channel. */
  ghost predicate Hears(b: Bus.Bus, l: Bus.Listener, channel: string)
    requires Bus.Shaped(b)
  {
    l in Bus.Listeners(b, channel)
  }

  lemma OnePublish(b: Bus.Bus, c: Queues.Callback, channelOf: Queues.Callback -> string, d: Delivery)
    requires Bus.Shaped(b)
    ensures Times(Publish(b, c, channelOf), d) == if d.1 == c && Hears(b, d.0, channelOf(c)) then 1 else 0
  {
    var to := Bus.Listeners(b, channelOf(c));
    var s := Publish(b, c, channelOf);
    assert |s| == |to| && forall i :: 0 <= i < |to| ==> s[i] == (to[i], c);
    assert Distinct(s);
    TimesWhenDistinct(s, d);
    if d.1 == c && d.0 in to {
      var i :| 0 <= i < |to| && to[i] == d.0;
      assert s[i] == d;
    }
  }

  lemma {:induction false} OneQueue(b: Bus.Bus, queue: seq<Queues.Callback>, channelOf: Queues.Callback -> string, d: Delivery)
    requires Bus.Shaped(b) && Distinct(queue)
    ensures Times(PublishAll(b, queue, channelOf), d) == if d.1 in queue && Hears(b, d.0, channelOf(d.1)) then 1 else 0
  {
    if |queue| > 0 {
      OneQueue(b, queue[1..], channelOf, d);
      OnePublish(b, queue[0], channelOf, d);
      TimesConcat(Publish(b, queue[0], channelOf), PublishAll(b, queue[1..], channelOf), d);
      assert queue == [queue[0]] + queue[1..] && queue[0] !in queue[1..];
    }
  }

  // ----- What is called when -----

  function Called(moments: seq<Moment>): seq<Queues.Callback> { Queues.Run(QueueSteps(moments)).called }

  lemma CalledGrows(before: seq<Moment>, m: Moment)
    ensures Called(before + [m]) == Called(before) + CalledBy(before, m)
  {
    var moments := before + [m];
    assert moments[..|moments| - 1] == before;
    if m.OfQueue? {
      var steps := QueueSteps(before) + [m.step];
      assert QueueSteps(moments) == steps && steps[..|steps| - 1] == QueueSteps(before);
    }
  }

  lemma PrefixSteps(before: seq<Moment>, m: Moment)
    ensures QueueSteps(before + [m]) == if m.OfQueue? then QueueSteps(before) + [m.step] else QueueSteps(before)
  {
    assert (before + [m])[..|before|] == before;
  }

  lemma {:induction false} StepsOfMoments(moments: seq<Moment>, x: Queues.Step)
    ensures x in QueueSteps(moments) <==> OfQueue(x) in moments
    decreases |moments|
  {
    if |moments| > 0 {
      var before, m := moments[..|moments| - 1], moments[|moments| - 1];
      assert moments == before + [m];
      StepsOfMoments(before, x);
    }
  }

  /** The queue side of the moments is a run of non-nested transactions in which every callback is
      deferred at one place. */
  ghost predicate Orderly(moments: seq<Moment>) {
    Queues.WellFormed(QueueSteps(moments)) && Queues.DeferredOnce(QueueSteps(moments))
  }

  lemma OrderlyBefore(before: seq<Moment>, m: Moment)
    requires Orderly(before + [m])
    ensures Orderly(before)
  {
    PrefixSteps(before, m);
    if m.OfQueue? {
      var steps := QueueSteps(before) + [m.step];
      assert steps[..|steps| - 1] == QueueSteps(before);
      ShorterIsOnce(QueueSteps(before), m.step);
    }
  }

  lemma ShorterIsOnce(steps: seq<Queues.Step>, x: Queues.Step)
    requires Queues.DeferredOnce(steps + [x])
    ensures Queues.DeferredOnce(steps)
  {
    assert forall i :: 0 <= i < |steps| ==> (steps + [x])[i] == steps[i];
  }

  /** What a moment calls was not called before, and is called once. */
  lemma NewlyCalled(before: seq<Moment>, m: Moment)
    requires Orderly(before + [m])
    ensures Distinct(CalledBy(before, m)) && forall c :: c in CalledBy(before, m) ==> c !in Called(before)
  {
    var was, now := Called(before), CalledBy(before, m);
    CalledGrows(before, m);
    Queues.ExactlyOnceAfterCommit(QueueSteps(before + [m]), "");
    var all := was + now;
    assert Called(before + [m]) == all && Distinct(all);
    SplitDistinct(was, now);
  }

  lemma SplitDistinct(x: seq<Queues.Callback>, y: seq<Queues.Callback>)
    requires Distinct(x + y)
    ensures Distinct(y) && forall c :: c in y ==> c !in x
  {
    var all := x + y;
    forall i, j | 0 <= i < j < |y|
      ensures y[i] != y[j]
    {
      assert all[|x| + i] == y[i] && all[|x| + j] == y[j];
    }
    forall j | 0 <= j < |y|
      ensures y[j] !in x
    {
      assert all[|x| + j] == y[j];
      assert forall i :: 0 <= i < |x| ==> all[i] == x[i];
    }
  }

  // ----- Who gets what -----

  lemma {:induction false} NotCalledNotDelivered(moments: seq<Moment>, channelOf: Queues.Callback -> string, d: Delivery)
    requires Orderly(moments) && d.1 !in Called(moments)
    ensures Times(Delivered(moments, channelOf), d) == 0
    decreases |moments|
  {
    if |moments| > 0 {
      var before, m := moments[..|moments| - 1], moments[|moments| - 1];
      assert moments == before + [m];
      OrderlyBefore(before, m);
      CalledGrows(before, m);
      NotCalledNotDelivered(before, channelOf, d);
      NewlyCalled(before, m);
      OneQueue(BusAt(before), CalledBy(before, m), channelOf, d);
      TimesConcat(Delivered(before, channelOf), PublishAll(BusAt(before), CalledBy(before, m), channelOf), d);
    }
  }

  lemma DeliveredGrows(before: seq<Moment>, m: Moment, channelOf: Queues.Callback -> string, d: Delivery)
    requires Distinct(CalledBy(before, m))
    ensures Times(Delivered(before + [m], channelOf), d) == Times(Delivered(before, channelOf), d)
      + if d.1 in CalledBy(before, m) && Hears(BusAt(before), d.0, channelOf(d.1)) then 1 else 0
  {
    var moments := before + [m];
    assert moments[..|moments| - 1] == before;
    OneQueue(BusAt(before), CalledBy(before, m), channelOf, d);
    TimesConcat(Delivered(before, channelOf), PublishAll(BusAt(before), CalledBy(before, m), channelOf), d);
  }

  lemma DeliveredNow(before: seq<Moment>, m: Moment, channelOf: Queues.Callback -> string, d: Delivery)
    requires Orderly(before + [m]) && d.1 in CalledBy(before, m)
    ensures d.1 in Called(before + [m])
    ensures Times(Delivered(before + [m], channelOf), d) == if Hears(BusAt(before), d.0, channelOf(d.1)) then 1 else 0
  {
    OrderlyBefore(before, m);
    CalledGrows(before, m);
    NewlyCalled(before, m);
    DeliveredGrows(before, m, channelOf, d);
    NotCalledNotDelivered(before, channelOf, d);
  }

  lemma DeliveredStays(before: seq<Moment>, m: Moment, channelOf: Queues.Callback -> string, d: Delivery)
    requires Orderly(before + [m]) && d.1 in Called(before)
    ensures d.1 in Called(before + [m])
    ensures Times(Delivered(before + [m], channelOf), d) == Times(Delivered(before, channelOf), d)
  {
    CalledGrows(before, m);
    NewlyCalled(before, m);
    DeliveredGrows(before, m, channelOf, d);
  }

  /** A callback that moment `n` calls is delivered then, and never again. */
  lemma {:induction false} DeliveredWhenCalled(moments: seq<Moment>, n: nat, channelOf: Queues.Callback -> string, d: Delivery)
    requires Orderly(moments) && n < |moments| && d.1 in CalledBy(moments[..n], moments[n])
    ensures d.1 in Called(moments)
    ensures Times(Delivered(moments, channelOf), d) == if Hears(BusAt(moments[..n]), d.0, channelOf(d.1)) then 1 else 0
    decreases |moments|
  {
    var before, m := moments[..|moments| - 1], moments[|moments| - 1];
    assert moments == before + [m];
    if n == |before| {
      assert moments[..n] == before;
      DeliveredNow(before, m, channelOf, d);
    } else {
      assert moments[..n] == before[..n] && moments[n] == before[n];
      OrderlyBefore(before, m);
      DeliveredWhenCalled(before, n, channelOf, d);
      DeliveredStays(before, m, channelOf, d);
    }
  }

  lemma {:induction false} OrderlyPrefix(moments: seq<Moment>, n: nat)
    requires Orderly(moments) && n <= |moments|
    ensures Orderly(moments[..n])
    decreases |moments|
  {
    if n == |moments| {
      assert moments[..n] == moments;
    } else {
      var before, m := moments[..|moments| - 1], moments[|moments| - 1];
      assert moments == before + [m] && moments[..n] == before[..n];
      OrderlyBefore(before, m);
      OrderlyPrefix(before, n);
    }
  }

  /** A commit calls what was deferred in its transaction before. */
  lemma CommitCalls(before: seq<Moment>, tx: string, c: Queues.Callback)
    requires Orderly(before + [OfQueue(Queues.Commit(tx))]) && OfQueue(Queues.Defer(tx, c)) in before
    ensures c in CalledBy(before, OfQueue(Queues.Commit(tx)))
  {
    var m := OfQueue(Queues.Commit(tx));
    var steps := QueueSteps(before);
    PrefixSteps(before, m);
    assert (steps + [m.step])[..|steps|] == steps;
    assert Queues.IsOpen(steps, tx);
    Queues.CalledIsDue(steps);
    StepsOfMoments(before, Queues.Defer(tx, c));
    Queues.DeferredMembers(steps, tx, c);
  }

  /** Main result: an event whose publish is deferred in a transaction that commits afterwards, at
      moment `n`, is delivered exactly once to each listener subscribed to its channel at the
      commit, and to nobody else, however the other transactions and the bus go on. */
  lemma DeliveredAtItsCommit(moments: seq<Moment>, n: nat, tx: string, c: Queues.Callback, l: Bus.Listener,
                             channelOf: Queues.Callback -> string)
    requires Orderly(moments) && n < |moments| && moments[n] == OfQueue(Queues.Commit(tx))
    requires OfQueue(Queues.Defer(tx, c)) in moments[..n]
    ensures Times(Delivered(moments, channelOf), (l, c)) == if Hears(BusAt(moments[..n]), l, channelOf(c)) then 1 else 0
  {
    CommitCallsAt(moments, n, tx, c);
    DeliveredWhenCalled(moments, n, channelOf, (l, c));
  }

  lemma CommitCallsAt(moments: seq<Moment>, n: nat, tx: string, c: Queues.Callback)
    requires Orderly(moments) && n < |moments| && moments[n] == OfQueue(Queues.Commit(tx))
    requires OfQueue(Queues.Defer(tx, c)) in moments[..n]
    ensures c in CalledBy(moments[..n], moments[n])
  {
    assert moments[..n + 1] == moments[..n] + [OfQueue(Queues.Commit(tx))];
    OrderlyPrefix(moments, n + 1);
    CommitCalls(moments[..n], tx, c);
  }

  /** Main result: without a commit of its transaction after it was deferred, an event reaches
      nobody: not after a rollback, not before the commit, not when deferred after the end. */
  lemma NotDeliveredWithoutCommit(moments: seq<Moment>, tx: string, c: Queues.Callback, l: Bus.Listener,
                                  channelOf: Queues.Callback -> string)
    requires Orderly(moments) && OfQueue(Queues.Defer(tx, c)) in moments
    requires !Queues.DeferredBeforeCommit(QueueSteps(moments), tx, c)
    ensures Times(Delivered(moments, channelOf), (l, c)) == 0
  {
    var steps := QueueSteps(moments);
    StepsOfMoments(moments, Queues.Defer(tx, c));
    Queues.ExactlyOnceAfterCommit(steps, c);
    OnlyPlace(steps, tx, c);
    NotCalledNotDelivered(moments, channelOf, (l, c));
  }

  lemma OnlyPlace(steps: seq<Queues.Step>, tx: string, c: Queues.Callback)
    requires Queues.DeferredOnce(steps) && Queues.Defer(tx, c) in steps
    ensures Queues.DeferOutside(c) !in steps && forall x :: Queues.DeferredBeforeCommit(steps, x, c) ==> x == tx
  {
    var i :| 0 <= i < |steps| && steps[i] == Queues.Defer(tx, c);
    forall x | Queues.DeferredBeforeCommit(steps, x, c)
      ensures x == tx
    {
      var j :| 0 <= j < |steps| && steps[j] == Queues.Commit(x) && Queues.Defer(x, c) in steps[..j];
      var k :| 0 <= k < j && steps[..j][k] == Queues.Defer(x, c);
      assert steps[k] == Queues.Defer(x, c);
    }
  }

  lemma RolledBackReachesNobody(moments: seq<Moment>, tx: string, c: Queues.Callback, l: Bus.Listener,
                                channelOf: Queues.Callback -> string)
    requires Orderly(moments) && OfQueue(Queues.Defer(tx, c)) in moments && OfQueue(Queues.Rollback(tx)) in moments
    ensures Times(Delivered(moments, channelOf), (l, c)) == 0
  {
    var steps := QueueSteps(moments);
    StepsOfMoments(moments, Queues.Defer(tx, c));
    StepsOfMoments(moments, Queues.Rollback(tx));
    Queues.ExactlyOnceAfterCommit(steps, c);
    NotCalledNotDelivered(moments, channelOf, (l, c));
  }
}
