/** Side effects deferred until their transaction commits. */
module AfterCommit {
  import opened Wrappers

  type Callback = string

  // ----- The queues -----

  datatype Step =
    | Begin(tx: string)
    | Defer(tx: string, callback: Callback)
    | DeferOutside(callback: Callback)
    | Commit(tx: string)
    | Rollback(tx: string)

  /** One queue per open transaction, and everything called so far.  A callback that runs on in
      the context of a transaction after its end pushes onto a queue nobody flushes any more. */
  datatype State = State(open: map<string, seq<Callback>>, called: seq<Callback>)

  const START := State(map[], [])

  function Apply(s: State, step: Step): State {
    match step
    case Begin(tx) => s.(open := s.open[tx := []])
    case Defer(tx, c) => if tx in s.open then s.(open := s.open[tx := s.open[tx] + [c]]) else s
    case DeferOutside(c) => s.(called := s.called + [c])
    case Commit(tx) => if tx in s.open then State(s.open - {tx}, s.called + s.open[tx]) else s
    case Rollback(tx) => s.(open := s.open - {tx})
  }

  function Run(steps: seq<Step>): State
    decreases |steps|
  {
    if |steps| == 0 then START else Apply(Run(steps[..|steps| - 1]), steps[|steps| - 1])
  }

  class AfterCommitQueues {
    var open: map<string, seq<Callback>>
    var called: seq<Callback>
    var failed: seq<Callback>
    const throws: Callback -> bool

    function Model(): State
      reads this
    {
      State(open, called)
    }

    constructor (throws: Callback -> bool)
      ensures Model() == START && failed == []
    {
      open, called, failed := map[], [], [];
      this.throws := throws;
    }

    /** `tx` is the transaction in whose context the caller runs, also when it has ended. */
    method DeferUntilTransactionCommit(tx: Option<string>, callback: Callback)
      modifies this`open, this`called
      ensures Model() == Apply(old(Model()), if tx.Some? then Defer(tx.value, callback) else DeferOutside(callback))
    {
      if tx.None? {
        called := called + [callback];
      } else if tx.value in open {
        open := open[tx.value := open[tx.value] + [callback]];
      }
    }

    method Open(tx: string)
      modifies this`open
      ensures Model() == Apply(old(Model()), Begin(tx))
    {
      open := open[tx := []];
    }

    method Discard(tx: string)
      modifies this`open
      ensures Model() == Apply(old(Model()), Rollback(tx))
    {
      open := open - {tx};
    }

    /** After the commit: every callback of the queue is called, also after one that throws. */
    method Flush(tx: string)
      requires tx in open
      modifies this
      ensures Model() == Apply(old(Model()), Commit(tx))
      ensures failed == old(failed) + Throwing(old(open)[tx], throws)
    {
      var queue := open[tx];
      ghost var before, failures := called, failed;
      open := open - {tx};
      for n := 0 to |queue|
        invariant called == before + queue[..n]
        invariant failed + Throwing(queue[n..], throws) == failures + Throwing(queue, throws)
        invariant open == old(open) - {tx}
      {
        assert queue[..n + 1] == queue[..n] + [queue[n]];
        assert queue[n..][1..] == queue[n + 1..];
        called := called + [queue[n]];
        if throws(queue[n]) {
          failed := failed + [queue[n]];
        }
      }
      assert queue[..|queue|] == queue;
    }
  }

  function Throwing(queue: seq<Callback>, throws: Callback -> bool): seq<Callback> {
    if |queue| == 0 then [] else (if throws(queue[0]) then [queue[0]] else []) + Throwing(queue[1..], throws)
  }

  /** One by one, in order: a callback fails if and only if it throws. */
  lemma {:induction false} ThrowingMeans(queue: seq<Callback>, c: Callback, throws: Callback -> bool)
    ensures Throwing([], throws) == []
    ensures Throwing(queue + [c], throws) == if throws(c) then Throwing(queue, throws) + [c] else Throwing(queue, throws)
  {
    if |queue| == 0 {
      assert queue + [c] == [c];
    } else {
      ThrowingMeans(queue[1..], c, throws);
      assert (queue + [c])[1..] == queue[1..] + [c];
    }
  }

  // ----- Well-formed runs -----

  /** Transactions do not nest or restart: each begins once and ends at most once.  Its context may
      outlive it, so callbacks may still be deferred after the end. */
  predicate WellFormed(steps: seq<Step>)
    decreases |steps|
  {
    |steps| == 0
    || (var before, step := steps[..|steps| - 1], steps[|steps| - 1];
        WellFormed(before)
        && match step
           case Begin(tx) => Begin(tx) !in before
           case DeferOutside(_) => true
           case Defer(tx, _) => Begin(tx) in before
           case _ => IsOpen(before, step.tx))
  }

  predicate IsOpen(steps: seq<Step>, tx: string) {
    Begin(tx) in steps && Commit(tx) !in steps && Rollback(tx) !in steps
  }

  // ----- The history says what was called -----

  /** What was deferred in the context of a transaction, in order. */
  function Deferred(steps: seq<Step>, tx: string): seq<Callback>
    decreases |steps|
  {
    if |steps| == 0 then []
    else
      var before, step := Deferred(steps[..|steps| - 1], tx), steps[|steps| - 1];
      if step.Defer? && step.tx == tx then before + [step.callback] else before
  }

  /** What ought to have been called: at each commit what its transaction had deferred, and at
      once what was deferred outside. */
  function Due(steps: seq<Step>): seq<Callback>
    decreases |steps|
  {
    if |steps| == 0 then []
    else
      var before, step := steps[..|steps| - 1], steps[|steps| - 1];
      match step
      case DeferOutside(c) => Due(before) + [c]
      case Commit(tx) => Due(before) + Deferred(before, tx)
      case _ => Due(before)
  }

  lemma {:induction false} NothingBeforeBegin(steps: seq<Step>, tx: string)
    requires WellFormed(steps) && Begin(tx) !in steps
    ensures Deferred(steps, tx) == []
    decreases |steps|
  {
    if |steps| > 0 {
      NothingBeforeBegin(steps[..|steps| - 1], tx);
      assert steps[|steps| - 1] in steps;
    }
  }

  /** Main result: on every run of non-nested transactions, the callbacks called so far are
      exactly those due, in order, and each open queue holds what its own context deferred. */
  lemma {:induction false} CalledIsDue(steps: seq<Step>)
    requires WellFormed(steps)
    ensures Run(steps).called == Due(steps)
    ensures forall tx :: tx in Run(steps).open <==> IsOpen(steps, tx)
    ensures forall tx :: IsOpen(steps, tx) ==> Run(steps).open[tx] == Deferred(steps, tx)
    decreases |steps|
  {
    if |steps| > 0 {
      var before, step := steps[..|steps| - 1], steps[|steps| - 1];
      assert steps == before + [step];
      CalledIsDue(before);
      forall tx
        ensures tx in Run(steps).open <==> IsOpen(steps, tx)
        ensures IsOpen(steps, tx) ==> Run(steps).open[tx] == Deferred(steps, tx)
      {
        OpenAfter(before, step, tx);
      }
    }
  }

  lemma OpenAfter(before: seq<Step>, step: Step, tx: string)
    requires WellFormed(before + [step]) && WellFormed(before)
    requires tx in Run(before).open <==> IsOpen(before, tx)
    requires IsOpen(before, tx) ==> Run(before).open[tx] == Deferred(before, tx)
    requires step.Commit? && step.tx == tx ==> tx in Run(before).open
    ensures var steps := before + [step];
      && (tx in Run(steps).open <==> IsOpen(steps, tx))
      && (IsOpen(steps, tx) ==> Run(steps).open[tx] == Deferred(steps, tx))
  {
    var steps := before + [step];
    assert steps[..|steps| - 1] == before;
    Ended(before, tx);
    IsOpenAfter(before, step, tx);
    if step == Begin(tx) {
      NothingBeforeBegin(before, tx);
    }
  }

  lemma IsOpenAfter(before: seq<Step>, step: Step, tx: string)
    requires step == Begin(tx) ==> Commit(tx) !in before && Rollback(tx) !in before
    ensures IsOpen(before + [step], tx) <==>
            if step == Begin(tx) then true else IsOpen(before, tx) && step != Commit(tx) && step != Rollback(tx)
  {
  }

  /** A transaction that has not begun has not ended. */
  lemma {:induction false} Ended(steps: seq<Step>, tx: string)
    requires WellFormed(steps)
    ensures Begin(tx) !in steps ==> Commit(tx) !in steps && Rollback(tx) !in steps
    ensures !(Commit(tx) in steps && Rollback(tx) in steps)
    decreases |steps|
  {
    if |steps| > 0 {
      var before, step := steps[..|steps| - 1], steps[|steps| - 1];
      assert steps == before + [step];
      Ended(before, tx);
    }
  }

  // ----- Exactly once, after the commit, never after a rollback -----

  /** Every callback is deferred at one place only. */
  ghost predicate DeferredOnce(steps: seq<Step>) {
    forall i, j :: 0 <= i < j < |steps| && (steps[i].Defer? || steps[i].DeferOutside?) && (steps[j].Defer? || steps[j].DeferOutside?)
      ==> steps[i].callback != steps[j].callback
  }

  lemma {:induction false} DeferredMembers(steps: seq<Step>, tx: string, c: Callback)
    ensures c in Deferred(steps, tx) <==> Defer(tx, c) in steps
    decreases |steps|
  {
    if |steps| > 0 {
      assert steps == steps[..|steps| - 1] + [steps[|steps| - 1]];
      DeferredMembers(steps[..|steps| - 1], tx, c);
    }
  }

  lemma {:induction false} DeferredDistinct(steps: seq<Step>, tx: string)
    requires DeferredOnce(steps)
    ensures forall i, j :: 0 <= i < j < |Deferred(steps, tx)| ==> Deferred(steps, tx)[i] != Deferred(steps, tx)[j]
    decreases |steps|
  {
    if |steps| > 0 {
      var before, step := steps[..|steps| - 1], steps[|steps| - 1];
      DeferredDistinct(before, tx);
      if step.Defer? && step.tx == tx {
        DeferredMembers(before, tx, step.callback);
        forall i | 0 <= i < |before|
          ensures before[i] != Defer(tx, step.callback)
        {
          assert steps[i] == before[i];
        }
      }
    }
  }

  /** `c` was deferred in the context of `tx`, and `tx` committed afterwards. */
  ghost predicate DeferredBeforeCommit(steps: seq<Step>, tx: string, c: Callback) {
    exists j :: 0 <= j < |steps| && steps[j] == Commit(tx) && Defer(tx, c) in steps[..j]
  }

  /** Called: deferred outside, or in a transaction before its commit. */
  ghost predicate ShouldBeCalled(steps: seq<Step>, c: Callback) {
    DeferOutside(c) in steps || exists tx :: DeferredBeforeCommit(steps, tx, c)
  }

  lemma BeforeCommitAfter(before: seq<Step>, step: Step, tx: string, c: Callback)
    ensures DeferredBeforeCommit(before + [step], tx, c) <==>
            DeferredBeforeCommit(before, tx, c) || (step == Commit(tx) && Defer(tx, c) in before)
  {
    var steps := before + [step];
    if DeferredBeforeCommit(before, tx, c) {
      var j :| 0 <= j < |before| && before[j] == Commit(tx) && Defer(tx, c) in before[..j];
      assert steps[j] == Commit(tx) && steps[..j] == before[..j];
    }
    if step == Commit(tx) && Defer(tx, c) in before {
      assert steps[|before|] == Commit(tx) && steps[..|before|] == before;
    }
    if DeferredBeforeCommit(steps, tx, c) {
      var j :| 0 <= j < |steps| && steps[j] == Commit(tx) && Defer(tx, c) in steps[..j];
      assert steps[..j] == before[..j];
    }
  }

  lemma {:induction false} DueMembers(steps: seq<Step>, c: Callback)
    requires WellFormed(steps)
    ensures c in Due(steps) <==> ShouldBeCalled(steps, c)
    decreases |steps|
  {
    if |steps| > 0 {
      var before, step := steps[..|steps| - 1], steps[|steps| - 1];
      assert steps == before + [step];
      DueMembers(before, c);
      if step.Commit? {
        DeferredMembers(before, step.tx, c);
      }
      ShouldAfter(before, step, c);
    }
  }

  lemma ShouldAfter(before: seq<Step>, step: Step, c: Callback)
    ensures ShouldBeCalled(before + [step], c) <==>
            ShouldBeCalled(before, c) || step == DeferOutside(c) || (step.Commit? && Defer(step.tx, c) in before)
  {
    forall tx
      ensures DeferredBeforeCommit(before + [step], tx, c) <==>
              DeferredBeforeCommit(before, tx, c) || (step == Commit(tx) && Defer(tx, c) in before)
    {
      BeforeCommitAfter(before, step, tx, c);
    }
    if step.Commit? && Defer(step.tx, c) in before {
      assert DeferredBeforeCommit(before + [step], step.tx, c);
    }
  }

  lemma {:induction false} DueDistinct(steps: seq<Step>)
    requires WellFormed(steps) && DeferredOnce(steps)
    ensures forall i, j :: 0 <= i < j < |Due(steps)| ==> Due(steps)[i] != Due(steps)[j]
    decreases |steps|
  {
    if |steps| > 0 {
      var before, step := steps[..|steps| - 1], steps[|steps| - 1];
      assert steps == before + [step];
      DueDistinct(before);
      var added := if step.DeferOutside? then [step.callback] else if step.Commit? then Deferred(before, step.tx) else [];
      if step.Commit? {
        DeferredDistinct(before, step.tx);
      }
      forall i | 0 <= i < |added|
        ensures added[i] !in Due(before)
      {
        NotDueYet(before, step, added[i]);
      }
      assert Due(steps) == Due(before) + added;
    }
  }

  predicate Defers(step: Step, c: Callback) { (step.Defer? || step.DeferOutside?) && step.callback == c }

  /** What is about to be called was deferred at one place only. */
  lemma OnlyDefer(before: seq<Step>, step: Step, c: Callback, d: Step)
    requires DeferredOnce(before + [step]) && d in before && Defers(d, c)
    requires step == DeferOutside(c) || (step.Commit? && Defer(step.tx, c) in before)
    ensures step.Commit? && d == Defer(step.tx, c)
  {
    var steps := before + [step];
    var i :| 0 <= i < |before| && before[i] == d;
    assert steps[i] == d && steps[|before|] == step;
    if step.Commit? {
      var j :| 0 <= j < |before| && before[j] == Defer(step.tx, c);
      assert steps[j] == Defer(step.tx, c);
    }
  }

  lemma NotDueYet(before: seq<Step>, step: Step, c: Callback)
    requires WellFormed(before + [step]) && WellFormed(before) && DeferredOnce(before + [step])
    requires step == DeferOutside(c) || (step.Commit? && IsOpen(before, step.tx) && c in Deferred(before, step.tx))
    ensures c !in Due(before)
  {
    DueMembers(before, c);
    if step.Commit? {
      DeferredMembers(before, step.tx, c);
    }
    forall d | d in before && Defers(d, c)
      ensures step.Commit? && d == Defer(step.tx, c)
    {
      OnlyDefer(before, step, c, d);
    }
  }

  /** Main result: each callback is called exactly once if it was deferred outside, or in a
      transaction that has committed since, and not at all otherwise: in particular never after a
      rollback, and never when it was deferred after the end of its transaction. */
  lemma ExactlyOnceAfterCommit(steps: seq<Step>, c: Callback)
    requires WellFormed(steps) && DeferredOnce(steps)
    ensures c in Run(steps).called <==> ShouldBeCalled(steps, c)
    ensures forall i, j :: 0 <= i < j < |Run(steps).called| ==> Run(steps).called[i] != Run(steps).called[j]
    ensures forall tx :: Defer(tx, c) in steps && Rollback(tx) in steps ==> c !in Run(steps).called
  {
    CalledIsDue(steps);
    DueMembers(steps, c);
    DueDistinct(steps);
    forall tx | Defer(tx, c) in steps && Rollback(tx) in steps
      ensures c !in Run(steps).called
    {
      Ended(steps, tx);
      var i :| 0 <= i < |steps| && steps[i] == Defer(tx, c);
    }
  }
}
