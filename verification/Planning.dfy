/** Applying planning commands: preview first, then write, under optimistic versioning. */
module Planning {
  import opened Wrappers

  datatype Delta = Delta(taskIds: seq<string>, assignmentIds: seq<string>, dependencyIds: seq<string>, riskIds: seq<string>)
  datatype Kind = Tasks | Assignments | Dependencies | Risks

  datatype Issue = Issue(code: string, blocking: bool)
  datatype Preview<S> = Preview(next: S, issues: seq<Issue>, delta: Delta)

  /** The planning engine as the routes see it: `step` is one stored write on the plan table
      and `view` the snapshot read back from it. */
  datatype Engine<!T, !S, !C> = Engine(
    preview: (S, C) -> Preview<S>, precondition: C -> seq<Issue>, introduced: (S, S) -> seq<Issue>,
    step: (T, C) -> T, view: T -> S)

  const NO_CHANGE := Delta([], [], [], [])

  // ----- De-duplicated deltas -----

  /** Elements not in `seen`, each at its first occurrence. */
  function Dedup(s: seq<string>, seen: set<string>): seq<string> {
    if |s| == 0 then []
    else if s[0] in seen then Dedup(s[1..], seen)
    else [s[0]] + Dedup(s[1..], seen + {s[0]})
  }

  function Unique(s: seq<string>): seq<string> { Dedup(s, {}) }

  function Part(d: Delta, k: Kind): seq<string> {
    match k
    case Tasks => d.taskIds
    case Assignments => d.assignmentIds
    case Dependencies => d.dependencyIds
    case Risks => d.riskIds
  }

  function Merge(a: Delta, b: Delta): Delta {
    Delta(Unique(a.taskIds + b.taskIds), Unique(a.assignmentIds + b.assignmentIds),
          Unique(a.dependencyIds + b.dependencyIds), Unique(a.riskIds + b.riskIds))
  }

  lemma {:induction false} DedupMeaning(s: seq<string>, seen: set<string>)
    ensures forall x :: x in Dedup(s, seen) <==> x in s && x !in seen
    ensures forall i, j :: 0 <= i < j < |Dedup(s, seen)| ==> Dedup(s, seen)[i] != Dedup(s, seen)[j]
  {
    if |s| > 0 {
      assert s == [s[0]] + s[1..];
      if s[0] in seen {
        DedupMeaning(s[1..], seen);
      } else {
        DedupMeaning(s[1..], seen + {s[0]});
        assert s[0] !in Dedup(s[1..], seen + {s[0]});
      }
    }
  }

  /** First occurrences decide the order: what is kept of the first `n` elements comes first, in the
      order in which it would be kept without the others. */
  lemma {:induction false} DedupInOrder(s: seq<string>, seen: set<string>, n: nat)
    requires n <= |s|
    ensures Dedup(s[..n], seen) <= Dedup(s, seen)
    ensures n < |s| && s[n] !in seen && s[n] !in s[..n] ==> Dedup(s[..n + 1], seen) == Dedup(s[..n], seen) + [s[n]]
    ensures n < |s| && (s[n] in seen || s[n] in s[..n]) ==> Dedup(s[..n + 1], seen) == Dedup(s[..n], seen)
  {
    if n > 0 {
      assert s[..n][1..] == s[1..][..n - 1] && s[..n] == [s[0]] + s[1..][..n - 1];
      DedupInOrder(s[1..], if s[0] in seen then seen else seen + {s[0]}, n - 1);
      if n < |s| {
        assert s[..n + 1][1..] == s[1..][..n];
      }
    } else if |s| > 0 {
      assert s[..1] == [s[0]] && [s[0]][1..] == [];
    }
  }

  lemma {:induction false} DedupAbsorbs(a: seq<string>, b: seq<string>, seen: set<string>)
    ensures Dedup(Dedup(a, seen) + b, seen) == Dedup(a + b, seen)
  {
    if |a| == 0 {
      assert [] + b == b && a + b == b;
    } else {
      assert (a + b)[1..] == a[1..] + b;
      if a[0] in seen {
        DedupAbsorbs(a[1..], b, seen);
      } else {
        var tail := Dedup(a[1..], seen + {a[0]});
        assert Dedup(a, seen) + b == [a[0]] + (tail + b);
        assert ([a[0]] + (tail + b))[1..] == tail + b;
        DedupAbsorbs(a[1..], b, seen + {a[0]});
      }
    }
  }

  // ----- The preview of a batch -----

  function Extend<T, S, C>(e: Engine<T, S, C>, acc: Preview<S>, c: C): Preview<S> {
    var next := e.preview(acc.next, c);
    Preview(next.next, acc.issues + next.issues + e.precondition(c), Merge(acc.delta, next.delta))
  }

  function Fold<T, S, C>(e: Engine<T, S, C>, acc: Preview<S>, commands: seq<C>): Preview<S>
    decreases |commands|
  {
    if |commands| == 0 then acc else Fold(e, Extend(e, acc, commands[0]), commands[1..])
  }

  function PreviewOf<T, S, C>(e: Engine<T, S, C>, snapshot: S, commands: seq<C>): Preview<S> {
    Fold(e, Preview(snapshot, [], NO_CHANGE), commands)
  }

  /** What each command changes on its own, one after the other. */
  function Changes<T, S, C>(e: Engine<T, S, C>, s: S, commands: seq<C>, k: Kind): seq<string>
    decreases |commands|
  {
    if |commands| == 0 then []
    else Part(e.preview(s, commands[0]).delta, k) + Changes(e, e.preview(s, commands[0]).next, commands[1..], k)
  }

  predicate Blocked(issues: seq<Issue>) { exists i :: 0 <= i < |issues| && issues[i].blocking }

  lemma MergePart(a: Delta, b: Delta, k: Kind)
    ensures Part(Merge(a, b), k) == Unique(Part(a, k) + Part(b, k))
  {
  }

  lemma UniqueTwice(s: seq<string>)
    ensures Unique(Unique(s)) == Unique(s)
  {
    DedupAbsorbs(s, [], {});
    assert Unique(s) + [] == Unique(s) && s + [] == s;
  }

  lemma {:induction false} FoldDelta<T, S, C>(e: Engine<T, S, C>, acc: Preview<S>, commands: seq<C>, k: Kind)
    requires Unique(Part(acc.delta, k)) == Part(acc.delta, k)
    ensures Part(Fold(e, acc, commands).delta, k) == Unique(Part(acc.delta, k) + Changes(e, acc.next, commands, k))
    decreases |commands|
  {
    var mine := Part(acc.delta, k);
    if |commands| == 0 {
      assert mine + [] == mine;
    } else {
      var next := e.preview(acc.next, commands[0]);
      var first, rest := Part(next.delta, k), Changes(e, next.next, commands[1..], k);
      MergePart(acc.delta, next.delta, k);
      UniqueTwice(mine + first);
      FoldDelta(e, Extend(e, acc, commands[0]), commands[1..], k);
      DedupAbsorbs(mine + first, rest, {});
      assert mine + first + rest == mine + (first + rest);
    }
  }

  /** Main result: the delta of a batch is the first-occurrence de-duplication of everything its
      commands change, in order. */
  lemma BatchDelta<T, S, C>(e: Engine<T, S, C>, snapshot: S, commands: seq<C>, k: Kind)
    ensures Part(PreviewOf(e, snapshot, commands).delta, k) == Unique(Changes(e, snapshot, commands, k))
  {
    var start := Preview(snapshot, [], NO_CHANGE);
    assert Part(NO_CHANGE, k) == [] && Unique([]) == [];
    FoldDelta(e, start, commands, k);
    assert [] + Changes(e, snapshot, commands, k) == Changes(e, snapshot, commands, k);
  }

  lemma {:induction false} FoldSnoc<T, S, C>(e: Engine<T, S, C>, acc: Preview<S>, commands: seq<C>, c: C)
    ensures Fold(e, acc, commands + [c]) == Extend(e, Fold(e, acc, commands), c)
    decreases |commands|
  {
    if |commands| == 0 {
      assert commands + [c] == [c];
    } else {
      assert (commands + [c])[1..] == commands[1..] + [c];
      FoldSnoc(e, Extend(e, acc, commands[0]), commands[1..], c);
    }
  }

  /** Command `n` brings a blocking issue of its own: from its preview on the snapshot that the
      commands before it lead to, or from its precondition. */
  predicate BlockedAt<T, S, C>(e: Engine<T, S, C>, snapshot: S, commands: seq<C>, n: nat)
    requires n < |commands|
  {
    Blocked(e.preview(PreviewOf(e, snapshot, commands[..n]).next, commands[n]).issues)
    || Blocked(e.precondition(commands[n]))
  }

  lemma BlockedConcat(a: seq<Issue>, b: seq<Issue>)
    ensures Blocked(a + b) <==> Blocked(a) || Blocked(b)
  {
    if Blocked(a) {
      var i :| 0 <= i < |a| && a[i].blocking;
      assert (a + b)[i].blocking;
    }
    if Blocked(b) {
      var i :| 0 <= i < |b| && b[i].blocking;
      assert (a + b)[|a| + i].blocking;
    }
  }

  lemma BlockedByLast<T, S, C>(e: Engine<T, S, C>, snapshot: S, before: seq<C>, c: C)
    ensures Blocked(PreviewOf(e, snapshot, before + [c]).issues) <==>
      Blocked(PreviewOf(e, snapshot, before).issues) || BlockedAt(e, snapshot, before + [c], |before|)
  {
    FoldSnoc(e, Preview(snapshot, [], NO_CHANGE), before, c);
    var acc := PreviewOf(e, snapshot, before);
    var next := e.preview(acc.next, c);
    BlockedConcat(acc.issues, next.issues);
    BlockedConcat(acc.issues + next.issues, e.precondition(c));
    assert (before + [c])[..|before|] == before;
  }

  lemma BlockedEarlier<T, S, C>(e: Engine<T, S, C>, snapshot: S, before: seq<C>, c: C, n: nat)
    requires n < |before|
    ensures BlockedAt(e, snapshot, before, n) <==> BlockedAt(e, snapshot, before + [c], n)
  {
    assert (before + [c])[..n] == before[..n];
  }

  /** Main result: a batch is blocked exactly when one of its commands is blocked where it stands. */
  lemma {:induction false} BlockedExactlyWhen<T, S, C>(e: Engine<T, S, C>, snapshot: S, commands: seq<C>)
    ensures Blocked(PreviewOf(e, snapshot, commands).issues) <==>
      exists n :: 0 <= n < |commands| && BlockedAt(e, snapshot, commands, n)
    decreases |commands|
  {
    if |commands| > 0 {
      var last := |commands| - 1;
      var before, c := commands[..last], commands[last];
      assert commands == before + [c];
      BlockedExactlyWhen(e, snapshot, before);
      BlockedByLast(e, snapshot, before, c);
      forall n | 0 <= n < last
        ensures BlockedAt(e, snapshot, before, n) <==> BlockedAt(e, snapshot, commands, n)
      {
        BlockedEarlier(e, snapshot, before, c, n);
      }
    }
  }

  // ----- The preview, command by command -----

  /** The snapshot that the commands lead to, one after the other. */
  function Reached<T, S, C>(e: Engine<T, S, C>, s: S, commands: seq<C>): S
    decreases |commands|
  {
    if |commands| == 0 then s else Reached(e, e.preview(s, commands[0]).next, commands[1..])
  }

  /** What each command raises where it stands, followed by what it raises anywhere. */
  function Raised<T, S, C>(e: Engine<T, S, C>, s: S, commands: seq<C>): seq<Issue>
    decreases |commands|
  {
    if |commands| == 0 then []
    else
      var first := e.preview(s, commands[0]);
      first.issues + e.precondition(commands[0]) + Raised(e, first.next, commands[1..])
  }

  lemma {:induction false} FoldReaches<T, S, C>(e: Engine<T, S, C>, acc: Preview<S>, commands: seq<C>)
    ensures Fold(e, acc, commands).next == Reached(e, acc.next, commands)
    ensures Fold(e, acc, commands).issues == acc.issues + Raised(e, acc.next, commands)
    decreases |commands|
  {
    if |commands| == 0 {
      assert acc.issues + [] == acc.issues;
    } else {
      var first := e.preview(acc.next, commands[0]);
      var mine, rest := first.issues + e.precondition(commands[0]), Raised(e, first.next, commands[1..]);
      FoldReaches(e, Extend(e, acc, commands[0]), commands[1..]);
      assert acc.issues + first.issues + e.precondition(commands[0]) + rest == acc.issues + (mine + rest);
    }
  }

  /** Main result: a preview ends in the snapshot its commands lead to one after the other, with
      the issues of each of them where it stands, in order, and none else. */
  lemma PreviewMeans<T, S, C>(e: Engine<T, S, C>, snapshot: S, commands: seq<C>)
    ensures PreviewOf(e, snapshot, commands).next == Reached(e, snapshot, commands)
    ensures PreviewOf(e, snapshot, commands).issues == Raised(e, snapshot, commands)
  {
    FoldReaches(e, Preview(snapshot, [], NO_CHANGE), commands);
    assert [] + Raised(e, snapshot, commands) == Raised(e, snapshot, commands);
  }

  /** A batch is blocked if and only if some command raises a blocking issue on the snapshot that
      the commands before it lead to, or by its precondition. */
  lemma BlockedMeans<T, S, C>(e: Engine<T, S, C>, snapshot: S, commands: seq<C>)
    ensures Blocked(PreviewOf(e, snapshot, commands).issues) <==>
      exists n, i :: 0 <= n < |commands| && Raises(e, Reached(e, snapshot, commands[..n]), commands[n], i) && i.blocking
  {
    BlockedExactlyWhen(e, snapshot, commands);
    forall n | 0 <= n < |commands|
      ensures BlockedAt(e, snapshot, commands, n) <==>
        exists i :: Raises(e, Reached(e, snapshot, commands[..n]), commands[n], i) && i.blocking
    {
      PreviewMeans(e, snapshot, commands[..n]);
      BlockedByIssue(e.preview(Reached(e, snapshot, commands[..n]), commands[n]).issues);
      BlockedByIssue(e.precondition(commands[n]));
    }
  }

  predicate Raises<T, S, C>(e: Engine<T, S, C>, s: S, c: C, i: Issue) { i in e.preview(s, c).issues || i in e.precondition(c) }

  lemma BlockedByIssue(issues: seq<Issue>)
    ensures Blocked(issues) <==> exists i :: i in issues && i.blocking
  {
    if Blocked(issues) {
      var n :| 0 <= n < |issues| && issues[n].blocking;
      assert issues[n] in issues;
    }
  }

  // ----- Stored writes -----

  function StepAll<T, S, C>(e: Engine<T, S, C>, plan: T, commands: seq<C>): T
    decreases |commands|
  {
    if |commands| == 0 then plan else StepAll(e, e.step(plan, commands[0]), commands[1..])
  }

  ghost predicate Simulates<T(!new), S, C(!new)>(e: Engine<T, S, C>) {
    forall plan: T, c: C :: e.view(e.step(plan, c)) == e.preview(e.view(plan), c).next
  }

  lemma {:induction false} FoldFollowsStore<T(!new), S, C(!new)>(e: Engine<T, S, C>, plan: T, acc: Preview<S>, commands: seq<C>)
    requires Simulates(e) && acc.next == e.view(plan)
    ensures e.view(StepAll(e, plan, commands)) == Fold(e, acc, commands).next
    decreases |commands|
  {
    if |commands| > 0 {
      FoldFollowsStore(e, e.step(plan, commands[0]), Extend(e, acc, commands[0]), commands[1..]);
    }
  }

  /** Main result: if one stored write simulates one preview step, the plan after the batch reads
      back as the snapshot that was previewed. */
  lemma WrittenIsPreviewed<T(!new), S, C(!new)>(e: Engine<T, S, C>, plan: T, commands: seq<C>)
    requires Simulates(e)
    ensures e.view(StepAll(e, plan, commands)) == PreviewOf(e, e.view(plan), commands).next
  {
    FoldFollowsStore(e, plan, Preview(e.view(plan), [], NO_CHANGE), commands);
  }

  // ----- The store -----

  datatype Action<C> = Action(commands: Option<seq<C>>)

  datatype AuditStatus = DeniedStatus | ConflictStatus | FailedStatus | SucceededStatus
  datatype ExecutionStatus = Denied | Failed | Succeeded
  datatype Execution = Execution(status: ExecutionStatus, auditEventId: nat)

  /** One project: its plan and version, the writes made so far, the listed action candidates
      (by signal and action id), and the two logs.  An audit event's id is its position. */
  datatype World<T, C> = World(
    plan: Option<T>, version: nat, written: seq<C>, actions: map<(string, string), Action<C>>,
    audits: seq<AuditStatus>, executions: seq<Execution>)

  function Record<T, C>(w: World<T, C>, a: AuditStatus, x: ExecutionStatus): World<T, C> {
    w.(audits := w.audits + [a], executions := w.executions + [Execution(x, |w.audits|)])
  }

  function WriteAll<T, S, C>(e: Engine<T, S, C>, w: World<T, C>, commands: seq<C>): World<T, C>
    requires w.plan.Some?
  {
    w.(plan := Some(StepAll(e, w.plan.value, commands)), written := w.written + commands)
  }

  class PlanStore<T, S, C> {
    const e: Engine<T, S, C>
    var plan: Option<T>
    var version: nat
    var written: seq<C>
    var actions: map<(string, string), Action<C>>
    var audits: seq<AuditStatus>
    var executions: seq<Execution>

    ghost function Model(): World<T, C>
      reads this
    {
      World(plan, version, written, actions, audits, executions)
    }

    constructor (e: Engine<T, S, C>, plan: Option<T>)
      ensures this.e == e && Model() == World(plan, 0, [], map[], [], [])
    {
      this.e := e;
      this.plan, version, written, actions, audits, executions := plan, 0, [], map[], [], [];
    }

    method ApplyPlanningCommands(commands: seq<C>)
      requires plan.Some?
      modifies this`plan, this`written
      ensures Model() == WriteAll(e, old(Model()), commands)
    {
      ghost var before := Model();
      assert written + [] == written;
      assert commands[0..] == commands;
      for n := 0 to |commands|
        invariant plan.Some?
        invariant StepAll(e, plan.value, commands[n..]) == StepAll(e, before.plan.value, commands)
        invariant written == before.written + commands[..n]
      {
        assert commands[n..][1..] == commands[n + 1..];
        assert commands[..n + 1] == commands[..n] + [commands[n]];
        plan := Some(e.step(plan.value, commands[n]));
        written := written + [commands[n]];
      }
      assert commands[|commands|..] == [] && commands[..|commands|] == commands;
    }

    method IncrementPlanVersion() returns (next: nat)
      modifies this`version
      ensures Model() == old(Model()).(version := old(version) + 1) && next == old(version) + 1
    {
      version := version + 1;
      return version;
    }

    method AppendAuditEvent(a: AuditStatus) returns (id: nat)
      modifies this`audits
      ensures Model() == old(Model()).(audits := old(audits) + [a]) && id == |old(audits)|
    {
      id := |audits|;
      audits := audits + [a];
    }

    method CreateActionExecution(x: ExecutionStatus, auditEventId: nat)
      modifies this`executions
      ensures Model() == old(Model()).(executions := old(executions) + [Execution(x, auditEventId)])
    {
      executions := executions + [Execution(x, auditEventId)];
    }

    method Log(a: AuditStatus, x: ExecutionStatus)
      modifies this`audits, this`executions
      ensures Model() == Record(old(Model()), a, x)
    {
      var auditEventId := AppendAuditEvent(a);
      CreateActionExecution(x, auditEventId);
    }
  }

  method PreviewCommands<T, S, C>(e: Engine<T, S, C>, snapshot: S, commands: seq<C>) returns (preview: Preview<S>)
    ensures preview == PreviewOf(e, snapshot, commands)
  {
    preview := Preview(snapshot, [], NO_CHANGE);
    assert commands[0..] == commands;
    for n := 0 to |commands|
      invariant Fold(e, preview, commands[n..]) == PreviewOf(e, snapshot, commands)
    {
      assert commands[n..][1..] == commands[n + 1..];
      preview := Extend(e, preview, commands[n]);
    }
  }

  // ----- Governed apply -----

  datatype Governed<S> = Done(newPlanVersion: nat, preview: Preview<S>) | Refused(issues: seq<Issue>)

  /** A blocking issue leaves the store untouched; otherwise every command is written once, in
      order, the version grows by one and one audit event is appended. */
  method ApplyGovernedPlanningDelta<T, S, C>(store: PlanStore<T, S, C>, snapshot: S, commands: seq<C>) returns (r: Governed<S>)
    requires store.plan.Some?
    modifies store
    ensures var preview := PreviewOf(store.e, snapshot, commands); var before := old(store.Model());
      if Blocked(preview.issues) then r == Refused(preview.issues) && store.Model() == before
      else
        && r == Done(before.version + 1, preview)
        && store.Model() == WriteAll(store.e, before, commands).(
             version := before.version + 1, audits := before.audits + [SucceededStatus])
  {
    var preview := PreviewCommands(store.e, snapshot, commands);
    if Blocked(preview.issues) {
      return Refused(preview.issues);
    }
    store.ApplyPlanningCommands(commands);
    var newPlanVersion := store.IncrementPlanVersion();
    var auditEventId := store.AppendAuditEvent(SucceededStatus);
    return Done(newPlanVersion, preview);
  }
}
