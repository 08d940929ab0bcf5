/** Applying a management action: every request runs its transaction under one lock, against
    the plan version its client saw. */
module ControlApply {
  import opened Wrappers
  import opened Planning

  /** `permits` is the access decision for this actor. */
  datatype Request<!C> = Request(signalId: string, actionId: string, clientPlanVersion: int, permits: Action<C> -> bool)

  datatype Outcome =
    | ActionNotFound | NoPlanDelta | Forbidden | ProjectNotFound
    | VersionConflict(current: nat) | PreconditionFailed(issues: seq<Issue>) | Applied(newPlanVersion: nat)

  /** The candidate's preview: command issues plus whatever the batch introduced into the plan. */
  function Issues<T, S, C>(e: Engine<T, S, C>, snapshot: S, commands: seq<C>): seq<Issue> {
    var preview := PreviewOf(e, snapshot, commands);
    preview.issues + e.introduced(snapshot, preview.next)
  }

  /** The transaction, from taking the lock to its end. */
  function ApplyTx<T, S, C>(e: Engine<T, S, C>, w: World<T, C>, q: Request<C>): (World<T, C>, Outcome) {
    var key := (q.signalId, q.actionId);
    if key !in w.actions || w.actions[key].commands.None? then (w, ActionNotFound)
    else
      var action := w.actions[key];
      var commands := action.commands.value;
      if |commands| == 0 then (w, NoPlanDelta)
      else if !q.permits(action) then (Record(w, DeniedStatus, Denied), Forbidden)
      else if w.plan.None? then (w, ProjectNotFound)
      else if w.version != q.clientPlanVersion then (Record(w, ConflictStatus, Failed), VersionConflict(w.version))
      else
        var issues := Issues(e, e.view(w.plan.value), commands);
        if Blocked(issues) then (Record(w, FailedStatus, Failed), PreconditionFailed(issues))
        else
          (Record(WriteAll(e, w, commands).(version := w.version + 1), SucceededStatus, Succeeded), Applied(w.version + 1))
  }

  method ApplyAction<T, S, C>(store: PlanStore<T, S, C>, q: Request<C>) returns (r: Outcome)
    modifies store
    ensures (store.Model(), r) == ApplyTx(store.e, old(store.Model()), q)
  {
    var key := (q.signalId, q.actionId);
    if key !in store.actions || store.actions[key].commands.None? {
      return ActionNotFound;
    }
    var lockedAction := store.actions[key];
    var commands := lockedAction.commands.value;
    if |commands| == 0 {
      return NoPlanDelta;
    }
    if !q.permits(lockedAction) {
      store.Log(DeniedStatus, Denied);
      return Forbidden;
    }
    if store.plan.None? {
      return ProjectNotFound;
    }
    if store.version != q.clientPlanVersion {
      store.Log(ConflictStatus, Failed);
      return VersionConflict(store.version);
    }
    var snapshot := store.e.view(store.plan.value);
    var preview := PreviewCommands(store.e, snapshot, commands);
    var issues := preview.issues + store.e.introduced(snapshot, preview.next);
    if Blocked(issues) {
      store.Log(FailedStatus, Failed);
      return PreconditionFailed(issues);
    }
    store.ApplyPlanningCommands(commands);
    var newPlanVersion := store.IncrementPlanVersion();
    store.Log(SucceededStatus, Succeeded);
    return Applied(newPlanVersion);
  }

  // ----- One transaction -----

  /** The action the request names, with its commands, as it is listed under the lock. */
  lemma NotListedExactlyWhen<T, S, C>(e: Engine<T, S, C>, w: World<T, C>, q: Request<C>)
    ensures ApplyTx(e, w, q).1.ActionNotFound? <==>
      (q.signalId, q.actionId) !in w.actions || w.actions[(q.signalId, q.actionId)].commands == None
  {
  }

  /** Main result: which guard stops a request for a listed action, in the order of the guards, with
      the version that a conflict reports.  The commands are blocked if one of them raises a blocking
      issue on the snapshot that those before it lead to or by its precondition, or if the batch
      introduces one into the plan. */
  lemma StoppedExactlyWhen<T, S, C>(e: Engine<T, S, C>, w: World<T, C>, q: Request<C>, commands: seq<C>)
    requires (q.signalId, q.actionId) in w.actions && w.actions[(q.signalId, q.actionId)] == Action(Some(commands))
    ensures var r, permitted, agrees := ApplyTx(e, w, q).1, q.permits(Action(Some(commands))), w.version == q.clientPlanVersion;
      && (r == NoPlanDelta <==> commands == [])
      && (r == Forbidden <==> commands != [] && !permitted)
      && (r == ProjectNotFound <==> commands != [] && permitted && w.plan == None)
      && (r.VersionConflict? <==> commands != [] && permitted && w.plan.Some? && !agrees)
      && (r.VersionConflict? ==> r.current == w.version)
      && (r.PreconditionFailed? || r.Applied? <==> commands != [] && permitted && w.plan.Some? && agrees)
    ensures ApplyTx(e, w, q).1.PreconditionFailed? <==>
      && commands != [] && q.permits(Action(Some(commands))) && w.plan.Some? && w.version == q.clientPlanVersion
      && var s := e.view(w.plan.value);
      || (exists n, i :: 0 <= n < |commands| && Raises(e, Reached(e, s, commands[..n]), commands[n], i) && i.blocking)
      || (exists i :: i in e.introduced(s, Reached(e, s, commands)) && i.blocking)
  {
    if w.plan.Some? {
      IssuesBlock(e, e.view(w.plan.value), commands);
    }
  }

  lemma IssuesBlock<T, S, C>(e: Engine<T, S, C>, s: S, commands: seq<C>)
    ensures Blocked(Issues(e, s, commands)) <==>
      || (exists n, i :: 0 <= n < |commands| && Raises(e, Reached(e, s, commands[..n]), commands[n], i) && i.blocking)
      || (exists i :: i in e.introduced(s, Reached(e, s, commands)) && i.blocking)
  {
    PreviewMeans(e, s, commands);
    BlockedMeans(e, s, commands);
    BlockedByIssue(e.introduced(s, Reached(e, s, commands)));
    BlockedConcat(PreviewOf(e, s, commands).issues, e.introduced(s, Reached(e, s, commands)));
  }

  /** A failed precondition reports every issue of the batch and every one it introduces. */
  lemma ReportsAllIssues<T, S, C>(e: Engine<T, S, C>, w: World<T, C>, q: Request<C>, commands: seq<C>)
    requires (q.signalId, q.actionId) in w.actions && w.actions[(q.signalId, q.actionId)] == Action(Some(commands))
    ensures var r := ApplyTx(e, w, q).1; r.PreconditionFailed? ==>
      && w.plan.Some?
      && var s := e.view(w.plan.value);
         r.issues == Raised(e, s, commands) + e.introduced(s, Reached(e, s, commands))
  {
    if w.plan.Some? {
      PreviewMeans(e, e.view(w.plan.value), commands);
    }
  }

  /** The plan and its version change only on success, by exactly the action's commands and
      one; success needs the version its client named. */
  lemma OnlySuccessWrites<T, S, C>(e: Engine<T, S, C>, w: World<T, C>, q: Request<C>)
    ensures var (after, r) := ApplyTx(e, w, q);
      && (r.Applied? ==>
            && w.version == q.clientPlanVersion && r.newPlanVersion == after.version == w.version + 1
            && w.plan.Some? && (q.signalId, q.actionId) in w.actions
            && w.actions[(q.signalId, q.actionId)].commands.Some?
            && var commands := w.actions[(q.signalId, q.actionId)].commands.value;
               after.plan == Some(StepAll(e, w.plan.value, commands)) && after.written == w.written + commands)
      && (!r.Applied? ==> after.plan == w.plan && after.version == w.version && after.written == w.written)
      && after.actions == w.actions
  {
  }

  /** If one stored write simulates one preview step, a success leaves a plan that reads back as
      the snapshot the candidate was previewed on its way to. */
  lemma AppliedReadsBack<T(!new), S, C(!new)>(e: Engine<T, S, C>, w: World<T, C>, q: Request<C>)
    requires Simulates(e) && ApplyTx(e, w, q).1.Applied?
    ensures var after := ApplyTx(e, w, q).0;
      && w.plan.Some? && after.plan.Some? && (q.signalId, q.actionId) in w.actions
      && w.actions[(q.signalId, q.actionId)].commands.Some?
      && e.view(after.plan.value) ==
         PreviewOf(e, e.view(w.plan.value), w.actions[(q.signalId, q.actionId)].commands.value).next
  {
    OnlySuccessWrites(e, w, q);
    WrittenIsPreviewed(e, w.plan.value, w.actions[(q.signalId, q.actionId)].commands.value);
  }

  /** A request succeeds exactly when the action is listed under the lock with commands to
      apply, its actor is permitted, the plan is at the version the client named, and neither a
      command nor the batch as a whole raises a blocking issue. */
  lemma AppliedExactlyWhen<T, S, C>(e: Engine<T, S, C>, w: World<T, C>, q: Request<C>)
    ensures ApplyTx(e, w, q).1.Applied? <==>
      && (q.signalId, q.actionId) in w.actions && w.plan.Some? && w.version == q.clientPlanVersion
      && var action := w.actions[(q.signalId, q.actionId)];
      && q.permits(action) && action.commands.Some? && |action.commands.value| > 0
      && var (commands, snapshot) := (action.commands.value, e.view(w.plan.value));
      && (forall n :: 0 <= n < |commands| ==> !BlockedAt(e, snapshot, commands, n))
      && !Blocked(e.introduced(snapshot, PreviewOf(e, snapshot, commands).next))
  {
    var key := (q.signalId, q.actionId);
    if key in w.actions && w.actions[key].commands.Some? && w.plan.Some? {
      var snapshot, commands := e.view(w.plan.value), w.actions[key].commands.value;
      var preview := PreviewOf(e, snapshot, commands);
      BlockedExactlyWhen(e, snapshot, commands);
      BlockedConcat(preview.issues, e.introduced(snapshot, preview.next));
    }
  }

  /** Each outcome has its audit event and an execution that points at it: "denied" with a denied
      execution, "conflict" and "failed" with a failed one, "succeeded" with a succeeded one; an
      action, delta or project that is not there leaves no trace. */
  lemma OneAuditOneExecution<T, S, C>(e: Engine<T, S, C>, w: World<T, C>, q: Request<C>)
    ensures var (after, r) := ApplyTx(e, w, q); var id := |w.audits|;
      && (r.Forbidden? ==> after.audits == w.audits + [DeniedStatus] && after.executions == w.executions + [Execution(Denied, id)])
      && (r.VersionConflict? ==> after.audits == w.audits + [ConflictStatus] && after.executions == w.executions + [Execution(Failed, id)])
      && (r.PreconditionFailed? ==> after.audits == w.audits + [FailedStatus] && after.executions == w.executions + [Execution(Failed, id)])
      && (r.Applied? ==> after.audits == w.audits + [SucceededStatus] && after.executions == w.executions + [Execution(Succeeded, id)])
      && (r.ActionNotFound? || r.NoPlanDelta? || r.ProjectNotFound? ==> after == w)
  {
  }

  // ----- Interleavings -----

  /** Transactions of one project in the order in which they hold the lock: action applies,
      other plan writers (which raise the version too), and changes of the listed candidates. */
  datatype Step<!C> =
    | Apply(request: Request<C>)
    | OtherWrite(commands: seq<C>)
    | Relist(actions: map<(string, string), Action<C>>)

  function Next<T, S, C>(e: Engine<T, S, C>, w: World<T, C>, step: Step<C>): World<T, C> {
    match step
    case Apply(q) => ApplyTx(e, w, q).0
    case OtherWrite(commands) =>
      if w.plan.None? then w else WriteAll(e, w, commands).(version := w.version + 1)
    case Relist(actions) => w.(actions := actions)
  }

  function Run<T, S, C>(e: Engine<T, S, C>, w: World<T, C>, steps: seq<Step<C>>): World<T, C>
    decreases |steps|
  {
    if |steps| == 0 then w else Run(e, Next(e, w, steps[0]), steps[1..])
  }

  predicate Succeeds<T, S, C>(e: Engine<T, S, C>, w: World<T, C>, step: Step<C>) {
    step.Apply? && ApplyTx(e, w, step.request).1.Applied?
  }

  lemma {:induction false} VersionNeverDrops<T, S, C>(e: Engine<T, S, C>, w: World<T, C>, steps: seq<Step<C>>)
    ensures Run(e, w, steps).version >= w.version
    decreases |steps|
  {
    if |steps| > 0 {
      if steps[0].Apply? {
        OnlySuccessWrites(e, w, steps[0].request);
      }
      VersionNeverDrops(e, Next(e, w, steps[0]), steps[1..]);
    }
  }

  /** Main result: whatever happens between them, two successful applies named different
      versions, the later one the higher; so of several applies naming one version at most one
      succeeds. */
  lemma LaterSuccessNamesHigherVersion<T, S, C>(e: Engine<T, S, C>, w: World<T, C>, first: Step<C>, between: seq<Step<C>>, second: Step<C>)
    requires Succeeds(e, w, first)
    requires Succeeds(e, Run(e, Next(e, w, first), between), second)
    ensures first.request.clientPlanVersion < second.request.clientPlanVersion
  {
    OnlySuccessWrites(e, w, first.request);
    VersionNeverDrops(e, Next(e, w, first), between);
    OnlySuccessWrites(e, Run(e, Next(e, w, first), between), second.request);
  }

  /** Successful applies and other writes of a run. */
  function Writes<T, S, C>(e: Engine<T, S, C>, w: World<T, C>, steps: seq<Step<C>>): nat
    decreases |steps|
  {
    if |steps| == 0 then 0
    else (if Succeeds(e, w, steps[0]) || (steps[0].OtherWrite? && w.plan.Some?) then 1 else 0)
         + Writes(e, Next(e, w, steps[0]), steps[1..])
  }

  /** The version counts the writes: none is lost and none counts twice. */
  lemma {:induction false} VersionCountsWrites<T, S, C>(e: Engine<T, S, C>, w: World<T, C>, steps: seq<Step<C>>)
    ensures Run(e, w, steps).version == w.version + Writes(e, w, steps)
    decreases |steps|
  {
    if |steps| > 0 {
      if steps[0].Apply? {
        OnlySuccessWrites(e, w, steps[0].request);
      }
      VersionCountsWrites(e, Next(e, w, steps[0]), steps[1..]);
    }
  }

  /** Replaying everything ever written onto the first plan gives the current plan. */
  lemma {:induction false} PlanIsReplay<T, S, C>(e: Engine<T, S, C>, w: World<T, C>, steps: seq<Step<C>>, first: T, before: nat)
    requires w.plan.Some? && before <= |w.written| && w.plan.value == StepAll(e, first, w.written[before..])
    ensures var end := Run(e, w, steps);
      && end.plan.Some? && before <= |end.written| && w.written <= end.written
      && end.plan.value == StepAll(e, first, end.written[before..])
    decreases |steps|
  {
    if |steps| > 0 {
      StepIsReplay(e, w, steps[0], first, before);
      PlanIsReplay(e, Next(e, w, steps[0]), steps[1..], first, before);
    }
  }

  lemma StepIsReplay<T, S, C>(e: Engine<T, S, C>, w: World<T, C>, step: Step<C>, first: T, before: nat)
    requires w.plan.Some? && before <= |w.written| && w.plan.value == StepAll(e, first, w.written[before..])
    ensures var next := Next(e, w, step);
      && next.plan.Some? && before <= |next.written| && w.written <= next.written
      && next.plan.value == StepAll(e, first, next.written[before..])
  {
    var added := StepAdds(e, w, step);
    assert (w.written + added)[before..] == w.written[before..] + added;
    StepAllConcat(e, first, w.written[before..], added);
  }

  /** The commands a step writes, and what they make of the plan. */
  lemma StepAdds<T, S, C>(e: Engine<T, S, C>, w: World<T, C>, step: Step<C>) returns (added: seq<C>)
    requires w.plan.Some?
    ensures var next := Next(e, w, step);
      next.written == w.written + added && next.plan == Some(StepAll(e, w.plan.value, added))
  {
    if step.Apply? {
      OnlySuccessWrites(e, w, step.request);
    }
    var wrote := step.OtherWrite? || (step.Apply? && ApplyTx(e, w, step.request).1.Applied?);
    added := if step.OtherWrite? then step.commands
             else if wrote then w.actions[(step.request.signalId, step.request.actionId)].commands.value else [];
    assert w.written + [] == w.written;
  }

  lemma {:induction false} StepAllConcat<T, S, C>(e: Engine<T, S, C>, plan: T, a: seq<C>, b: seq<C>)
    ensures StepAll(e, plan, a + b) == StepAll(e, StepAll(e, plan, a), b)
    decreases |a|
  {
    if |a| == 0 {
      assert a + b == b;
    } else {
      assert (a + b)[1..] == a[1..] + b;
      StepAllConcat(e, e.step(plan, a[0]), a[1..], b);
    }
  }

  /** The two logs stay in step: execution `n` points at audit event `n`, with its verdict. */
  predicate InStep<T, C>(w: World<T, C>) {
    && |w.audits| == |w.executions|
    && forall n :: 0 <= n < |w.executions| ==>
         w.executions[n].auditEventId == n
         && (w.executions[n].status == Succeeded <==> w.audits[n] == SucceededStatus)
         && (w.executions[n].status == Denied <==> w.audits[n] == DeniedStatus)
  }

  lemma {:induction false} LogsStayInStep<T, S, C>(e: Engine<T, S, C>, w: World<T, C>, steps: seq<Step<C>>)
    requires InStep(w)
    ensures InStep(Run(e, w, steps))
    ensures var end := Run(e, w, steps);
      && |end.audits| == |end.executions|
      && forall n :: 0 <= n < |end.executions| ==>
        && end.executions[n].auditEventId == n
        && (end.executions[n].status == Succeeded <==> end.audits[n] == SucceededStatus)
        && (end.executions[n].status == Denied <==> end.audits[n] == DeniedStatus)
    decreases |steps|
  {
    if |steps| > 0 {
      if steps[0].Apply? {
        OneAuditOneExecution(e, w, steps[0].request);
      }
      LogsStayInStep(e, Next(e, w, steps[0]), steps[1..]);
    }
  }
}
