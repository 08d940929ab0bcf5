/** Who may accept an invitation: the token table has no column that tells an invitation from a
    reset, so an account counts as invited while no credential carries its email. */
module AccountCredentials {
  import opened Wrappers
  import opened OneTimeTokens

  // ----- Accounts and credentials in step -----

  /** Every credential belongs to an account and carries its email; no two carry the same. */
  ghost predicate InSync(db: Database) {
    && (forall u :: u in db.credentials ==> u in db.users && db.credentials[u].email == db.users[u].email)
    && (forall u :: u in db.credentials ==> !EmailTaken(db, u, db.credentials[u].email))
  }

  /** A checked accept that can still commit is for an account without a credential. */
  predicate Entitled(s: System, request: string)
    requires request in s.pending
  {
    var p := s.pending[request];
    p.Accepting? && p.stage.Checked? && Consumable(s.db, p.tokenId) ==> p.userId !in s.db.credentials
  }

  ghost predicate Accounts(s: System) {
    InSync(s.db) && forall r :: r in s.pending ==> Entitled(s, r)
  }

  /** The server's own steps; the two others stand for any other edit of the tables. */
  predicate Regular(step: Step) { !step.EditUser? && !step.EditCredential? }

  // ----- Database steps -----

  /** Giving one account a credential with a free email takes no email twice. */
  lemma NewEmailIsFree(db: Database, after: Database, userId: string, u: string)
    requires InSync(db) && userId in after.credentials && u in after.credentials
    requires !EmailTaken(db, userId, after.credentials[userId].email)
    requires after.credentials.Keys == db.credentials.Keys + {userId}
    requires forall v :: v in db.credentials && v != userId ==> after.credentials[v] == db.credentials[v]
    ensures !EmailTaken(after, u, after.credentials[u].email)
  {
    assert u in db.credentials ==> !EmailTaken(db, u, db.credentials[u].email);
  }

  lemma SameEmails(db: Database, after: Database)
    requires InSync(db) && after.credentials.Keys <= db.credentials.Keys
    requires forall u :: u in after.credentials ==> after.credentials[u].email == db.credentials[u].email
    ensures forall u :: u in after.credentials ==> !EmailTaken(after, u, after.credentials[u].email)
  {
    forall u | u in after.credentials
      ensures !EmailTaken(after, u, after.credentials[u].email)
    {
      assert !EmailTaken(db, u, db.credentials[u].email);
    }
  }

  lemma AcceptKeepsSync(db: Database, tokenId: string, userId: string, now: int, password: string)
    requires InSync(db)
    ensures InSync(AcceptTx(db, tokenId, userId, now, password).0)
  {
    var after := AcceptTx(db, tokenId, userId, now, password).0;
    if AcceptTx(db, tokenId, userId, now, password).1.Accepted? {
      forall u | u in after.credentials
        ensures !EmailTaken(after, u, after.credentials[u].email)
      {
        NewEmailIsFree(db, after, userId, u);
      }
    }
  }

  lemma ConfirmKeepsSync(db: Database, tokenId: string, userId: string, now: int, password: string)
    requires InSync(db)
    ensures InSync(ConfirmTx(db, tokenId, userId, now, password).0)
  {
    var after := ConfirmTx(db, tokenId, userId, now, password).0;
    assert forall u :: u in after.credentials ==> u in db.credentials && after.credentials[u].email == db.credentials[u].email;
    SameEmails(db, after);
  }

  lemma CreateKeepsSync(db: Database, userId: string, user: User, initial: Option<string>)
    requires InSync(db)
    ensures InSync(CreateTx(db, userId, user, initial))
  {
    var created := CreateTx(db, userId, user, initial);
    if created.credentials == db.credentials {
      SameEmails(db, created);
    } else {
      forall u | u in created.credentials
        ensures !EmailTaken(created, u, created.credentials[u].email)
      {
        NewEmailIsFree(db, created, userId, u);
      }
    }
  }

  lemma DeleteKeepsSync(db: Database, userId: string)
    requires InSync(db)
    ensures InSync(DeleteTx(db, userId))
  {
    SameEmails(db, DeleteTx(db, userId));
  }

  // ----- Writes of rows read before -----

  /** A write is safe for an account with a credential if it moves the email, or leaves it at the
      one that is stored. */
  predicate SafeWrite(db: Database, userId: string, read: User, row: User) {
    userId in db.users && userId in db.credentials ==>
      Refused(db, userId, read, row) || row.email != read.email || row.email == db.users[userId].email
  }

  /** Main result: a write that leaves the email alone puts the account out of step with its
      credential exactly if the email has been changed since the row was read. */
  lemma WriteKeepsSyncExactlyWhen(db: Database, userId: string, read: User, row: User)
    requires InSync(db)
    ensures InSync(WriteTx(db, userId, read, row)) <==> SafeWrite(db, userId, read, row)
  {
    if userId in db.users && !Refused(db, userId, read, row) {
      if userId in db.credentials && row.email != read.email {
        MovingKeepsSync(db, userId, read, row);
      } else {
        SameEmails(db, WriteTx(db, userId, read, row));
      }
    }
  }

  lemma MovingKeepsSync(db: Database, userId: string, read: User, row: User)
    requires InSync(db) && userId in db.users && userId in db.credentials
    requires row.email != read.email && !Refused(db, userId, read, row)
    ensures InSync(WriteTx(db, userId, read, row))
  {
    var after := WriteTx(db, userId, read, row);
    forall u | u in after.credentials
      ensures !EmailTaken(after, u, after.credentials[u].email)
    {
      NewEmailIsFree(db, after, userId, u);
    }
  }

  // ----- The look-up of the credential -----

  /** In step, the look-up misses the credential of an account exactly if the account's email is
      no longer the one that was read, and nobody else's credential carries that one. */
  lemma LookUpMissesExactlyWhen(db: Database, userId: string, email: string)
    requires InSync(db) && userId in db.credentials
    ensures !EmailKnown(db, email) <==> db.users[userId].email != email && !EmailTaken(db, userId, email)
  {
  }

  // ----- One step -----

  /** What keeps a step from breaking the accounts: a write is safe, and the look-up does not miss
      the credential of an account whose accept can still commit. */
  predicate Careful(s: System, step: Step) {
    match step
    case WriteAccount(e, c) => e in s.edits ==> SafeWrite(s.db, s.edits[e].userId, s.edits[e].read, Filled(s.edits[e].read, c))
    case SaveProfile(e) => e in s.edits ==> SafeWrite(s.db, s.edits[e].userId, s.edits[e].read, s.edits[e].read)
    case CheckCredential(r) => LooksUp(s, r) ==> EmailKnown(s.db, s.pending[r].stage.email)
    case _ => true
  }

  /** The request is about to look for the credential of an account that has one. */
  predicate LooksUp(s: System, r: string) {
    && r in s.pending && s.pending[r].Accepting? && s.pending[r].stage.Found?
    && Consumable(s.db, s.pending[r].tokenId) && s.pending[r].userId in s.db.credentials
  }

  lemma WrittenState(s: System, step: Step)
    requires (step.WriteAccount? || step.SaveProfile?) && step.edit in s.edits
    ensures var e := s.edits[step.edit]; var row := if step.WriteAccount? then Filled(e.read, step.change) else e.read;
      && Apply(s, step).db == WriteTx(s.db, e.userId, e.read, row) && Apply(s, step).pending == s.pending
      && (Careful(s, step) <==> SafeWrite(s.db, e.userId, e.read, row))
  {
  }

  lemma EditSyncExactlyWhen(s: System, step: Step)
    requires InSync(s.db) && (step.WriteAccount? || step.SaveProfile?)
    ensures InSync(Apply(s, step).db) <==> Careful(s, step)
  {
    if step.edit in s.edits {
      var e := s.edits[step.edit];
      WrittenState(s, step);
      WriteKeepsSyncExactlyWhen(s.db, e.userId, e.read, if step.WriteAccount? then Filled(e.read, step.change) else e.read);
    }
  }

  lemma CommitKeepsSync(s: System, step: Step)
    requires InSync(s.db) && (step.CommitConfirm? || step.CommitAccept?)
    ensures InSync(Apply(s, step).db)
  {
    if step.request in s.pending {
      var p := s.pending[step.request];
      if step.CommitConfirm? && p.Confirming? {
        ConfirmKeepsSync(s.db, p.tokenId, p.userId, p.now, p.password);
      } else if step.CommitAccept? && p.Accepting? && p.stage.Checked? {
        AcceptKeepsSync(s.db, p.tokenId, p.userId, p.now, p.password);
      }
    }
  }

  lemma StepSyncExactlyWhen(s: System, step: Step)
    requires InSync(s.db) && Regular(step)
    ensures InSync(Apply(s, step).db) <==> step.CheckCredential? || Careful(s, step)
  {
    match step {
      case CommitConfirm(_, _) => CommitKeepsSync(s, step);
      case CommitAccept(_, _) => CommitKeepsSync(s, step);
      case CreateAccount(u, user, initial) => CreateKeepsSync(s.db, u, user, initial);
      case DeleteAccount(u) => DeleteKeepsSync(s.db, u);
      case WriteAccount(_, _) => EditSyncExactlyWhen(s, step);
      case SaveProfile(_) => EditSyncExactlyWhen(s, step);
      case _ => SameEmails(s.db, Apply(s, step).db);
    }
  }

  /** Only a commit for its own user gives an account a credential. */
  lemma CredentialsComeFromCommits(s: System, step: Step, userId: string)
    requires Regular(step) && userId in s.db.users && userId !in s.db.credentials
    ensures userId in Apply(s, step).db.credentials ==>
      Committed(s, step).Some? && Committed(s, step).value.userId == userId
  {
    if step.CommitAccept? && step.request in s.pending {
      var p := s.pending[step.request];
      AcceptGives(s.db, p.tokenId, p.userId, p.now, p.password, userId);
    }
  }

  lemma AcceptGives(db: Database, tokenId: string, owner: string, now: int, password: string, userId: string)
    requires userId !in db.credentials
    ensures var (after, outcome) := AcceptTx(db, tokenId, owner, now, password);
      userId in after.credentials ==> outcome.Accepted? && userId == owner
  {
  }

  /** An accept is checked already, or in this step. */
  lemma CheckedBefore(s: System, step: Step, request: string)
    requires request in s.pending && request in Apply(s, step).pending
    requires Apply(s, step).pending[request].Accepting? && Apply(s, step).pending[request].stage.Checked?
    ensures s.pending[request].Accepting? && !s.pending[request].stage.Unchecked?
    ensures s.pending[request].stage.Checked? ||
      (step == CheckCredential(request) && !EmailKnown(s.db, s.pending[request].stage.email))
  {
  }

  lemma StepKeepsEntitled(s: System, step: Step, request: string)
    requires Inv(s) && Accounts(s) && Regular(step) && Careful(s, step) && request in Apply(s, step).pending
    ensures Entitled(Apply(s, step), request)
  {
    var s' := Apply(s, step);
    var p := s'.pending[request];
    if p.Accepting? && p.stage.Checked? && Consumable(s'.db, p.tokenId) {
      StepMovesRequest(s, step, request);
      assert request in s.pending && Entitled(s, request) && KnowsOwner(s, request) && FindsAccount(s, request);
      StepMovesToken(s, step, p.tokenId);
      CheckedBefore(s, step, request);
      assert p.userId !in s.db.credentials;
      CredentialsComeFromCommits(s, step, p.userId);
      if Committed(s, step).Some? && Committed(s, step).value.userId == p.userId {
        CommitShutsOutOthers(s, step, p.tokenId);
      }
    }
  }

  /** A look-up that misses leaves behind an accept that is not entitled to commit. */
  lemma MissBreaks(s: System, request: string)
    requires LooksUp(s, request) && !EmailKnown(s.db, s.pending[request].stage.email)
    ensures var s' := Apply(s, CheckCredential(request)); request in s'.pending && !Entitled(s', request)
  {
  }

  /** Main result: one of the server's steps keeps the accounts in order if and only if it is
      careful. */
  lemma StepKeepsAccountsExactlyWhen(s: System, step: Step)
    requires Inv(s) && Accounts(s) && Regular(step)
    ensures Accounts(Apply(s, step)) <==> Careful(s, step)
  {
    StepSyncExactlyWhen(s, step);
    if Careful(s, step) {
      assert InSync(Apply(s, step).db);
      forall r | r in Apply(s, step).pending
        ensures Entitled(Apply(s, step), r)
      {
        StepKeepsEntitled(s, step, r);
      }
    } else if step.CheckCredential? {
      MissBreaks(s, step.request);
    }
  }

  // ----- Runs -----

  ghost predicate AlwaysInOrder(s: System, steps: seq<Step>)
    decreases |steps|
  {
    Accounts(s) && (|steps| > 0 ==> AlwaysInOrder(Apply(s, steps[0]), steps[1..]))
  }

  predicate RunCareful(s: System, steps: seq<Step>)
    decreases |steps|
  {
    |steps| == 0 || (Careful(s, steps[0]) && RunCareful(Apply(s, steps[0]), steps[1..]))
  }

  /** Main result: the accounts stay in order throughout a run of the server's own steps if and
      only if every step of it is careful. */
  lemma {:induction false} AccountsInOrderExactlyWhen(s: System, steps: seq<Step>)
    requires Inv(s) && Accounts(s) && forall x :: x in steps ==> Regular(x)
    ensures AlwaysInOrder(s, steps) <==> RunCareful(s, steps)
    decreases |steps|
  {
    if |steps| > 0 {
      assert steps[0] in steps;
      StepKeepsInv(s, steps[0]);
      StepKeepsAccountsExactlyWhen(s, steps[0]);
      if Careful(s, steps[0]) {
        AccountsInOrderExactlyWhen(Apply(s, steps[0]), steps[1..]);
      } else {
        NotInOrder(Apply(s, steps[0]), steps[1..]);
      }
    }
  }

  lemma NotInOrder(s: System, steps: seq<Step>)
    requires !Accounts(s)
    ensures !AlwaysInOrder(s, steps)
  {
  }

  lemma {:induction false} OrderAtTheEnd(s: System, steps: seq<Step>)
    requires Inv(s) && AlwaysInOrder(s, steps)
    ensures Inv(Run(s, steps)) && Accounts(Run(s, steps))
    decreases |steps|
  {
    if |steps| > 0 {
      StepKeepsInv(s, steps[0]);
      OrderAtTheEnd(Apply(s, steps[0]), steps[1..]);
    }
  }

  /** What a caller can check before the step: a write that leaves the email alone still finds the
      email it read, and the look-up finds the account's email unchanged. */
  predicate Undisturbed(s: System, step: Step) {
    match step
    case WriteAccount(e, c) => e in s.edits && Filled(s.edits[e].read, c).email == s.edits[e].read.email ==> StillRead(s, e)
    case SaveProfile(e) => e in s.edits ==> StillRead(s, e)
    case CheckCredential(r) =>
      r in s.pending && s.pending[r].Accepting? && s.pending[r].stage.Found? && s.pending[r].userId in s.db.users ==>
        s.db.users[s.pending[r].userId].email == s.pending[r].stage.email
    case _ => true
  }

  predicate StillRead(s: System, e: string)
    requires e in s.edits
  {
    s.edits[e].userId in s.db.users ==> s.db.users[s.edits[e].userId].email == s.edits[e].read.email
  }

  predicate RunUndisturbed(s: System, steps: seq<Step>)
    decreases |steps|
  {
    |steps| == 0 || (Undisturbed(s, steps[0]) && RunUndisturbed(Apply(s, steps[0]), steps[1..]))
  }

  lemma UndisturbedIsCareful(s: System, step: Step)
    requires InSync(s.db) && Undisturbed(s, step)
    ensures Careful(s, step)
  {
    if step.CheckCredential? && LooksUp(s, step.request) {
      var p := s.pending[step.request];
      LookUpMissesExactlyWhen(s.db, p.userId, p.stage.email);
    }
  }

  lemma {:induction false} UndisturbedRunIsCareful(s: System, steps: seq<Step>)
    requires Inv(s) && Accounts(s) && RunUndisturbed(s, steps) && forall x :: x in steps ==> Regular(x)
    ensures RunCareful(s, steps)
    decreases |steps|
  {
    if |steps| > 0 {
      assert steps[0] in steps;
      UndisturbedIsCareful(s, steps[0]);
      StepKeepsInv(s, steps[0]);
      StepKeepsAccountsExactlyWhen(s, steps[0]);
      UndisturbedRunIsCareful(Apply(s, steps[0]), steps[1..]);
    }
  }

  /** Main result: on a run in which no email changes between the read and the write of an edit that
      leaves it alone, nor between the two reads of an accept, an accept commits only for an
      account that has no credential. */
  lemma AcceptOnlyWithoutCredential(s: System, steps: seq<Step>, last: Step)
    requires Inv(s) && Accounts(s) && RunUndisturbed(s, steps) && forall x :: x in steps ==> Regular(x)
    ensures Accounts(Run(s, steps))
    ensures var end := Run(s, steps);
      last.CommitAccept? && Committed(end, last).Some? ==> Committed(end, last).value.userId !in end.db.credentials
  {
    UndisturbedRunIsCareful(s, steps);
    AccountsInOrderExactlyWhen(s, steps);
    OrderAtTheEnd(s, steps);
    var end := Run(s, steps);
    if last.CommitAccept? && Committed(end, last).Some? {
      CommitSpends(end, last);
      CommitTimes(end, last);
      assert Entitled(end, last.request);
    }
  }

  // ----- The two ways in -----

  /** One account `u` with its credential, and what is under way. */
  function Alone(user: User, credential: Credential, tokens: map<string, Token>, pending: map<string, Pending>,
                 edits: map<string, Edit>): System
  {
    System(Database(tokens, map["u" := user], map["u" := credential], map[], []), tokens.Keys, pending, edits, [])
  }

  lemma RunCons(s: System, step: Step, steps: seq<Step>, next: System)
    requires Apply(s, step) == next
    ensures Run(s, [step] + steps) == Run(next, steps)
  {
    assert ([step] + steps)[1..] == steps;
  }

  /** A run as the list of its steps, each with the state it leads to. */
  predicate Leads(s: System, moves: seq<(Step, System)>)
    decreases |moves|
  {
    |moves| == 0 || (Apply(s, moves[0].0) == moves[0].1 && Leads(moves[0].1, moves[1..]))
  }

  function StepsOf(moves: seq<(Step, System)>): seq<Step> {
    if |moves| == 0 then [] else [moves[0].0] + StepsOf(moves[1..])
  }

  lemma {:induction false} LeadsTo(s: System, moves: seq<(Step, System)>)
    requires |moves| > 0 && Leads(s, moves)
    ensures Run(s, StepsOf(moves)) == moves[|moves| - 1].1
    decreases |moves|
  {
    var next := moves[0].1;
    RunCons(s, moves[0].0, StepsOf(moves[1..]), next);
    if |moves| == 1 {
      assert StepsOf(moves[1..]) == [] && Run(next, []) == next;
    } else {
      LeadsTo(next, moves[1..]);
    }
  }

  lemma Prepend(s: System, x: Step, next: System, moves: seq<(Step, System)>)
    requires Apply(s, x) == next && Leads(next, moves)
    ensures Leads(s, [(x, next)] + moves) && StepsOf([(x, next)] + moves) == [x] + StepsOf(moves)
  {
    assert ([(x, next)] + moves)[1..] == moves;
  }

  lemma FourSteps(s: System, a: (Step, System), b: (Step, System), c: (Step, System), d: (Step, System))
    requires Apply(s, a.0) == a.1 && Apply(a.1, b.0) == b.1 && Apply(b.1, c.0) == c.1 && Apply(c.1, d.0) == d.1
    ensures Run(s, [a.0, b.0, c.0, d.0]) == d.1
  {
    Prepend(c.1, d.0, d.1, []);
    Prepend(b.1, c.0, c.1, [d] + []);
    Prepend(a.1, b.0, b.1, [c] + ([d] + []));
    Prepend(s, a.0, a.1, [b] + ([c] + ([d] + [])));
    LeadsTo(s, [a] + ([b] + ([c] + ([d] + []))));
    assert [a.0] + ([b.0] + ([c.0] + ([d.0] + []))) == [a.0, b.0, c.0, d.0];
  }

  lemma RunConcat(s: System, x: seq<Step>, y: seq<Step>)
    ensures Run(s, x + y) == Run(Run(s, x), y)
    decreases |x|
  {
    if |x| == 0 {
      assert x + y == y;
    } else {
      assert (x + y)[1..] == x[1..] + y;
      RunConcat(Apply(s, x[0]), x[1..], y);
    }
  }

  lemma AloneIsInOrder(user: User, credential: Credential, tokens: map<string, Token>)
    requires credential.email == user.email
    ensures Inv(Alone(user, credential, tokens, map[], map[])) && Accounts(Alone(user, credential, tokens, map[], map[]))
  {
  }

  /** An edit that names the email moves the credential along, wherever it was read ... */
  lemma EmailEdit(user: User, credential: Credential, tokens: map<string, Token>, pending: map<string, Pending>,
                  edits: map<string, Edit>, email: string)
    requires "admin" in edits && edits["admin"] == Edit("u", user) && email != user.email
    ensures Apply(Alone(user, credential, tokens, pending, edits), WriteAccount("admin", Change(Some(email), None, None)))
         == Alone(user.(email := email), credential.(email := email), tokens, pending, edits - {"admin"})
  {
    var s := Alone(user, credential, tokens, pending, edits);
    var row := user.(email := email);
    assert Filled(user, Change(Some(email), None, None)) == row && !Refused(s.db, "u", user, row);
    assert map["u" := user]["u" := row] == map["u" := row];
    assert map["u" := credential]["u" := credential.(email := email)] == map["u" := credential.(email := email)];
  }

  /** ... and a profile save read before it puts the old email back into the account alone. */
  lemma StaleSave(user: User, read: User, credential: Credential)
    ensures Apply(Alone(user, credential, map[], map[], map["profile" := Edit("u", read)]), SaveProfile("profile"))
         == Alone(read, credential, map[], map[], map[])
  {
    var s := Alone(user, credential, map[], map[], map["profile" := Edit("u", read)]);
    assert !Refused(s.db, "u", read, read);
    assert map["u" := user]["u" := read] == map["u" := read];
    assert s.edits - {"profile"} == map[];
    assert (map k | k in s.db.tokens && s.db.tokens[k].userId != "u" :: s.db.tokens[k]) == map[];
  }

  lemma Deactivation(user: User, credential: Credential)
    ensures Apply(Alone(user, credential, map[], map[], map["admin" := Edit("u", user)]),
                  WriteAccount("admin", Change(None, Some(false), None)))
         == Alone(user.(active := false), credential, map[], map[], map[])
  {
    var s := Alone(user, credential, map[], map[], map["admin" := Edit("u", user)]);
    var row := user.(active := false);
    assert Filled(user, Change(None, Some(false), None)) == row && !Refused(s.db, "u", user, row);
    assert map["u" := user]["u" := row] == map["u" := row];
    assert s.edits - {"admin"} == map[];
    assert (map k | k in s.db.tokens && s.db.tokens[k].userId != "u" :: s.db.tokens[k]) == map[];
  }

  /** A deactivated account, a token of it, and an accept at some stage. */
  function Waiting(user: User, credential: Credential, expiresAt: int, now: int, password: string, stage: Stage,
                   edits: map<string, Edit>): System
  {
    Alone(user, credential, map["t" := Token("u", expiresAt, None)], map["r" := Accepting("t", "u", now, password, stage)], edits)
  }

  lemma Started(user: User, credential: Credential, expiresAt: int, now: int, password: string)
    requires !user.active && now < expiresAt
    ensures var s := Alone(user, credential, map["t" := Token("u", expiresAt, None)], map[], map[]);
      var started := Waiting(user, credential, expiresAt, now, password, Unchecked, map[]);
      && Apply(s, StartAccept("r", "t", now, password)) == started
      && Apply(started, FindInvited("r")) == Waiting(user, credential, expiresAt, now, password, Found(user.email), map[])
  {
    var started := Waiting(user, credential, expiresAt, now, password, Unchecked, map[]);
    assert started.pending["r" := started.pending["r"].(stage := Found(user.email))]
        == map["r" := Accepting("t", "u", now, password, Found(user.email))];
  }

  /** The look-up misses the credential under the other email, and the commit goes through. */
  lemma Finished(user: User, credential: Credential, expiresAt: int, now: int, password: string, email: string, at: int)
    requires !user.active && credential.email != email
    ensures var found := Waiting(user, credential, expiresAt, now, password, Found(email), map[]);
      var checked := Waiting(user, credential, expiresAt, now, password, Checked, map[]);
      && Apply(found, CheckCredential("r")) == checked
      && "u" in checked.db.credentials
      && Committed(checked, CommitAccept("r", at)) == Some(Commit("t", "u", expiresAt, now, at))
      && Apply(checked, CommitAccept("r", at)).db.credentials == map["u" := Credential(user.email, password)]
      && Apply(checked, CommitAccept("r", at)).db.users == map["u" := user.(active := true)]
  {
    var found := Waiting(user, credential, expiresAt, now, password, Found(email), map[]);
    var checked := Waiting(user, credential, expiresAt, now, password, Checked, map[]);
    assert !EmailKnown(found.db, email);
    assert found.pending["r" := found.pending["r"].(stage := Checked)] == checked.pending;
    var db := checked.db;
    assert Consumable(db, "t") && !EmailTaken(db, "u", user.email);
    assert AcceptTx(db, "t", "u", now, password).1.Accepted?;
    assert db.credentials["u" := Credential(user.email, password)] == map["u" := Credential(user.email, password)];
    assert db.users["u" := user.(active := true)] == map["u" := user.(active := true)];
  }

  lemma EditInBetween(user: User, email: string, was: string, expiresAt: int, now: int, password: string)
    requires email != user.email
    ensures var s2 := Waiting(user, Credential(user.email, was), expiresAt, now, password, Found(user.email), map[]);
      var s3 := Waiting(user, Credential(user.email, was), expiresAt, now, password, Found(user.email), map["admin" := Edit("u", user)]);
      && Apply(s2, ReadAccount("admin", "u")) == s3
      && Apply(s3, WriteAccount("admin", Change(Some(email), None, None)))
         == Waiting(user.(email := email), Credential(email, was), expiresAt, now, password, Found(user.email), map[])
  {
    var tokens := map["t" := Token("u", expiresAt, None)];
    var pending := map["r" := Accepting("t", "u", now, password, Found(user.email))];
    var edits := map["admin" := Edit("u", user)];
    EmailEdit(user, Credential(user.email, was), tokens, pending, edits, email);
    assert edits - {"admin"} == map[];
  }

  /** The steps up to the look-up of the credential, with an edit of the email between the reads. */
  lemma EditBetween(user: User, email: string, was: string, expiresAt: int, now: int, password: string)
    requires !user.active && email != user.email && now < expiresAt
    ensures Run(Alone(user, Credential(user.email, was), map["t" := Token("u", expiresAt, None)], map[], map[]),
                [StartAccept("r", "t", now, password), FindInvited("r"), ReadAccount("admin", "u"),
                 WriteAccount("admin", Change(Some(email), None, None))])
         == Waiting(user.(email := email), Credential(email, was), expiresAt, now, password, Found(user.email), map[])
  {
    var credential := Credential(user.email, was);
    Started(user, credential, expiresAt, now, password);
    EditInBetween(user, email, was, expiresAt, now, password);
    FourSteps(Alone(user, credential, map["t" := Token("u", expiresAt, None)], map[], map[]),
      (StartAccept("r", "t", now, password), Waiting(user, credential, expiresAt, now, password, Unchecked, map[])),
      (FindInvited("r"), Waiting(user, credential, expiresAt, now, password, Found(user.email), map[])),
      (ReadAccount("admin", "u"),
       Waiting(user, credential, expiresAt, now, password, Found(user.email), map["admin" := Edit("u", user)])),
      (WriteAccount("admin", Change(Some(email), None, None)),
       Waiting(user.(email := email), Credential(email, was), expiresAt, now, password, Found(user.email), map[])));
  }

  /** Concrete run: an edit of the email falls between the two reads of an accept.  Account and
      credential are in step before and after the edit, and the deactivated account is let in. */
  lemma EditBetweenReads(user: User, email: string, was: string, expiresAt: int, now: int, at: int, password: string)
    requires !user.active && email != user.email && now < expiresAt
    ensures var s := Alone(user, Credential(user.email, was), map["t" := Token("u", expiresAt, None)], map[], map[]);
      var found := Run(s, [StartAccept("r", "t", now, password), FindInvited("r"), ReadAccount("admin", "u"),
                           WriteAccount("admin", Change(Some(email), None, None))]);
      var end := Apply(found, CheckCredential("r"));
      && Accounts(s) && Inv(s) && InSync(found.db) && "u" in end.db.credentials
      && Committed(end, CommitAccept("r", at)) == Some(Commit("t", "u", expiresAt, now, at))
  {
    AloneIsInOrder(user, Credential(user.email, was), map["t" := Token("u", expiresAt, None)]);
    EditBetween(user, email, was, expiresAt, now, password);
    Finished(user.(email := email), Credential(email, was), expiresAt, now, password, user.email, at);
  }

  /** The first half of the other run: a profile save read before an edit of the email puts the
      account out of step, and a deactivation leaves it there. */
  lemma StaleSaveThenDeactivation(user: User, email: string, was: string)
    requires email != user.email
    ensures var s := Alone(user, Credential(user.email, was), map[], map[], map[]);
      Run(s, [ReadAccount("profile", "u"), ReadAccount("admin", "u"), WriteAccount("admin", Change(Some(email), None, None)),
              SaveProfile("profile"), ReadAccount("admin", "u"), WriteAccount("admin", Change(None, Some(false), None))])
      == Alone(user.(active := false), Credential(email, was), map[], map[], map[])
  {
    var credential, moved := Credential(user.email, was), Credential(email, was);
    var profile, both := map["profile" := Edit("u", user)], map["profile" := Edit("u", user), "admin" := Edit("u", user)];
    var s := Alone(user, credential, map[], map[], map[]);
    var s1 := Alone(user, credential, map[], map[], profile);
    var s2 := Alone(user, credential, map[], map[], both);
    assert profile["admin" := Edit("u", user)] == both && both - {"admin"} == profile;
    EmailEdit(user, credential, map[], map[], both, email);
    var s3 := Alone(user.(email := email), moved, map[], map[], profile);
    StaleSave(user.(email := email), user, moved);
    var s4 := Alone(user, moved, map[], map[], map[]);
    var s5 := Alone(user, moved, map[], map[], map["admin" := Edit("u", user)]);
    Deactivation(user, moved);
    var s6 := Alone(user.(active := false), moved, map[], map[], map[]);
    var x1, x2, x3 := ReadAccount("profile", "u"), ReadAccount("admin", "u"), WriteAccount("admin", Change(Some(email), None, None));
    var x4, x5, x6 := SaveProfile("profile"), ReadAccount("admin", "u"), WriteAccount("admin", Change(None, Some(false), None));
    FourSteps(s, (x1, s1), (x2, s2), (x3, s3), (x4, s4));
    RunConcat(s, [x1, x2, x3, x4], [x5, x6]);
    assert Run(s4, [x5, x6]) == s6 by {
      RunCons(s5, x6, [], s6);
      RunCons(s4, x5, [x6], s5);
      assert [x5] + [x6] == [x5, x6] && [x6] + [] == [x6];
    }
    assert [x1, x2, x3, x4] + [x5, x6] == [x1, x2, x3, x4, x5, x6];
  }

  /** A reset token issued for a deactivated account whose credential carries another email. */
  lemma ResetLetsIn(gone: User, moved: Credential, expiresAt: int, now: int, password: string)
    requires !gone.active && moved.email != gone.email && now < expiresAt
    ensures Run(Alone(gone, moved, map[], map[], map[]),
                [IssueToken("t", "u", expiresAt), StartAccept("r", "t", now, password), FindInvited("r"), CheckCredential("r")])
         == Waiting(gone, moved, expiresAt, now, password, Checked, map[])
  {
    var out, issued := Alone(gone, moved, map[], map[], map[]), Alone(gone, moved, map["t" := Token("u", expiresAt, None)], map[], map[]);
    assert issued.issued == {} + {"t"};
    Started(gone, moved, expiresAt, now, password);
    Finished(gone, moved, expiresAt, now, password, gone.email, now);
    FourSteps(out, (IssueToken("t", "u", expiresAt), issued),
      (StartAccept("r", "t", now, password), Waiting(gone, moved, expiresAt, now, password, Unchecked, map[])),
      (FindInvited("r"), Waiting(gone, moved, expiresAt, now, password, Found(gone.email), map[])),
      (CheckCredential("r"), Waiting(gone, moved, expiresAt, now, password, Checked, map[])));
  }

  /** Concrete run: the account is out of step after a stale profile save.  Once it is deactivated, a
      reset token issued for it lets it in again. */
  lemma StaleSaveLetsIn(user: User, email: string, was: string, expiresAt: int, now: int, at: int, password: string)
    requires email != user.email && now < expiresAt
    ensures var s := Alone(user, Credential(user.email, was), map[], map[], map[]);
      var out := Run(s, [ReadAccount("profile", "u"), ReadAccount("admin", "u"), WriteAccount("admin", Change(Some(email), None, None)),
                         SaveProfile("profile"), ReadAccount("admin", "u"), WriteAccount("admin", Change(None, Some(false), None))]);
      var end := Run(out, [IssueToken("t", "u", expiresAt), StartAccept("r", "t", now, password), FindInvited("r"), CheckCredential("r")]);
      && Accounts(s) && Inv(s) && "u" in end.db.credentials
      && Committed(end, CommitAccept("r", at)) == Some(Commit("t", "u", expiresAt, now, at))
  {
    AloneIsInOrder(user, Credential(user.email, was), map[]);
    StaleSaveThenDeactivation(user, email, was);
    var gone := user.(active := false);
    ResetLetsIn(gone, Credential(email, was), expiresAt, now, password);
    Finished(gone, Credential(email, was), expiresAt, now, password, user.email, at);
  }
}
