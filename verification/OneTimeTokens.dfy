/** Password resets and invitation accepts: many requests read one-time tokens, then commit
    transactions in any order. */
module OneTimeTokens {
  import opened Wrappers

  datatype Token = Token(userId: string, expiresAt: int, consumedAt: Option<int>)
  datatype User = User(tenantId: string, email: string, active: bool, accessProfileId: string)
  datatype Credential = Credential(email: string, password: string)
  datatype AuditRecord = PasswordReset(userId: string, tokenId: string) | InvitationAccepted(userId: string, tokenId: string)

  /** The rows the protocol touches; `sessions` maps a session to its user. */
  datatype Database = Database(
    tokens: map<string, Token>, users: map<string, User>, credentials: map<string, Credential>,
    sessions: map<string, string>, audit: seq<AuditRecord>)

  // ----- The two transactions -----

  predicate Consumable(db: Database, tokenId: string) {
    tokenId in db.tokens && db.tokens[tokenId].consumedAt.None?
  }

  function Consume(db: Database, tokenId: string, now: int): Database
    requires tokenId in db.tokens
  {
    db.(tokens := db.tokens[tokenId := db.tokens[tokenId].(consumedAt := Some(now))])
  }

  function DropOtherTokens(db: Database, userId: string, kept: string): Database {
    db.(tokens := map k | k in db.tokens && (k == kept || db.tokens[k].userId != userId) :: db.tokens[k])
  }

  function DropSessions(db: Database, userId: string): Database {
    db.(sessions := map k | k in db.sessions && db.sessions[k] != userId :: db.sessions[k])
  }

  function SetPassword(db: Database, userId: string, password: string): Database {
    if userId in db.credentials then
      db.(credentials := db.credentials[userId := db.credentials[userId].(password := password)])
    else db
  }

  predicate EmailTaken(db: Database, userId: string, email: string) {
    exists u :: u in db.credentials && u != userId && db.credentials[u].email == email
  }

  function ConfirmTx(db: Database, tokenId: string, userId: string, now: int, password: string): (Database, bool) {
    if !Consumable(db, tokenId) then (db, false)
    else
      var consumed := SetPassword(Consume(db, tokenId, now), userId, password);
      var signedOut := DropSessions(DropOtherTokens(consumed, userId, tokenId), userId);
      (signedOut.(audit := signedOut.audit + [PasswordReset(userId, tokenId)]), true)
  }

  datatype AcceptOutcome = Accepted | TokenUsed | NotPending | UserEmailTaken

  /** A `NotPending` answer returns normally, so the consumed token is committed; a taken
      email throws, so everything is rolled back. */
  function AcceptTx(db: Database, tokenId: string, userId: string, now: int, password: string): (Database, AcceptOutcome) {
    if !Consumable(db, tokenId) then (db, TokenUsed)
    else
      var consumed := Consume(db, tokenId, now);
      if userId !in db.users || db.users[userId].active then (consumed, NotPending)
      else
        var user := db.users[userId];
        if EmailTaken(db, userId, user.email) then (db, UserEmailTaken)
        else
          var active := consumed.(credentials := consumed.credentials[userId := Credential(user.email, password)],
                                  users := consumed.users[userId := user.(active := true)]);
          var done := DropOtherTokens(active, userId, tokenId);
          (done.(audit := done.audit + [InvitationAccepted(userId, tokenId)]), Accepted)
  }

  class AuthStore {
    var tokens: map<string, Token>
    var users: map<string, User>
    var credentials: map<string, Credential>
    var sessions: map<string, string>
    var audit: seq<AuditRecord>

    function Model(): Database
      reads this
    {
      Database(tokens, users, credentials, sessions, audit)
    }

    constructor (db: Database)
      ensures Model() == db
    {
      tokens, users, credentials, sessions, audit := db.tokens, db.users, db.credentials, db.sessions, db.audit;
    }

    /** Returns the number of rows updated: UPDATE ... WHERE consumed_at IS NULL. */
    method MarkTokenConsumed(tokenId: string, now: int) returns (affected: nat)
      modifies this`tokens
      ensures affected == if Consumable(old(Model()), tokenId) then 1 else 0
      ensures Model() == if affected == 1 then Consume(old(Model()), tokenId, now) else old(Model())
    {
      if tokenId in tokens && tokens[tokenId].consumedAt.None? {
        tokens := tokens[tokenId := tokens[tokenId].(consumedAt := Some(now))];
        return 1;
      }
      return 0;
    }

    method UpdateCredentialPassword(userId: string, password: string)
      modifies this`credentials
      ensures Model() == SetPassword(old(Model()), userId, password)
    {
      if userId in credentials {
        credentials := credentials[userId := credentials[userId].(password := password)];
      }
    }

    method DeleteOtherTokens(userId: string, kept: string)
      modifies this`tokens
      ensures Model() == DropOtherTokens(old(Model()), userId, kept)
    {
      tokens := map k | k in tokens && (k == kept || tokens[k].userId != userId) :: tokens[k];
    }

    method DeleteSessions(userId: string)
      modifies this`sessions
      ensures Model() == DropSessions(old(Model()), userId)
    {
      sessions := map k | k in sessions && sessions[k] != userId :: sessions[k];
    }

    method ConfirmPasswordReset(tokenId: string, userId: string, now: int, password: string) returns (consumed: bool)
      modifies this
      ensures (Model(), consumed) == ConfirmTx(old(Model()), tokenId, userId, now, password)
    {
      var affected := MarkTokenConsumed(tokenId, now);
      if affected == 0 {
        return false;
      }
      UpdateCredentialPassword(userId, password);
      DeleteOtherTokens(userId, tokenId);
      DeleteSessions(userId);
      audit := audit + [PasswordReset(userId, tokenId)];
      return true;
    }

    method AcceptInvitation(tokenId: string, userId: string, now: int, password: string) returns (r: AcceptOutcome)
      modifies this
      ensures (Model(), r) == AcceptTx(old(Model()), tokenId, userId, now, password)
    {
      var savedTokens := tokens;
      var affected := MarkTokenConsumed(tokenId, now);
      if affected == 0 {
        return TokenUsed;
      }
      if userId !in users || users[userId].active {
        return NotPending;
      }
      var user := users[userId];
      if exists u :: u in credentials && u != userId && credentials[u].email == user.email {
        tokens := savedTokens;
        return UserEmailTaken;
      }
      credentials := credentials[userId := Credential(user.email, password)];
      users := users[userId := user.(active := true)];
      DeleteOtherTokens(userId, tokenId);
      audit := audit + [InvitationAccepted(userId, tokenId)];
      return Accepted;
    }
  }

  // ----- Interleaved requests -----

  /** How far an accept has come before its transaction: it reads the account, then looks for a
      credential with the email it has read. */
  datatype Stage = Unchecked | Found(email: string) | Checked

  /** A request that has read its token, at the time `now`. */
  datatype Pending =
    | Confirming(tokenId: string, userId: string, now: int, password: string)
    | Accepting(tokenId: string, userId: string, now: int, password: string, stage: Stage)

  /** An edit of an account that has read the row and not yet written. */
  datatype Edit = Edit(userId: string, read: User)

  /** A commit with the expiry of its token, the time it recorded and the time it happened. */
  datatype Commit = Commit(tokenId: string, userId: string, expiresAt: int, stamp: int, at: int)

  /** `issued` holds every token id ever drawn; `commits` logs the successful transactions. */
  datatype System = System(
    db: Database, issued: set<string>, pending: map<string, Pending>, edits: map<string, Edit>, commits: seq<Commit>)

  /** The fields an administrator's edit names; the others are filled in from the row read. */
  datatype Change = Change(email: Option<string>, active: Option<bool>, accessProfileId: Option<string>)

  function Filled(read: User, c: Change): User {
    User(read.tenantId,
         if c.email.Some? then c.email.value else read.email,
         if c.active.Some? then c.active.value else read.active,
         if c.accessProfileId.Some? then c.accessProfileId.value else read.accessProfileId)
  }

  datatype Step =
    | StartConfirm(request: string, tokenId: string, now: int, password: string)
    | CommitConfirm(request: string, at: int)
    | StartAccept(request: string, tokenId: string, now: int, password: string)
    | FindInvited(request: string)
    | CheckCredential(request: string)
    | CommitAccept(request: string, at: int)
    | Abandon(request: string)
    | IssueToken(tokenId: string, userId: string, expiresAt: int)
    | RevokeTokens(userId: string)
    | Login(session: string, userId: string)
    | CreateAccount(userId: string, user: User, initial: Option<string>)
    | DeleteAccount(userId: string)
    | ReadAccount(edit: string, userId: string)
    | WriteAccount(edit: string, change: Change)
    | SaveProfile(edit: string)
    | EditUser(userId: string, user: User)
    | EditCredential(userId: string, credential: Credential)

  /** The unique index on (tenant, email) of accounts. */
  predicate AddressTaken(db: Database, userId: string, user: User) {
    exists u :: u in db.users && u != userId && db.users[u].tenantId == user.tenantId && db.users[u].email == user.email
  }

  /** A new account, with a credential when a password is given; a taken id or email rolls back. */
  function CreateTx(db: Database, userId: string, user: User, initial: Option<string>): Database {
    if userId in db.users || AddressTaken(db, userId, user) || (initial.Some? && EmailTaken(db, userId, user.email)) then db
    else
      db.(users := db.users[userId := user],
          credentials := if initial.None? then db.credentials
                         else db.credentials[userId := Credential(user.email, initial.value)])
  }

  /** Deleting an account takes its credential, tokens and sessions along. */
  function DeleteTx(db: Database, userId: string): Database {
    Database(map k | k in db.tokens && db.tokens[k].userId != userId :: db.tokens[k],
             db.users - {userId}, db.credentials - {userId}, DropSessions(db, userId).sessions, db.audit)
  }

  /** The write violates an index: the credential's email is moved only if `row` departs from the
      email that was read. */
  predicate Refused(db: Database, userId: string, read: User, row: User) {
    || AddressTaken(db, userId, row)
    || (userId in db.credentials && row.email != read.email && EmailTaken(db, userId, row.email))
  }

  /** The transaction of an edit writes the whole row.  Whether the email of the credential moves
      and the tokens are revoked is decided by comparing with the row read before. */
  function WriteTx(db: Database, userId: string, read: User, row: User): Database {
    if userId !in db.users || Refused(db, userId, read, row) then db
    else
      db.(users := db.users[userId := row],
          credentials := if userId in db.credentials && row.email != read.email
                         then db.credentials[userId := db.credentials[userId].(email := row.email)] else db.credentials,
          tokens := if read.active && !row.active
                    then map k | k in db.tokens && db.tokens[k].userId != userId :: db.tokens[k] else db.tokens)
  }

  /** The checks on the token before the transaction. */
  predicate Usable(db: Database, tokenId: string, now: int) {
    Consumable(db, tokenId) && db.tokens[tokenId].expiresAt > now
  }

  /** The look-up before the accept transaction: somebody's credential carries the email. */
  predicate EmailKnown(db: Database, email: string) {
    exists u :: u in db.credentials && db.credentials[u].email == email
  }

  function Written(s: System, edit: string, row: User): System
    requires edit in s.edits
  {
    var e := s.edits[edit];
    s.(db := WriteTx(s.db, e.userId, e.read, row), edits := s.edits - {edit})
  }

  /** The log entry of a request that commits at `at`. */
  function CommitOf(s: System, request: string, at: int): Commit
    requires request in s.pending
  {
    var p := s.pending[request];
    Commit(p.tokenId, p.userId, if p.tokenId in s.db.tokens then s.db.tokens[p.tokenId].expiresAt else 0, p.now, at)
  }

  function Finish(s: System, request: string, db: Database, commits: seq<Commit>): System {
    s.(db := db, pending := s.pending - {request}, commits := commits)
  }

  function Apply(s: System, step: Step): System {
    match step
    case StartConfirm(r, t, now, pw) =>
      if r !in s.pending && Usable(s.db, t, now)
      then s.(pending := s.pending[r := Confirming(t, s.db.tokens[t].userId, now, pw)]) else s
    case StartAccept(r, t, now, pw) =>
      if r !in s.pending && Usable(s.db, t, now)
      then s.(pending := s.pending[r := Accepting(t, s.db.tokens[t].userId, now, pw, Unchecked)]) else s
    case FindInvited(r) =>
      if r in s.pending && s.pending[r].Accepting? && s.pending[r].stage.Unchecked?
      then
        var u := s.pending[r].userId;
        if u in s.db.users && !s.db.users[u].active
        then s.(pending := s.pending[r := s.pending[r].(stage := Found(s.db.users[u].email))])
        else s.(pending := s.pending - {r})
      else s
    case CheckCredential(r) =>
      if r in s.pending && s.pending[r].Accepting? && s.pending[r].stage.Found?
      then
        if EmailKnown(s.db, s.pending[r].stage.email) then s.(pending := s.pending - {r})
        else s.(pending := s.pending[r := s.pending[r].(stage := Checked)])
      else s
    case CommitConfirm(r, at) =>
      if r in s.pending && s.pending[r].Confirming?
      then
        var p := s.pending[r];
        var (db, ok) := ConfirmTx(s.db, p.tokenId, p.userId, p.now, p.password);
        Finish(s, r, db, if ok then s.commits + [CommitOf(s, r, at)] else s.commits)
      else s
    case CommitAccept(r, at) =>
      if r in s.pending && s.pending[r].Accepting? && s.pending[r].stage.Checked?
      then
        var p := s.pending[r];
        var (db, outcome) := AcceptTx(s.db, p.tokenId, p.userId, p.now, p.password);
        Finish(s, r, db, if outcome.Accepted? then s.commits + [CommitOf(s, r, at)] else s.commits)
      else s
    case Abandon(r) => s.(pending := s.pending - {r})
    case IssueToken(t, u, e) =>
      if t in s.issued then s
      else s.(db := s.db.(tokens := s.db.tokens[t := Token(u, e, None)]), issued := s.issued + {t})
    case RevokeTokens(u) =>
      s.(db := s.db.(tokens := map k | k in s.db.tokens && s.db.tokens[k].userId != u :: s.db.tokens[k]))
    case Login(x, u) => s.(db := s.db.(sessions := s.db.sessions[x := u]))
    case CreateAccount(u, user, pw) => s.(db := CreateTx(s.db, u, user, pw))
    case DeleteAccount(u) => s.(db := DeleteTx(s.db, u))
    case ReadAccount(e, u) => if u in s.db.users then s.(edits := s.edits[e := Edit(u, s.db.users[u])]) else s
    case WriteAccount(e, c) => if e in s.edits then Written(s, e, Filled(s.edits[e].read, c)) else s
    case SaveProfile(e) => if e in s.edits then Written(s, e, s.edits[e].read) else s
    case EditUser(u, user) => s.(db := s.db.(users := s.db.users[u := user]))
    case EditCredential(u, c) => s.(db := s.db.(credentials := s.db.credentials[u := c]))
  }

  function Run(s: System, steps: seq<Step>): System
    decreases |steps|
  {
    if |steps| == 0 then s else Run(Apply(s, steps[0]), steps[1..])
  }

  // ----- A spent token stays spent -----

  predicate Spent(s: System, tokenId: string) {
    tokenId in s.issued && !Consumable(s.db, tokenId)
  }

  /** A request knows the owner of the token it has read. */
  predicate KnowsOwner(s: System, request: string)
    requires request in s.pending
  {
    var p := s.pending[request];
    p.tokenId in s.issued && (p.tokenId in s.db.tokens ==> s.db.tokens[p.tokenId].userId == p.userId)
  }

  /** An accept that has found its account, and can still commit, finds it again. */
  predicate FindsAccount(s: System, request: string)
    requires request in s.pending
  {
    var p := s.pending[request];
    p.Accepting? && !p.stage.Unchecked? && Consumable(s.db, p.tokenId) ==> p.userId in s.db.users
  }

  ghost predicate Inv(s: System) {
    && (forall t :: t in s.db.tokens ==> t in s.issued)
    && (forall r :: r in s.pending ==> KnowsOwner(s, r) && FindsAccount(s, r))
    && (forall i :: 0 <= i < |s.commits| ==> Spent(s, s.commits[i].tokenId))
    && (forall i, j :: 0 <= i < j < |s.commits| ==> s.commits[i].tokenId != s.commits[j].tokenId)
  }

  // ----- What a step does to one token and to one request -----

  /** The token was there before, with the same owner and expiry, and if it has been consumed, then
      by the request that commits; or it is newly issued. */
  ghost predicate TokenMoves(s: System, step: Step, tokenId: string)
    requires tokenId in Apply(s, step).db.tokens
  {
    var t := Apply(s, step).db.tokens[tokenId];
    if tokenId in s.db.tokens then
      var was := s.db.tokens[tokenId];
      && t.userId == was.userId && t.expiresAt == was.expiresAt
      && (t == was
          || (&& (step.CommitConfirm? || step.CommitAccept?) && step.request in s.pending
              && s.pending[step.request].tokenId == tokenId && was.consumedAt.None?
              && t.consumedAt == Some(s.pending[step.request].now)))
    else step.IssueToken? && step.tokenId == tokenId && tokenId !in s.issued && t.consumedAt.None?
  }

  lemma ConfirmMovesTokens(db: Database, tokenId: string, userId: string, now: int, password: string, t: string)
    requires t in ConfirmTx(db, tokenId, userId, now, password).0.tokens
    ensures t in db.tokens
    ensures var after := ConfirmTx(db, tokenId, userId, now, password).0.tokens[t];
      after == db.tokens[t] || (t == tokenId && Consumable(db, t) && after == db.tokens[t].(consumedAt := Some(now)))
  {
  }

  lemma AcceptMovesTokens(db: Database, tokenId: string, userId: string, now: int, password: string, t: string)
    requires t in AcceptTx(db, tokenId, userId, now, password).0.tokens
    ensures t in db.tokens
    ensures var after := AcceptTx(db, tokenId, userId, now, password).0.tokens[t];
      after == db.tokens[t] || (t == tokenId && Consumable(db, t) && after == db.tokens[t].(consumedAt := Some(now)))
  {
  }

  lemma StepMovesToken(s: System, step: Step, tokenId: string)
    requires (forall t :: t in s.db.tokens ==> t in s.issued) && tokenId in Apply(s, step).db.tokens
    ensures TokenMoves(s, step, tokenId)
  {
    if step.CommitConfirm? && step.request in s.pending {
      var p := s.pending[step.request];
      if p.Confirming? {
        ConfirmMovesTokens(s.db, p.tokenId, p.userId, p.now, p.password, tokenId);
      }
    } else if step.CommitAccept? && step.request in s.pending {
      var p := s.pending[step.request];
      if p.Accepting? && p.stage.Checked? {
        AcceptMovesTokens(s.db, p.tokenId, p.userId, p.now, p.password, tokenId);
      }
    } else if step.WriteAccount? && step.edit in s.edits {
      var e := s.edits[step.edit];
      assert Apply(s, step).db == WriteTx(s.db, e.userId, e.read, Filled(e.read, step.change));
    } else if step.SaveProfile? && step.edit in s.edits {
      var e := s.edits[step.edit];
      assert Apply(s, step).db == WriteTx(s.db, e.userId, e.read, e.read);
    }
  }

  /** The request was there before, about the same token, or has just read a usable one. */
  ghost predicate RequestMoves(s: System, step: Step, request: string)
    requires request in Apply(s, step).pending
  {
    var p := Apply(s, step).pending[request];
    if request in s.pending then
      p.tokenId == s.pending[request].tokenId && p.userId == s.pending[request].userId && p.now == s.pending[request].now
    else
      && (step.StartConfirm? || step.StartAccept?) && step.request == request && p.now == step.now
      && Usable(s.db, p.tokenId, p.now) && s.db.tokens[p.tokenId].userId == p.userId
      && (p.Accepting? ==> p.stage.Unchecked?) && Apply(s, step).db == s.db
  }

  lemma StepMovesRequest(s: System, step: Step, request: string)
    requires request in Apply(s, step).pending
    ensures RequestMoves(s, step, request)
  {
  }

  lemma SpentStays(s: System, step: Step, tokenId: string)
    requires Spent(s, tokenId)
    ensures Spent(Apply(s, step), tokenId)
  {
  }

  lemma {:induction false} SpentForever(s: System, steps: seq<Step>, tokenId: string)
    requires Spent(s, tokenId)
    ensures Spent(Run(s, steps), tokenId)
    decreases |steps|
  {
    if |steps| > 0 {
      SpentStays(s, steps[0], tokenId);
      SpentForever(Apply(s, steps[0]), steps[1..], tokenId);
    }
  }

  /** The commit a step performs, if it performs one. */
  function Committed(s: System, step: Step): Option<Commit> {
    var after := Apply(s, step);
    if |after.commits| > |s.commits| then Some(after.commits[|s.commits|]) else None
  }

  /** A commit spends its token; without one, no commit. */
  lemma CommitSpends(s: System, step: Step)
    requires Inv(s)
    ensures Committed(s, step).None? ==> Apply(s, step).commits == s.commits
    ensures Committed(s, step).Some? ==>
      var c := Committed(s, step).value;
      && Apply(s, step).commits == s.commits + [c]
      && Consumable(s.db, c.tokenId) && s.db.tokens[c.tokenId].userId == c.userId
      && c.expiresAt == s.db.tokens[c.tokenId].expiresAt
      && Spent(Apply(s, step), c.tokenId)
  {
  }

  lemma StepKeepsIssued(s: System, step: Step)
    requires Inv(s)
    ensures forall t :: t in Apply(s, step).db.tokens ==> t in Apply(s, step).issued
  {
    forall t | t in Apply(s, step).db.tokens
      ensures t in Apply(s, step).issued
    {
      StepMovesToken(s, step, t);
      IssuedGrows(s, step, t);
    }
  }

  lemma IssuedGrows(s: System, step: Step, tokenId: string)
    ensures tokenId in Apply(s, step).issued <==> tokenId in s.issued || (step.IssueToken? && step.tokenId == tokenId)
  {
  }

  lemma StepKeepsOwner(s: System, step: Step, request: string)
    requires Inv(s) && request in Apply(s, step).pending
    ensures KnowsOwner(Apply(s, step), request)
  {
    var p := Apply(s, step).pending[request];
    StepMovesRequest(s, step, request);
    if request in s.pending {
      assert KnowsOwner(s, request);
    }
    IssuedGrows(s, step, p.tokenId);
    if p.tokenId in Apply(s, step).db.tokens {
      StepMovesToken(s, step, p.tokenId);
    }
  }

  lemma StepKeepsAccount(s: System, step: Step, request: string)
    requires Inv(s) && request in Apply(s, step).pending
    ensures FindsAccount(Apply(s, step), request)
  {
    var s' := Apply(s, step);
    var p := s'.pending[request];
    StepMovesRequest(s, step, request);
    if p.Accepting? && !p.stage.Unchecked? && Consumable(s'.db, p.tokenId) {
      assert request in s.pending && KnowsOwner(s, request) && FindsAccount(s, request);
      StepMovesToken(s, step, p.tokenId);
      FoundBefore(s, step, request);
      AccountsStay(s, step, p.userId);
    }
  }

  /** An accept that has found its account had found it before, or finds it in this step. */
  lemma FoundBefore(s: System, step: Step, request: string)
    requires request in s.pending && request in Apply(s, step).pending
    requires Apply(s, step).pending[request].Accepting? && !Apply(s, step).pending[request].stage.Unchecked?
    ensures s.pending[request].Accepting?
    ensures !s.pending[request].stage.Unchecked? || (step == FindInvited(request) && s.pending[request].userId in s.db.users)
  {
  }

  /** Accounts are only ever deleted, and then without their tokens. */
  lemma AccountsStay(s: System, step: Step, userId: string)
    requires userId in s.db.users
    ensures userId in Apply(s, step).db.users || step == DeleteAccount(userId)
  {
  }

  lemma StepKeepsInv(s: System, step: Step)
    requires Inv(s)
    ensures Inv(Apply(s, step))
  {
    StepKeepsIssued(s, step);
    CommitSpends(s, step);
    var s' := Apply(s, step);
    forall r | r in s'.pending
      ensures KnowsOwner(s', r) && FindsAccount(s', r)
    {
      StepKeepsAccount(s, step, r);
      StepKeepsOwner(s, step, r);
    }
    forall i | 0 <= i < |s'.commits|
      ensures Spent(s', s'.commits[i].tokenId)
      ensures i < |s.commits| ==> !Consumable(s.db, s'.commits[i].tokenId)
    {
      if i < |s.commits| {
        assert Spent(s, s.commits[i].tokenId);
        SpentStays(s, step, s.commits[i].tokenId);
      }
    }
  }

  /** Main result: over any interleaving, each token is behind at most one successful commit,
      whether of a reset or of an accept. */
  lemma {:induction false} AtMostOneCommitPerToken(s: System, steps: seq<Step>)
    requires Inv(s)
    ensures Inv(Run(s, steps))
    ensures var commits := Run(s, steps).commits;
      forall i, j :: 0 <= i < j < |commits| ==> commits[i].tokenId != commits[j].tokenId
    decreases |steps|
  {
    if |steps| > 0 {
      StepKeepsInv(s, steps[0]);
      AtMostOneCommitPerToken(Apply(s, steps[0]), steps[1..]);
    }
  }

  /** No token carries a consumption time at or after its expiry, or is about to. */
  ghost predicate InTime(s: System) {
    (forall t :: t in s.db.tokens ==> SpentInTime(s.db.tokens[t])) && (forall r :: r in s.pending ==> ReadInTime(s, r))
  }

  predicate SpentInTime(t: Token) { t.consumedAt.Some? ==> t.consumedAt.value < t.expiresAt }

  predicate ReadInTime(s: System, request: string)
    requires request in s.pending
  {
    var p := s.pending[request];
    p.tokenId in s.db.tokens ==> p.now < s.db.tokens[p.tokenId].expiresAt
  }

  lemma TokenStaysInTime(s: System, step: Step, tokenId: string)
    requires Inv(s) && InTime(s) && tokenId in Apply(s, step).db.tokens
    ensures SpentInTime(Apply(s, step).db.tokens[tokenId])
  {
    StepMovesToken(s, step, tokenId);
    if (step.CommitConfirm? || step.CommitAccept?) && step.request in s.pending {
      assert ReadInTime(s, step.request);
    }
  }

  lemma RequestStaysInTime(s: System, step: Step, request: string)
    requires Inv(s) && InTime(s) && request in Apply(s, step).pending
    ensures ReadInTime(Apply(s, step), request)
  {
    var p := Apply(s, step).pending[request];
    StepMovesRequest(s, step, request);
    if request in s.pending {
      assert ReadInTime(s, request) && KnowsOwner(s, request);
    }
    if p.tokenId in Apply(s, step).db.tokens {
      StepMovesToken(s, step, p.tokenId);
    }
  }

  lemma StepKeepsInTime(s: System, step: Step)
    requires Inv(s) && InTime(s)
    ensures InTime(Apply(s, step))
  {
    var s' := Apply(s, step);
    forall t | t in s'.db.tokens
      ensures SpentInTime(s'.db.tokens[t])
    {
      TokenStaysInTime(s, step, t);
    }
    forall r | r in s'.pending
      ensures ReadInTime(s', r)
    {
      RequestStaysInTime(s, step, r);
    }
  }

  /** Over any interleaving the time recorded with a consumed token is before its expiry: it is the
      time the request read the token, not the time it commits. */
  lemma {:induction false} StampedBeforeExpiry(s: System, steps: seq<Step>)
    requires Inv(s) && InTime(s)
    ensures InTime(Run(s, steps))
    ensures forall t :: t in Run(s, steps).db.tokens && Run(s, steps).db.tokens[t].consumedAt.Some? ==>
      Run(s, steps).db.tokens[t].consumedAt.value < Run(s, steps).db.tokens[t].expiresAt
    decreases |steps|
  {
    if |steps| > 0 {
      StepKeepsInv(s, steps[0]);
      StepKeepsInTime(s, steps[0]);
      StampedBeforeExpiry(Apply(s, steps[0]), steps[1..]);
    }
  }

  // ----- When a commit happens -----

  /** The time a step tells, if it tells one. */
  function Clock(step: Step): Option<int> {
    match step
    case StartConfirm(_, _, now, _) => Some(now)
    case StartAccept(_, _, now, _) => Some(now)
    case CommitConfirm(_, at) => Some(at)
    case CommitAccept(_, at) => Some(at)
    case _ => None
  }

  /** The clock never runs backwards, starting from `t`. */
  predicate Ordered(t: int, steps: seq<Step>)
    decreases |steps|
  {
    |steps| == 0
    || (var c := Clock(steps[0]);
        (c.Some? ==> t <= c.value) && Ordered(if c.Some? then c.value else t, steps[1..]))
  }

  /** Requests read their tokens in the past, and commits were stamped before they happened and
      before the expiry. */
  ghost predicate Punctual(s: System, t: int) {
    && (forall r :: r in s.pending ==> s.pending[r].now <= t)
    && (forall c :: c in s.commits ==> c.stamp <= c.at && c.stamp < c.expiresAt)
  }

  lemma StepKeepsPunctual(s: System, t: int, step: Step)
    requires Inv(s) && InTime(s) && Punctual(s, t) && (Clock(step).Some? ==> t <= Clock(step).value)
    ensures Punctual(Apply(s, step), if Clock(step).Some? then Clock(step).value else t)
  {
    forall r | r in Apply(s, step).pending
      ensures Apply(s, step).pending[r].now <= if Clock(step).Some? then Clock(step).value else t
    {
      StepMovesRequest(s, step, r);
    }
    CommitSpends(s, step);
    if Committed(s, step).Some? {
      CommitTimes(s, step);
      assert ReadInTime(s, step.request);
    }
  }

  /** The times of a commit are those of its request and of its step. */
  lemma CommitTimes(s: System, step: Step)
    requires Inv(s) && Committed(s, step).Some?
    ensures (step.CommitConfirm? || step.CommitAccept?) && step.request in s.pending
    ensures var c := Committed(s, step).value; var p := s.pending[step.request];
      c == Commit(p.tokenId, p.userId, s.db.tokens[p.tokenId].expiresAt, p.now, step.at)
  {
    CommitSpends(s, step);
  }

  /** Every commit of a run is stamped before its token's expiry and before it happens. */
  lemma {:induction false} CommitsAreStamped(s: System, t: int, steps: seq<Step>, end: int)
    requires Inv(s) && InTime(s) && Punctual(s, t) && Ordered(t, steps) && t <= end
    requires forall x :: x in steps && Clock(x).Some? ==> Clock(x).value <= end
    ensures Punctual(Run(s, steps), end)
    ensures forall c :: c in Run(s, steps).commits ==> c.stamp <= c.at && c.stamp < c.expiresAt
    decreases |steps|
  {
    if |steps| > 0 {
      var x := steps[0];
      assert x in steps;
      StepKeepsInv(s, x);
      StepKeepsInTime(s, x);
      StepKeepsPunctual(s, t, x);
      CommitsAreStamped(Apply(s, x), if Clock(x).Some? then Clock(x).value else t, steps[1..], end);
    }
  }

  /** The transactions do not look at the clock: a request that commits now commits the same
      change at any other time. */
  lemma CommitIgnoresClock(s: System, request: string, at: int, later: int)
    ensures Committed(s, CommitConfirm(request, at)).Some? <==> Committed(s, CommitConfirm(request, later)).Some?
    ensures Committed(s, CommitAccept(request, at)).Some? <==> Committed(s, CommitAccept(request, later)).Some?
    ensures Apply(s, CommitConfirm(request, at)).db == Apply(s, CommitConfirm(request, later)).db
    ensures Apply(s, CommitAccept(request, at)).db == Apply(s, CommitAccept(request, later)).db
  {
  }

  /** The token is still unexpired when the step commits, if it commits. */
  predicate Prompt(s: System, step: Step) {
    Committed(s, step).Some? && (step.CommitConfirm? || step.CommitAccept?) && step.request in s.pending
      && s.pending[step.request].tokenId in s.db.tokens
    ==> step.at < s.db.tokens[s.pending[step.request].tokenId].expiresAt
  }

  predicate RunPrompt(s: System, steps: seq<Step>)
    decreases |steps|
  {
    |steps| == 0 || (Prompt(s, steps[0]) && RunPrompt(Apply(s, steps[0]), steps[1..]))
  }

  predicate CommittedInTime(s: System) {
    forall i :: 0 <= i < |s.commits| ==> s.commits[i].at < s.commits[i].expiresAt
  }

  /** Main result: every commit of a run happens before the expiry of its token if and only if
      each committing step comes before it; nothing else keeps a late request from committing. */
  lemma {:induction false} InTimeExactlyWhen(s: System, steps: seq<Step>)
    requires Inv(s) && CommittedInTime(s)
    ensures CommittedInTime(Run(s, steps)) <==> RunPrompt(s, steps)
    decreases |steps|
  {
    if |steps| > 0 {
      var x, s' := steps[0], Apply(s, steps[0]);
      StepKeepsInv(s, x);
      CommitSpends(s, x);
      if Committed(s, x).Some? {
        CommitTimes(s, x);
      }
      if Prompt(s, x) {
        InTimeExactlyWhen(s', steps[1..]);
      } else {
        assert s'.commits[|s.commits|].at >= s'.commits[|s.commits|].expiresAt;
        CommitsStay(s', steps[1..]);
      }
    }
  }

  lemma {:induction false} CommitsStay(s: System, steps: seq<Step>)
    requires Inv(s)
    ensures s.commits <= Run(s, steps).commits
    decreases |steps|
  {
    if |steps| > 0 {
      StepKeepsInv(s, steps[0]);
      CommitSpends(s, steps[0]);
      CommitsStay(Apply(s, steps[0]), steps[1..]);
    }
  }

  /** The concrete run: at a time when a new request is already refused as expired, an earlier one
      still commits. */
  lemma LateCommit(s: System, r: string, q: string, tokenId: string, now: int, late: int, password: string)
    requires Consumable(s.db, tokenId) && now < s.db.tokens[tokenId].expiresAt <= late
    requires r !in s.pending && q !in s.pending && r != q
    ensures var read := Apply(s, StartConfirm(r, tokenId, now, password));
      var refused := Apply(read, StartConfirm(q, tokenId, late, password));
      var token := s.db.tokens[tokenId];
      && refused == read && q !in refused.pending
      && Apply(refused, CommitConfirm(r, late)).commits == s.commits + [Commit(tokenId, token.userId, token.expiresAt, now, late)]
  {
  }

  // ----- What a commit leaves behind -----

  /** A commit for a user spends every token of that user that was read or stored before it. */
  lemma CommitShutsOutOthers(s: System, step: Step, tokenId: string)
    requires Inv(s) && Committed(s, step).Some? && tokenId in s.issued
    requires tokenId in s.db.tokens ==> s.db.tokens[tokenId].userId == Committed(s, step).value.userId
    ensures Spent(Apply(s, step), tokenId)
  {
    CommitSpends(s, step);
  }

  /** Main result: once a commit for a user has happened, no request that read a token of that
      user before it can commit afterwards, however the run goes on. */
  lemma EarlierReadersCannotCommit(s: System, step: Step, steps: seq<Step>, request: string, last: Step)
    requires Inv(s) && Committed(s, step).Some?
    requires request in s.pending && s.pending[request].userId == Committed(s, step).value.userId
    ensures var tokenId := s.pending[request].tokenId; var end := Run(Apply(s, step), steps);
      Committed(end, last).Some? ==> Committed(end, last).value.tokenId != tokenId
  {
    var tokenId := s.pending[request].tokenId;
    CommitShutsOutOthers(s, step, tokenId);
    SpentForever(Apply(s, step), steps, tokenId);
    StepKeepsInv(s, step);
    AtMostOneCommitPerToken(Apply(s, step), steps);
    CommitSpends(Run(Apply(s, step), steps), last);
  }

  /** A reset succeeds if and only if its token is stored and unconsumed, and otherwise changes
      nothing.  Then the token is consumed, it is the only token left for the user, no session of the
      user survives, others keep theirs, the password is the new one and one record is logged. */
  lemma ConfirmLeavesNothingBehind(db: Database, tokenId: string, userId: string, now: int, password: string)
    ensures var (after, ok) := ConfirmTx(db, tokenId, userId, now, password);
      && (ok <==> tokenId in db.tokens && db.tokens[tokenId].consumedAt == None)
      && (!ok ==> after == db)
      && (ok ==>
        && (forall t :: t in after.tokens <==> t in db.tokens && (t == tokenId || db.tokens[t].userId != userId))
        && (forall t :: t in after.tokens ==>
              after.tokens[t] == if t == tokenId then db.tokens[t].(consumedAt := Some(now)) else db.tokens[t])
        && (forall x :: x in after.sessions <==> x in db.sessions && db.sessions[x] != userId)
        && (forall x :: x in after.sessions ==> after.sessions[x] == db.sessions[x])
        && after.credentials.Keys == db.credentials.Keys
        && (forall u :: u in db.credentials ==>
              after.credentials[u] == if u == userId then db.credentials[u].(password := password) else db.credentials[u])
        && after.users == db.users && after.audit == db.audit + [PasswordReset(userId, tokenId)])
  {
  }

  /** An accept ends in one of four ways, by the token, the account and the other credentials. */
  lemma AcceptExactlyWhen(db: Database, tokenId: string, userId: string, now: int, password: string)
    ensures var (after, r) := AcceptTx(db, tokenId, userId, now, password);
      var unspent := tokenId in db.tokens && db.tokens[tokenId].consumedAt == None;
      var waiting := userId in db.users && !db.users[userId].active;
      && (r == TokenUsed <==> !unspent)
      && (r == NotPending <==> unspent && !waiting)
      && (r == UserEmailTaken <==>
            unspent && waiting && exists u :: u in db.credentials && u != userId && db.credentials[u].email == db.users[userId].email)
      && (r == TokenUsed || r == UserEmailTaken ==> after == db)
      && (r == NotPending ==> after == db.(tokens := db.tokens[tokenId := db.tokens[tokenId].(consumedAt := Some(now))]))
  {
  }

  /** A successful accept consumes the token and drops the user's others, makes the credential, and
      changes the status of the account and nothing else of the user's row. */
  lemma AcceptKeepsFreshColumns(db: Database, tokenId: string, userId: string, now: int, password: string)
    requires AcceptTx(db, tokenId, userId, now, password).1.Accepted?
    ensures var after := AcceptTx(db, tokenId, userId, now, password).0;
      && userId in db.users && !db.users[userId].active && after.users == db.users[userId := db.users[userId].(active := true)]
      && after.credentials == db.credentials[userId := Credential(db.users[userId].email, password)]
      && (forall t :: t in after.tokens <==> t in db.tokens && (t == tokenId || db.tokens[t].userId != userId))
      && (forall t :: t in after.tokens ==>
            after.tokens[t] == if t == tokenId then db.tokens[t].(consumedAt := Some(now)) else db.tokens[t])
      && after.sessions == db.sessions && after.audit == db.audit + [InvitationAccepted(userId, tokenId)]
  {
  }

  /** What requests read before their transactions: a token that is stored, unconsumed and not
      expired; an account that waits; and no credential with its email. */
  lemma ReadsExactlyWhen(s: System, r: string, tokenId: string, now: int, password: string)
    ensures r !in s.pending ==>
      var usable := tokenId in s.db.tokens && s.db.tokens[tokenId].consumedAt == None && now < s.db.tokens[tokenId].expiresAt;
      && (usable <==> r in Apply(s, StartConfirm(r, tokenId, now, password)).pending)
      && (usable <==> r in Apply(s, StartAccept(r, tokenId, now, password)).pending)
      && (usable ==> Apply(s, StartConfirm(r, tokenId, now, password)).pending[r]
                       == Confirming(tokenId, s.db.tokens[tokenId].userId, now, password))
      && (usable ==> Apply(s, StartAccept(r, tokenId, now, password)).pending[r]
                       == Accepting(tokenId, s.db.tokens[tokenId].userId, now, password, Unchecked))
    ensures r in s.pending && s.pending[r].Accepting? && s.pending[r].stage == Unchecked ==>
      var (after, u) := (Apply(s, FindInvited(r)), s.pending[r].userId);
      && after.db == s.db && (r in after.pending <==> u in s.db.users && !s.db.users[u].active)
      && (r in after.pending ==> after.pending[r] == s.pending[r].(stage := Found(s.db.users[u].email)))
    ensures r in s.pending && s.pending[r].Accepting? && s.pending[r].stage.Found? ==>
      var (after, email) := (Apply(s, CheckCredential(r)), s.pending[r].stage.email);
      && after.db == s.db && (r in after.pending <==> forall u :: u in s.db.credentials ==> s.db.credentials[u].email != email)
      && (r in after.pending ==> after.pending[r] == s.pending[r].(stage := Checked))
  {
  }

  /** A request commits in its turn only, by its own transaction with what it has read, and is then
      over; out of turn a step changes nothing. */
  lemma CommitsInTurn(s: System, r: string, at: int)
    ensures var after := Apply(s, CommitConfirm(r, at));
      if r in s.pending && s.pending[r].Confirming? then
        var p := s.pending[r];
        && after.db == ConfirmTx(s.db, p.tokenId, p.userId, p.now, p.password).0 && after.edits == s.edits
        && (forall q :: q in after.pending <==> q in s.pending && q != r) && (forall q :: q in after.pending ==> after.pending[q] == s.pending[q])
      else after == s
    ensures var after := Apply(s, CommitAccept(r, at));
      if r in s.pending && s.pending[r].Accepting? && s.pending[r].stage == Checked then
        var p := s.pending[r];
        && after.db == AcceptTx(s.db, p.tokenId, p.userId, p.now, p.password).0 && after.edits == s.edits
        && (forall q :: q in after.pending <==> q in s.pending && q != r) && (forall q :: q in after.pending ==> after.pending[q] == s.pending[q])
      else after == s
    ensures !(r in s.pending && s.pending[r].Accepting? && s.pending[r].stage == Unchecked) ==> Apply(s, FindInvited(r)) == s
    ensures !(r in s.pending && s.pending[r].Accepting? && s.pending[r].stage.Found?) ==> Apply(s, CheckCredential(r)) == s
  {
  }

  /** A token is issued once under its id, unconsumed; a revocation drops the tokens of one user. */
  lemma TokensComeAndGo(s: System, tokenId: string, userId: string, expiresAt: int)
    ensures var after := Apply(s, IssueToken(tokenId, userId, expiresAt));
      if tokenId in s.issued then after == s
      else after.db == s.db.(tokens := s.db.tokens[tokenId := Token(userId, expiresAt, None)]) && after.issued == s.issued + {tokenId}
    ensures var after := Apply(s, RevokeTokens(userId));
      && (forall t :: t in after.db.tokens <==> t in s.db.tokens && s.db.tokens[t].userId != userId)
      && (forall t :: t in after.db.tokens ==> after.db.tokens[t] == s.db.tokens[t])
  {
  }

  /** An administrator's write is refused if and only if the account is gone or an index is violated:
      another account of the tenant has the email, or the email moves and another credential has it. */
  lemma WriteExactlyWhen(db: Database, userId: string, read: User, row: User)
    ensures var after := WriteTx(db, userId, read, row); var moves := userId in db.credentials && row.email != read.email;
      var refused :=
        || userId !in db.users
        || (exists u :: u in db.users && u != userId && db.users[u].tenantId == row.tenantId && db.users[u].email == row.email)
        || (moves && exists u :: u in db.credentials && u != userId && db.credentials[u].email == row.email);
      if refused then after == db
      else
        && after.users == db.users[userId := row] && after.sessions == db.sessions && after.audit == db.audit
        && after.credentials == (if moves then db.credentials[userId := db.credentials[userId].(email := row.email)] else db.credentials)
        && (forall t :: t in after.tokens <==> t in db.tokens && !(read.active && !row.active && db.tokens[t].userId == userId))
        && (forall t :: t in after.tokens ==> after.tokens[t] == db.tokens[t])
  {
  }

  /** A deleted account leaves no row, credential, token or session behind, and no other one is touched. */
  lemma DeleteExactly(db: Database, userId: string)
    ensures var after := DeleteTx(db, userId);
      && (forall u :: u in after.users <==> u in db.users && u != userId)
      && (forall u :: u in after.credentials <==> u in db.credentials && u != userId)
      && (forall t :: t in after.tokens <==> t in db.tokens && db.tokens[t].userId != userId)
      && (forall x :: x in after.sessions <==> x in db.sessions && db.sessions[x] != userId)
      && (forall u :: u in after.users ==> after.users[u] == db.users[u])
      && (forall u :: u in after.credentials ==> after.credentials[u] == db.credentials[u])
      && (forall t :: t in after.tokens ==> after.tokens[t] == db.tokens[t])
      && (forall x :: x in after.sessions ==> after.sessions[x] == db.sessions[x])
      && after.audit == db.audit
  {
  }

  /** An account is made if and only if its id is free, no account of the tenant has its email, and no
      credential has it if one is to be made. */
  lemma CreateExactlyWhen(db: Database, userId: string, user: User, initial: Option<string>)
    ensures var after := CreateTx(db, userId, user, initial);
      var taken :=
        || userId in db.users
        || (exists u :: u in db.users && u != userId && db.users[u].tenantId == user.tenantId && db.users[u].email == user.email)
        || (initial.Some? && exists u :: u in db.credentials && u != userId && db.credentials[u].email == user.email);
      if taken then after == db
      else after == db.(users := db.users[userId := user],
                        credentials := if initial == None then db.credentials
                                       else db.credentials[userId := Credential(user.email, initial.value)])
  {
  }

  /** An accept can fail and still cost the invitation its token: exactly when the account is
      no longer waiting. */
  lemma FailedAcceptSpendsToken(db: Database, tokenId: string, userId: string, now: int, password: string)
    requires Consumable(db, tokenId) && !AcceptTx(db, tokenId, userId, now, password).1.Accepted?
    ensures !Consumable(AcceptTx(db, tokenId, userId, now, password).0, tokenId)
            <==> (userId !in db.users || db.users[userId].active)
  {
  }
}
