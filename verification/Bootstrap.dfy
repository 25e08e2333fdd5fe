/** The platform-owner bootstrap as a concurrent protocol: any number of runs, one statement at a
    time, over one shared database, with connections lost and users signing up at any point. */
module Bootstrap {
  import opened Options

  type UserId = nat
  type RunId = nat

  /** What one run was started with: its normalised email, its flag, and the password it would
      generate together with that password's hash. */
  datatype Config = Config(email: string, promote: bool, password: string, hash: string)

  datatype User = User(email: string, passwordHash: string)

  /** The metadata of a `platform.owner_bootstrapped` event. */
  datatype Audit = Audit(user: UserId, email: string, promotedExisting: bool)

  /** `roles` has the user as its key: `platform_role_memberships` holds one role per user. */
  datatype Tables = Tables(users: map<UserId, User>, roles: map<UserId, string>, audit: seq<Audit>)

  const OWNER := "platform_owner"
  const NO_WRITES := Tables(map[], map[], [])

  datatype Refusal = OwnerExists | IdentityExists | RoleHeld | EmailTaken

  /** How far a run has come; every phase from `Locked` to `Throwing` is inside the transaction. */
  datatype Phase =
    | Idle
    | Begun
    | Locked
    | NoOwner
    | NewIdentity
    | HasUser(user: UserId, created: bool)
    | HasRole(user: UserId, created: bool)
    | HasAudit(user: UserId, created: bool)
    | Throwing(why: Refusal)
    | Committed(user: UserId, created: bool)
    | Printed(user: UserId, created: bool)
    | Refused(why: Refusal)
    | Failed(committed: Option<(UserId, bool)>)

  /** `writes` are the run's own uncommitted rows. */
  datatype Run = Run(phase: Phase, writes: Tables, printed: Option<string>)

  /** `signups` records the users other programs have added. */
  datatype State = State(tables: Tables, lock: Option<RunId>, runs: seq<Run>, signups: map<UserId, User>)

  /** `Abort` loses the connection; `LoseCommit` loses it after the server has committed. */
  datatype Action =
    | Begin(run: RunId)
    | TakeLock(run: RunId)
    | CountOwners(run: RunId)
    | LookUp(run: RunId)
    | InsertUser(run: RunId, id: UserId)
    | InsertRole(run: RunId)
    | InsertAudit(run: RunId)
    | Commit(run: RunId)
    | LoseCommit(run: RunId)
    | Print(run: RunId)
    | Rollback(run: RunId)
    | Abort(run: RunId)
    | SignUp(id: UserId, user: User)

  // ---- the steps -------------------------------------------------------------------------------

  ghost predicate HasEmail(users: map<UserId, User>, email: string) {
    exists u :: u in users && users[u].email == email
  }

  ghost predicate HasOwner(roles: map<UserId, string>) {
    exists u :: u in roles && roles[u] == OWNER
  }

  ghost function UserOf(users: map<UserId, User>, email: string): UserId
    requires HasEmail(users, email)
  {
    var u :| u in users && users[u].email == email;
    u
  }

  function Merged(a: Tables, b: Tables): Tables {
    Tables(a.users + b.users, a.roles + b.roles, a.audit + b.audit)
  }

  /** A row another transaction has written but not committed. */
  ghost predicate PendingUser(s: State, id: UserId, email: string) {
    exists r :: 0 <= r < |s.runs| && (id in s.runs[r].writes.users || HasEmail(s.runs[r].writes.users, email))
  }

  function To(s: State, r: RunId, phase: Phase): State
    requires r < |s.runs|
  {
    s.(runs := s.runs[r := s.runs[r].(phase := phase)])
  }

  function Write(s: State, r: RunId, phase: Phase, rows: Tables): State
    requires r < |s.runs|
  {
    s.(runs := s.runs[r := s.runs[r].(phase := phase, writes := Merged(s.runs[r].writes, rows))])
  }

  /** The end of a transaction: the lock is released, and the writes are kept or discarded. */
  function EndTransaction(s: State, r: RunId, phase: Phase, commit: bool): State
    requires r < |s.runs|
  {
    State(if commit then Merged(s.tables, s.runs[r].writes) else s.tables,
          if s.lock == Some(r) then None else s.lock,
          s.runs[r := s.runs[r].(phase := phase, writes := NO_WRITES)],
          s.signups)
  }

  /** A statement's step; each statement reads what is committed when it starts and the run's own
      writes. `None` where the step cannot happen. */
  ghost function Apply(configs: seq<Config>, s: State, a: Action): Option<State> {
    if a.SignUp? then
      if a.id in s.tables.users || HasEmail(s.tables.users, a.user.email) || PendingUser(s, a.id, a.user.email) then None
      else Some(s.(tables := s.tables.(users := s.tables.users[a.id := a.user]), signups := s.signups[a.id := a.user]))
    else if a.run >= |s.runs| || a.run >= |configs| then None
    else ApplyRun(configs[a.run], s, a.run, a)
  }

  ghost function ApplyRun(c: Config, s: State, r: RunId, a: Action): Option<State>
    requires !a.SignUp? && r < |s.runs|
  {
    var run := s.runs[r];
    var seen := Merged(s.tables, run.writes);
    match a
    case Begin(_) => if run.phase.Idle? then Some(To(s, r, Begun)) else None
    case TakeLock(_) =>
      if run.phase.Begun? && s.lock.None? then Some(To(s, r, Locked).(lock := Some(r))) else None
    case CountOwners(_) =>
      if !run.phase.Locked? then None
      else Some(To(s, r, if HasOwner(seen.roles) then Throwing(OwnerExists) else NoOwner))
    case LookUp(_) =>
      if !run.phase.NoOwner? then None
      else if !HasEmail(seen.users, c.email) then Some(To(s, r, NewIdentity))
      else if !c.promote then Some(To(s, r, Throwing(IdentityExists)))
      else Some(To(s, r, HasUser(UserOf(seen.users, c.email), false)))
    case InsertUser(_, id) =>
      if !run.phase.NewIdentity? || id in s.tables.users || PendingUser(s, id, c.email) then None
      else if HasEmail(s.tables.users, c.email) then Some(To(s, r, Throwing(EmailTaken)))
      else Some(Write(s, r, HasUser(id, true), Tables(map[id := User(c.email, c.hash)], map[], [])))
    case InsertRole(_) =>
      if !run.phase.HasUser? then None
      else if run.phase.user in seen.roles then Some(To(s, r, Throwing(RoleHeld)))
      else Some(Write(s, r, HasRole(run.phase.user, run.phase.created), Tables(map[], map[run.phase.user := OWNER], [])))
    case InsertAudit(_) =>
      if !run.phase.HasRole? then None
      else Some(Write(s, r, HasAudit(run.phase.user, run.phase.created),
                      Tables(map[], map[], [Audit(run.phase.user, c.email, !run.phase.created)])))
    case Commit(_) =>
      if !run.phase.HasAudit? then None
      else Some(EndTransaction(s, r, Committed(run.phase.user, run.phase.created), true))
    case LoseCommit(_) =>
      if !run.phase.HasAudit? then None
      else Some(EndTransaction(s, r, Failed(Some((run.phase.user, run.phase.created))), true))
    case Print(_) =>
      if !run.phase.Committed? then None
      else
        var printed := To(s, r, Printed(run.phase.user, run.phase.created));
        Some(printed.(runs := printed.runs[r := printed.runs[r].(printed := if run.phase.created then Some(c.password) else None)]))
    case Rollback(_) =>
      if !run.phase.Throwing? then None else Some(EndTransaction(s, r, Refused(run.phase.why), false))
    case Abort(_) =>
      if Ended(run.phase) then None
      else if run.phase.Committed? then Some(To(s, r, Failed(Some((run.phase.user, run.phase.created)))))
      else Some(EndTransaction(s, r, Failed(None), false))
  }

  predicate Ended(phase: Phase) { phase.Printed? || phase.Refused? || phase.Failed? }

  ghost function Initial(tables: Tables, runs: nat): State {
    State(tables, None, seq(runs, _ => Run(Idle, NO_WRITES, None)), map[])
  }

  /** One interleaving: the actions of all runs and of everybody else, in the order they happen. */
  ghost function Execute(configs: seq<Config>, s: State, actions: seq<Action>): Option<State> {
    if actions == [] then Some(s)
    else
      var before := Execute(configs, s, actions[..|actions| - 1]);
      if before.None? then None else Apply(configs, before.value, actions[|actions| - 1])
  }

  // ---- what every interleaving keeps ------------------------------------------------------------

  predicate Critical(phase: Phase) {
    phase.Locked? || phase.NoOwner? || phase.NewIdentity? || phase.HasUser? || phase.HasRole? || phase.HasAudit? || phase.Throwing?
  }

  /** The user a run has committed as the owner, and whether it created that user. */
  function Outcome(phase: Phase): Option<(UserId, bool)> {
    match phase
    case Committed(u, created) => Some((u, created))
    case Printed(u, created) => Some((u, created))
    case Failed(committed) => committed
    case _ => None
  }

  /** The rows a run has written by a given phase. */
  function WritesBy(c: Config, phase: Phase): Tables {
    match phase
    case HasUser(u, created) => UserRow(c, u, created)
    case HasRole(u, created) => Merged(UserRow(c, u, created), Tables(map[], map[u := OWNER], []))
    case HasAudit(u, created) => AllRows(c, u, created)
    case _ => NO_WRITES
  }

  function UserRow(c: Config, u: UserId, created: bool): Tables {
    if created then Tables(map[u := User(c.email, c.hash)], map[], []) else NO_WRITES
  }

  function AllRows(c: Config, u: UserId, created: bool): Tables {
    Tables(UserRow(c, u, created).users, map[u := OWNER], [Audit(u, c.email, !created)])
  }

  ghost predicate UniqueEmails(users: map<UserId, User>) {
    forall u, v :: u in users && v in users && users[u].email == users[v].email ==> u == v
  }

  /** The schema's UNIQUE on the email and the foreign key of the role membership. */
  ghost predicate WellFormed(tables: Tables) {
    UniqueEmails(tables.users) && tables.roles.Keys <= tables.users.Keys
  }

  /** The users the bootstrap did not create. */
  function Others(initial: Tables, s: State): map<UserId, User> { initial.users + s.signups }

  ghost predicate LockInv(s: State) {
    && (s.lock.Some? ==> s.lock.value < |s.runs|)
    && forall r | 0 <= r < |s.runs| :: Critical(s.runs[r].phase) <==> s.lock == Some(r)
  }

  /** What the lock holder has established about the committed rows stays true under the lock. */
  ghost predicate HolderInv(c: Config, s: State, phase: Phase) {
    && (phase.NoOwner? || phase.NewIdentity? || phase.HasUser? || phase.HasRole? || phase.HasAudit? ==> !HasOwner(s.tables.roles))
    && (phase.HasUser? || phase.HasRole? || phase.HasAudit? ==>
          if phase.created then phase.user !in s.tables.users && !HasEmail(s.tables.users, c.email)
          else c.promote && phase.user in s.tables.users && s.tables.users[phase.user].email == c.email)
    && (phase.NewIdentity? && HasEmail(s.tables.users, c.email) ==> HasEmail(s.signups, c.email))
    && (phase.HasRole? || phase.HasAudit? ==> phase.user !in s.tables.roles)
  }

  /** Why a refused run was refused, in terms of rows that are never removed. */
  ghost predicate RefusalInv(c: Config, initial: Tables, s: State, phase: Phase) {
    (phase.Throwing? || phase.Refused?) ==>
      match phase.why
      case OwnerExists => HasOwner(s.tables.roles)
      case IdentityExists => !c.promote && HasEmail(s.tables.users, c.email)
      case RoleHeld => exists u :: u in s.tables.users && s.tables.users[u].email == c.email && u in initial.roles
      case EmailTaken => HasEmail(s.signups, c.email)
  }

  ghost predicate PrintInv(c: Config, run: Run) {
    run.printed == if run.phase.Printed? && run.phase.created then Some(c.password) else None
  }

  /** The committed rows are those at the start, the sign-ups, and all rows of the one run that
      committed, or none. */
  ghost predicate TablesInv(configs: seq<Config>, initial: Tables, s: State) {
    && |s.runs| == |configs|
    && initial.users.Keys !! s.signups.Keys
    && WellFormed(s.tables)
    && AtMostOneWinner(s)
    && (NobodyWon(s) ==> s.tables == initial.(users := Others(initial, s)))
    && (forall r | HasWon(s, r) :: Won(configs[r], initial, s, Outcome(s.runs[r].phase).value))
  }

  predicate HasWon(s: State, r: int) { 0 <= r < |s.runs| && Outcome(s.runs[r].phase).Some? }

  ghost predicate AtMostOneWinner(s: State) {
    forall r, q | HasWon(s, r) && HasWon(s, q) :: r == q
  }

  ghost predicate NobodyWon(s: State) {
    forall r :: !HasWon(s, r)
  }

  ghost predicate Won(c: Config, initial: Tables, s: State, outcome: (UserId, bool)) {
    var (u, created) := outcome;
    && s.tables == Merged(initial.(users := Others(initial, s)), AllRows(c, u, created))
    && !HasOwner(initial.roles)
    && u !in initial.roles
    && if created then u !in Others(initial, s) && !HasEmail(Others(initial, s), c.email)
       else c.promote && u in Others(initial, s) && Others(initial, s)[u].email == c.email
  }

  ghost predicate RunInv(c: Config, initial: Tables, s: State, run: Run) {
    && run.writes == WritesBy(c, run.phase)
    && HolderInv(c, s, run.phase)
    && RefusalInv(c, initial, s, run.phase)
    && PrintInv(c, run)
  }

  ghost predicate RunsInv(configs: seq<Config>, initial: Tables, s: State) {
    && |s.runs| == |configs|
    && forall r | 0 <= r < |s.runs| :: RunInv(configs[r], initial, s, s.runs[r])
  }

  ghost predicate Inv(configs: seq<Config>, initial: Tables, s: State) {
    LockInv(s) && RunsInv(configs, initial, s) && TablesInv(configs, initial, s)
  }

  lemma WinnerOwns(c: Config, initial: Tables, s: State, outcome: (UserId, bool))
    requires Won(c, initial, s, outcome)
    ensures HasOwner(s.tables.roles)
  {
    assert s.tables.roles[outcome.0] == OWNER;
  }

  lemma WinnersOwn(configs: seq<Config>, initial: Tables, s: State)
    requires TablesInv(configs, initial, s)
    ensures NobodyWon(s) || HasOwner(s.tables.roles)
  {
    forall r | HasWon(s, r)
      ensures HasOwner(s.tables.roles)
    {
      WinnerOwns(configs[r], initial, s, Outcome(s.runs[r].phase).value);
    }
  }

  /** While no owner is committed nobody has won, so the roles are the initial ones. */
  lemma NoOwnerNoWinner(configs: seq<Config>, initial: Tables, s: State)
    requires TablesInv(configs, initial, s) && !HasOwner(s.tables.roles)
    ensures NobodyWon(s)
    ensures s.tables == initial.(users := Others(initial, s))
  {
    WinnersOwn(configs, initial, s);
  }

  /** The step changes run `r` only, keeps what holds of it, and leaves the committed rows alone. */
  ghost predicate LocalTo(c: Config, initial: Tables, s: State, t: State, r: RunId) {
    && r < |s.runs| == |t.runs| && t.runs == s.runs[r := t.runs[r]]
    && t.tables == s.tables && t.signups == s.signups
    && RunInv(c, initial, t, t.runs[r])
    && Outcome(t.runs[r].phase) == Outcome(s.runs[r].phase)
  }

  ghost predicate Readable(c: Config, initial: Tables, s: State, r: RunId) {
    && r < |s.runs| && RunInv(c, initial, s, s.runs[r])
    && s.tables.roles.Keys <= s.tables.users.Keys
    && (!HasOwner(s.tables.roles) ==> s.tables.roles == initial.roles)
  }

  lemma ReadKeepsRun(c: Config, initial: Tables, s: State, r: RunId, a: Action)
    requires Readable(c, initial, s, r) && (a.Begin? || a.TakeLock? || a.CountOwners? || a.Print?)
    requires ApplyRun(c, s, r, a).Some?
    ensures LocalTo(c, initial, s, ApplyRun(c, s, r, a).value, r)
  {
  }

  lemma LookUpKeepsRun(c: Config, initial: Tables, s: State, r: RunId, a: Action)
    requires Readable(c, initial, s, r) && a.LookUp?
    requires ApplyRun(c, s, r, a).Some?
    ensures LocalTo(c, initial, s, ApplyRun(c, s, r, a).value, r)
  {
    assert Merged(s.tables, NO_WRITES).users == s.tables.users;
  }

  lemma InsertUserKeepsRun(c: Config, initial: Tables, s: State, r: RunId, a: Action)
    requires Readable(c, initial, s, r) && a.InsertUser?
    requires ApplyRun(c, s, r, a).Some?
    ensures LocalTo(c, initial, s, ApplyRun(c, s, r, a).value, r)
  {
  }

  lemma InsertRoleKeepsRun(c: Config, initial: Tables, s: State, r: RunId, a: Action)
    requires Readable(c, initial, s, r) && a.InsertRole?
    requires ApplyRun(c, s, r, a).Some?
    ensures LocalTo(c, initial, s, ApplyRun(c, s, r, a).value, r)
  {
    assert s.runs[r].writes.roles == map[];
  }

  lemma InsertAuditKeepsRun(c: Config, initial: Tables, s: State, r: RunId, a: Action)
    requires Readable(c, initial, s, r) && a.InsertAudit?
    requires ApplyRun(c, s, r, a).Some?
    ensures LocalTo(c, initial, s, ApplyRun(c, s, r, a).value, r)
  {
  }

  lemma DiscardKeepsRun(c: Config, initial: Tables, s: State, r: RunId, a: Action)
    requires Readable(c, initial, s, r) && (a.Rollback? || a.Abort?)
    requires ApplyRun(c, s, r, a).Some?
    ensures LocalTo(c, initial, s, ApplyRun(c, s, r, a).value, r)
  {
  }

  lemma LockMoves(s: State, t: State, r: RunId)
    requires LockInv(s) && r < |s.runs| == |t.runs| && t.runs == s.runs[r := t.runs[r]]
    requires t.lock == s.lock || (s.lock.None? && t.lock == Some(r)) || (s.lock == Some(r) && t.lock.None?)
    requires Critical(t.runs[r].phase) <==> t.lock == Some(r)
    ensures LockInv(t)
  {
    assert forall q | 0 <= q < |t.runs| && q != r :: t.runs[q] == s.runs[q];
  }

  /** The lock has at most one holder, and exactly the runs inside their transaction hold it. */
  lemma RunKeepsLock(c: Config, s: State, r: RunId, a: Action)
    requires LockInv(s) && r < |s.runs| && !a.SignUp? && a.run == r
    requires ApplyRun(c, s, r, a).Some?
    ensures LockInv(ApplyRun(c, s, r, a).value)
  {
    LockMoves(s, ApplyRun(c, s, r, a).value, r);
  }

  lemma LocalStep(configs: seq<Config>, initial: Tables, s: State, t: State, r: RunId)
    requires RunsInv(configs, initial, s) && TablesInv(configs, initial, s)
    requires r < |configs| && LocalTo(configs[r], initial, s, t, r)
    ensures RunsInv(configs, initial, t) && TablesInv(configs, initial, t)
  {
    forall q | 0 <= q < |t.runs|
      ensures RunInv(configs[q], initial, t, t.runs[q])
    {
      assert RunInv(configs[q], initial, s, s.runs[q]);
    }
    assert forall q :: HasWon(t, q) <==> HasWon(s, q);
    forall q | HasWon(t, q)
      ensures Won(configs[q], initial, t, Outcome(t.runs[q].phase).value)
    {
      assert Won(configs[q], initial, s, Outcome(s.runs[q].phase).value);
    }
  }

  lemma CommittedWellFormed(c: Config, tables: Tables, u: UserId, created: bool)
    requires WellFormed(tables)
    requires if created then u !in tables.users && !HasEmail(tables.users, c.email) else u in tables.users
    ensures WellFormed(Merged(tables, AllRows(c, u, created)))
  {
  }

  /** Committed rows only ever grow, so the reason of an earlier refusal stays true. */
  lemma RefusalStands(c: Config, initial: Tables, s: State, t: State, phase: Phase)
    requires RefusalInv(c, initial, s, phase)
    requires forall u | u in s.tables.users :: u in t.tables.users && t.tables.users[u] == s.tables.users[u]
    requires forall u | u in s.tables.roles :: u in t.tables.roles && t.tables.roles[u] == s.tables.roles[u]
    requires forall u | u in s.signups :: u in t.signups && t.signups[u] == s.signups[u]
    ensures RefusalInv(c, initial, t, phase)
  {
  }

  lemma CommitKeepsTables(configs: seq<Config>, initial: Tables, s: State, t: State, r: RunId)
    requires RunsInv(configs, initial, s) && TablesInv(configs, initial, s)
    requires r < |s.runs| && s.runs[r].phase.HasAudit?
    requires var outcome := (s.runs[r].phase.user, s.runs[r].phase.created);
             && |t.runs| == |s.runs| && t.runs == s.runs[r := t.runs[r]] && t.signups == s.signups
             && t.tables == Merged(s.tables, s.runs[r].writes)
             && Outcome(t.runs[r].phase) == Some(outcome)
    ensures TablesInv(configs, initial, t)
  {
    var c, phase := configs[r], s.runs[r].phase;
    assert RunInv(c, initial, s, s.runs[r]);
    NoOwnerNoWinner(configs, initial, s);
    CommittedWellFormed(c, s.tables, phase.user, phase.created);
    assert Won(c, initial, t, (phase.user, phase.created));
    assert HasWon(t, r);
    assert forall q | q != r :: HasWon(t, q) <==> HasWon(s, q);
  }

  lemma CommitKeepsRuns(configs: seq<Config>, initial: Tables, s: State, t: State, r: RunId)
    requires LockInv(s) && RunsInv(configs, initial, s) && WellFormed(s.tables)
    requires r < |s.runs| && s.runs[r].phase.HasAudit?
    requires |t.runs| == |s.runs| && t.runs == s.runs[r := t.runs[r]] && t.signups == s.signups
    requires t.tables == Merged(s.tables, s.runs[r].writes)
    requires t.runs[r].writes == NO_WRITES && t.runs[r].printed == s.runs[r].printed
    requires t.runs[r].phase.Committed? || t.runs[r].phase.Failed?
    ensures RunsInv(configs, initial, t)
  {
    assert RunInv(configs[r], initial, s, s.runs[r]);
    forall q | 0 <= q < |t.runs|
      ensures RunInv(configs[q], initial, t, t.runs[q])
    {
      assert RunInv(configs[q], initial, s, s.runs[q]);
      if q != r {
        assert !Critical(s.runs[q].phase);
        RefusalStands(configs[q], initial, s, t, s.runs[q].phase);
      }
    }
  }

  /** A run's facts survive a sign-up, which can touch neither its user nor its email. */
  lemma SignUpKeepsRun(c: Config, initial: Tables, s: State, t: State, run: Run, id: UserId, user: User)
    requires RunInv(c, initial, s, run)
    requires id !in s.tables.users && id !in run.writes.users && !HasEmail(run.writes.users, user.email)
    requires t.tables == s.tables.(users := s.tables.users[id := user]) && t.signups == s.signups[id := user]
    requires id !in s.signups
    ensures RunInv(c, initial, t, run)
  {
    RefusalStands(c, initial, s, t, run.phase);
    if HasEmail(t.tables.users, c.email) && !HasEmail(s.tables.users, c.email) {
      assert user.email == c.email && t.signups[id].email == c.email;
    }
    if (run.phase.HasUser? || run.phase.HasRole? || run.phase.HasAudit?) && run.phase.created {
      assert run.writes.users == map[run.phase.user := User(c.email, c.hash)];
      assert run.writes.users[run.phase.user].email == c.email;
    }
  }

  lemma UpdateCommutes(a: map<UserId, User>, x: map<UserId, User>, id: UserId, user: User)
    requires id !in x
    ensures (a + x)[id := user] == a[id := user] + x
  {
  }

  lemma SignUpKeepsWon(c: Config, initial: Tables, s: State, t: State, outcome: (UserId, bool), id: UserId, user: User)
    requires Won(c, initial, s, outcome)
    requires id !in s.tables.users && !HasEmail(s.tables.users, user.email)
    requires t.tables == s.tables.(users := s.tables.users[id := user])
    requires Others(initial, t) == Others(initial, s)[id := user]
    ensures Won(c, initial, t, outcome)
  {
    var rows := AllRows(c, outcome.0, outcome.1).users;
    assert forall u | u in rows :: u in s.tables.users && s.tables.users[u] == rows[u];
    UpdateCommutes(Others(initial, s), rows, id, user);
    if outcome.1 {
      assert rows[outcome.0].email == c.email;
      assert !HasEmail(Others(initial, t), c.email);
    } else {
      assert outcome.0 in s.tables.users;
    }
  }

  /** The users that were there at the start, or signed up, are still there. */
  lemma OthersRemain(configs: seq<Config>, initial: Tables, s: State)
    requires TablesInv(configs, initial, s)
    ensures forall u | u in Others(initial, s) :: u in s.tables.users && s.tables.users[u] == Others(initial, s)[u]
  {
    if r :| HasWon(s, r) {
      assert Won(configs[r], initial, s, Outcome(s.runs[r].phase).value);
    }
  }

  lemma SignUpWellFormed(tables: Tables, id: UserId, user: User)
    requires WellFormed(tables) && id !in tables.users && !HasEmail(tables.users, user.email)
    ensures WellFormed(tables.(users := tables.users[id := user]))
  {
  }

  lemma SignUpKeepsWinners(configs: seq<Config>, initial: Tables, s: State, t: State, id: UserId, user: User)
    requires TablesInv(configs, initial, s)
    requires id !in s.tables.users && !HasEmail(s.tables.users, user.email)
    requires t == s.(tables := s.tables.(users := s.tables.users[id := user]), signups := s.signups[id := user])
    requires Others(initial, t) == Others(initial, s)[id := user]
    ensures forall r | HasWon(t, r) :: Won(configs[r], initial, t, Outcome(t.runs[r].phase).value)
  {
    forall r | HasWon(t, r)
      ensures Won(configs[r], initial, t, Outcome(t.runs[r].phase).value)
    {
      assert HasWon(s, r);
      SignUpKeepsWon(configs[r], initial, s, t, Outcome(t.runs[r].phase).value, id, user);
    }
  }

  lemma MergeThenUpdate(a: map<UserId, User>, b: map<UserId, User>, id: UserId, user: User)
    ensures (a + b)[id := user] == a + b[id := user]
  {
  }

  lemma SignUpOthers(configs: seq<Config>, initial: Tables, s: State, t: State, id: UserId, user: User)
    requires TablesInv(configs, initial, s) && id !in s.tables.users
    requires t.signups == s.signups[id := user]
    ensures Others(initial, t) == Others(initial, s)[id := user]
    ensures initial.users.Keys !! t.signups.Keys
  {
    OthersRemain(configs, initial, s);
    assert id !in Others(initial, s);
    MergeThenUpdate(initial.users, s.signups, id, user);
  }

  lemma SignUpKeepsTables(configs: seq<Config>, initial: Tables, s: State, t: State, id: UserId, user: User)
    requires TablesInv(configs, initial, s)
    requires id !in s.tables.users && !HasEmail(s.tables.users, user.email)
    requires t == s.(tables := s.tables.(users := s.tables.users[id := user]), signups := s.signups[id := user])
    ensures TablesInv(configs, initial, t)
  {
    SignUpOthers(configs, initial, s, t, id, user);
    SignUpWellFormed(s.tables, id, user);
    SignUpKeepsWinners(configs, initial, s, t, id, user);
    WinnersSame(s, t);
  }

  lemma WinnersSame(s: State, t: State)
    requires t.runs == s.runs
    ensures AtMostOneWinner(s) ==> AtMostOneWinner(t)
    ensures NobodyWon(t) ==> NobodyWon(s)
  {
    assert forall r :: HasWon(t, r) <==> HasWon(s, r);
  }

  lemma SignUpKeepsInv(configs: seq<Config>, initial: Tables, s: State, a: Action)
    requires Inv(configs, initial, s) && a.SignUp? && Apply(configs, s, a).Some?
    ensures Inv(configs, initial, Apply(configs, s, a).value)
  {
    var t := Apply(configs, s, a).value;
    OthersRemain(configs, initial, s);
    SignUpKeepsTables(configs, initial, s, t, a.id, a.user);
    forall r | 0 <= r < |t.runs|
      ensures RunInv(configs[r], initial, t, t.runs[r])
    {
      SignUpKeepsRun(configs[r], initial, s, t, s.runs[r], a.id, a.user);
    }
  }

  /** Every step of every run, and every sign-up, keeps the invariant. */
  lemma StepKeepsInv(configs: seq<Config>, initial: Tables, s: State, a: Action)
    requires WellFormed(initial) && Inv(configs, initial, s) && Apply(configs, s, a).Some?
    ensures Inv(configs, initial, Apply(configs, s, a).value)
  {
    if a.SignUp? {
      SignUpKeepsInv(configs, initial, s, a);
    } else {
      var r, t := a.run, Apply(configs, s, a).value;
      RunKeepsLock(configs[r], s, r, a);
      if a.Commit? || a.LoseCommit? {
        CommitKeepsTables(configs, initial, s, t, r);
        CommitKeepsRuns(configs, initial, s, t, r);
      } else {
        LocalActionKeepsInv(configs, initial, s, a);
      }
    }
  }

  lemma LocalActionKeepsInv(configs: seq<Config>, initial: Tables, s: State, a: Action)
    requires Inv(configs, initial, s) && Apply(configs, s, a).Some?
    requires !a.SignUp? && !a.Commit? && !a.LoseCommit?
    ensures var t := Apply(configs, s, a).value; RunsInv(configs, initial, t) && TablesInv(configs, initial, t)
  {
    var r, t := a.run, Apply(configs, s, a).value;
    var c := configs[r];
    assert RunInv(c, initial, s, s.runs[r]);
    if !HasOwner(s.tables.roles) {
      NoOwnerNoWinner(configs, initial, s);
    }
    match a {
      case LookUp(_) => LookUpKeepsRun(c, initial, s, r, a);
      case InsertUser(_, _) => InsertUserKeepsRun(c, initial, s, r, a);
      case InsertRole(_) => InsertRoleKeepsRun(c, initial, s, r, a);
      case InsertAudit(_) => InsertAuditKeepsRun(c, initial, s, r, a);
      case Rollback(_) => DiscardKeepsRun(c, initial, s, r, a);
      case Abort(_) => DiscardKeepsRun(c, initial, s, r, a);
      case _ => ReadKeepsRun(c, initial, s, r, a);
    }
    LocalStep(configs, initial, s, t, r);
  }

  /** The invariant holds after every interleaving. */
  lemma {:induction false} InterleavingKeepsInv(configs: seq<Config>, initial: Tables, actions: seq<Action>)
    requires WellFormed(initial)
    requires Execute(configs, Initial(initial, |configs|), actions).Some?
    ensures Inv(configs, initial, Execute(configs, Initial(initial, |configs|), actions).value)
  {
    var start := Initial(initial, |configs|);
    if actions == [] {
      assert Others(initial, start) == initial.users;
    } else {
      InterleavingKeepsInv(configs, initial, actions[..|actions| - 1]);
      StepKeepsInv(configs, initial, Execute(configs, start, actions[..|actions| - 1]).value, actions[|actions| - 1]);
    }
  }
}
