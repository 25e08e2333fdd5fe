/** What the bootstrap protocol guarantees over every interleaving of any number of runs. */
module BootstrapGuarantees {
  import opened Options
  import opened Bootstrap

  ghost predicate After(configs: seq<Config>, initial: Tables, actions: seq<Action>, s: State) {
    WellFormed(initial) && Execute(configs, Initial(initial, |configs|), actions) == Some(s)
  }

  /** At most one run is between taking the lock and ending its transaction, and it is the one
      that holds the lock. */
  lemma MutualExclusion(configs: seq<Config>, initial: Tables, actions: seq<Action>, s: State, r: RunId, q: RunId)
    requires After(configs, initial, actions, s)
    requires r < |s.runs| && q < |s.runs| && Critical(s.runs[r].phase) && Critical(s.runs[q].phase)
    ensures r == q && s.lock == Some(r)
  {
    InterleavingKeepsInv(configs, initial, actions);
  }

  /** At most one run ever commits, and none does when an owner existed at the start. */
  lemma AtMostOneCommits(configs: seq<Config>, initial: Tables, actions: seq<Action>, s: State)
    requires After(configs, initial, actions, s)
    ensures AtMostOneWinner(s)
    ensures HasOwner(initial.roles) ==> NobodyWon(s)
  {
    InterleavingKeepsInv(configs, initial, actions);
    forall r
      ensures HasOwner(initial.roles) ==> !HasWon(s, r)
    {
      if HasWon(s, r) {
        assert Won(configs[r], initial, s, Outcome(s.runs[r].phase).value);
      }
    }
  }

  /** The committed rows are the others' and the three of a run that made `u` the owner; the user's own
      row is there exactly if the identity was new, and the audit row says whether it was not. */
  ghost predicate WroteAll(c: Config, initial: Tables, s: State, u: UserId, created: bool) {
    && (created <==> u !in Others(initial, s))
    && s.tables.users == Others(initial, s) + (if created then map[u := User(c.email, c.hash)] else map[])
    && s.tables.roles == initial.roles[u := "platform_owner"] && u !in initial.roles
    && s.tables.audit == initial.audit + [Audit(u, c.email, u in Others(initial, s))]
    && s.tables.users[u].email == c.email
  }

  lemma WinnerWroteAll(c: Config, initial: Tables, s: State, u: UserId, created: bool)
    requires Won(c, initial, s, (u, created))
    ensures WroteAll(c, initial, s, u, created)
  {
    assert initial.roles + map[u := OWNER] == initial.roles[u := OWNER];
  }

  /** The committed rows are the rows nobody's bootstrap wrote, and all three writes of the run that
      committed or none; the audit flag tells whether the identity existed before. */
  lemma AllOrNothing(configs: seq<Config>, initial: Tables, actions: seq<Action>, s: State)
    requires After(configs, initial, actions, s)
    ensures NobodyWon(s) ==> s.tables == Tables(Others(initial, s), initial.roles, initial.audit)
    ensures |s.runs| == |configs|
    ensures forall r | HasWon(s, r) :: WroteAll(configs[r], initial, s, Outcome(s.runs[r].phase).value.0, Outcome(s.runs[r].phase).value.1)
  {
    InterleavingKeepsInv(configs, initial, actions);
    forall r | HasWon(s, r)
      ensures WroteAll(configs[r], initial, s, Outcome(s.runs[r].phase).value.0, Outcome(s.runs[r].phase).value.1)
    {
      WinnerWroteAll(configs[r], initial, s, Outcome(s.runs[r].phase).value.0, Outcome(s.runs[r].phase).value.1);
    }
  }

  /** No password of a user the bootstrap did not create is ever changed. */
  lemma PasswordsKept(configs: seq<Config>, initial: Tables, actions: seq<Action>, s: State, u: UserId)
    requires After(configs, initial, actions, s) && u in Others(initial, s)
    ensures u in s.tables.users && s.tables.users[u] == Others(initial, s)[u]
  {
    InterleavingKeepsInv(configs, initial, actions);
    OthersRemain(configs, initial, s);
  }

  /** A password is printed only by the run that committed a user it created, and is that user's. */
  lemma PrintsOnlyItsOwn(configs: seq<Config>, initial: Tables, actions: seq<Action>, s: State, r: RunId)
    requires After(configs, initial, actions, s) && r < |s.runs| && s.runs[r].printed.Some?
    ensures |s.runs| == |configs| && HasWon(s, r) && s.runs[r].printed == Some(configs[r].password)
    ensures var (u, created) := Outcome(s.runs[r].phase).value;
            created && u !in Others(initial, s) && u in s.tables.users
            && s.tables.users[u] == User(configs[r].email, configs[r].hash)
  {
    InterleavingKeepsInv(configs, initial, actions);
    assert RunInv(configs[r], initial, s, s.runs[r]);
    assert HasWon(s, r);
    AllOrNothing(configs, initial, actions, s);
  }

  /** A run has failed exactly when its connection was lost, before or after the commit. */
  lemma {:induction false} FailedIffCutOff(configs: seq<Config>, start: State, actions: seq<Action>, s: State, r: RunId)
    requires Execute(configs, start, actions) == Some(s) && r < |s.runs|
    requires r < |start.runs| ==> !start.runs[r].phase.Failed?
    ensures |s.runs| == |start.runs|
    ensures s.runs[r].phase.Failed? <==> LoseCommit(r) in actions || Abort(r) in actions
    decreases |actions|
  {
    if actions != [] {
      var earlier, a := actions[..|actions| - 1], actions[|actions| - 1];
      assert actions == earlier + [a];
      var before := Execute(configs, start, earlier).value;
      if a.SignUp? {
        FailedIffCutOff(configs, start, earlier, before, r);
      } else {
        StepFails(configs[a.run], before, a.run, a, s);
        FailedIffCutOff(configs, start, earlier, before, r);
      }
    }
  }

  lemma StepFails(c: Config, s: State, r: RunId, a: Action, t: State)
    requires r < |s.runs| && !a.SignUp? && a.run == r && ApplyRun(c, s, r, a) == Some(t)
    ensures |t.runs| == |s.runs| && t.runs == s.runs[r := t.runs[r]]
    ensures !s.runs[r].phase.Failed? && (t.runs[r].phase.Failed? <==> a == LoseCommit(r) || a == Abort(r))
  {
  }

  /** Exactly when a password is printed: by a run that has ended after committing a user it created,
      and whose connection was lost neither while the commit was acknowledged nor at any other time. */
  lemma PrintedIffNotCutOff(configs: seq<Config>, initial: Tables, actions: seq<Action>, s: State, r: RunId)
    requires After(configs, initial, actions, s) && r < |s.runs|
    ensures s.runs[r].printed.Some?
       <==> && HasWon(s, r) && Outcome(s.runs[r].phase).value.1 && Ended(s.runs[r].phase)
            && LoseCommit(r) !in actions && Abort(r) !in actions
    ensures |s.runs| == |configs|
    ensures s.runs[r].printed.Some? ==>
              var u := Outcome(s.runs[r].phase).value.0;
              && s.runs[r].printed == Some(configs[r].password)
              && u !in Others(initial, s) && u in s.tables.users
              && s.tables.users[u] == User(configs[r].email, configs[r].hash)
  {
    InterleavingKeepsInv(configs, initial, actions);
    assert RunInv(configs[r], initial, s, s.runs[r]);
    FailedIffCutOff(configs, Initial(initial, |configs|), actions, s, r);
    if s.runs[r].printed.Some? {
      PrintsOnlyItsOwn(configs, initial, actions, s, r);
    }
  }

  lemma LostCommit(c: Config, s: State, r: RunId) returns (t: State)
    requires r < |s.runs| && s.runs[r].phase.HasAudit? && s.runs[r].phase.created
    requires s.runs[r].writes == WritesBy(c, s.runs[r].phase) && s.runs[r].printed.None?
    ensures ApplyRun(c, s, r, LoseCommit(r)) == Some(t)
    ensures HasWon(t, r) && Ended(t.runs[r].phase) && t.runs[r].printed.None?
    ensures s.runs[r].phase.user in t.tables.users
  {
    t := EndTransaction(s, r, Failed(Some((s.runs[r].phase.user, true))), true);
  }

  lemma CrashAfterCommit(c: Config, s: State, r: RunId) returns (t: State, u: State)
    requires r < |s.runs| && s.runs[r].phase.HasAudit? && s.runs[r].phase.created
    requires s.runs[r].writes == WritesBy(c, s.runs[r].phase) && s.runs[r].printed.None?
    ensures ApplyRun(c, s, r, Commit(r)) == Some(t) && r < |t.runs| == |s.runs| && ApplyRun(c, t, r, Abort(r)) == Some(u)
    ensures HasWon(u, r) && Ended(u.runs[r].phase) && u.runs[r].printed.None?
    ensures s.runs[r].phase.user in u.tables.users
  {
    t := EndTransaction(s, r, Committed(s.runs[r].phase.user, true), true);
    u := To(t, r, Failed(Some((s.runs[r].phase.user, true))));
  }

  /** A run about to commit its new owner can end in two ways with the owner committed and the password
      never printed: the acknowledgement is lost, or the script dies between commit and print. */
  lemma PasswordCanBeLost(configs: seq<Config>, initial: Tables, actions: seq<Action>, s: State, r: RunId)
      returns (t: State, u: State)
    requires After(configs, initial, actions, s)
    requires r < |s.runs| && s.runs[r].phase.HasAudit? && s.runs[r].phase.created
    ensures After(configs, initial, actions + [LoseCommit(r)], t)
    ensures HasWon(t, r) && Ended(t.runs[r].phase) && t.runs[r].printed.None?
    ensures s.runs[r].phase.user in t.tables.users
    ensures After(configs, initial, actions + [Commit(r)] + [Abort(r)], u)
    ensures HasWon(u, r) && Ended(u.runs[r].phase) && u.runs[r].printed.None?
    ensures s.runs[r].phase.user in u.tables.users
  {
    InterleavingKeepsInv(configs, initial, actions);
    assert RunInv(configs[r], initial, s, s.runs[r]);
    var start := Initial(initial, |configs|);
    t := LostCommit(configs[r], s, r);
    Extend(configs, start, actions, s, LoseCommit(r), t);
    var committed;
    committed, u := CrashAfterCommit(configs[r], s, r);
    Extend(configs, start, actions, s, Commit(r), committed);
    Extend(configs, start, actions + [Commit(r)], committed, Abort(r), u);
  }

  // ---- how many owners --------------------------------------------------------------------------

  /** The rows the script counts. */
  function Owners(roles: map<UserId, string>): set<UserId> {
    set u | u in roles && roles[u] == OWNER
  }

  /** The bootstrap adds one owner over all runs, when a run commits, and never a second to one. */
  lemma OwnersCounted(configs: seq<Config>, initial: Tables, actions: seq<Action>, s: State)
    requires After(configs, initial, actions, s)
    ensures |Owners(s.tables.roles)| == |Owners(initial.roles)| + if NobodyWon(s) then 0 else 1
    ensures !NobodyWon(s) ==> |Owners(s.tables.roles)| == 1
  {
    InterleavingKeepsInv(configs, initial, actions);
    if r :| HasWon(s, r) {
      OneOwner(configs[r], initial, s, Outcome(s.runs[r].phase).value);
    }
  }

  lemma OneOwner(c: Config, initial: Tables, s: State, outcome: (UserId, bool))
    requires Won(c, initial, s, outcome)
    ensures |Owners(initial.roles)| == 0 && |Owners(s.tables.roles)| == 1
  {
    CountDecides(initial.roles);
    assert s.tables.roles == initial.roles + map[outcome.0 := OWNER];
    assert Owners(s.tables.roles) == {outcome.0};
  }

  /** The count the script tests is positive exactly when there is an owner. */
  lemma CountDecides(roles: map<UserId, string>)
    ensures |Owners(roles)| > 0 <==> HasOwner(roles)
  {
    if HasOwner(roles) {
      var u :| u in roles && roles[u] == OWNER;
      assert u in Owners(roles);
    } else {
      assert Owners(roles) == {};
    }
  }

  // ---- who wins --------------------------------------------------------------------------------

  /** A run can succeed when its email is new, or when it may promote a user without a role. */
  ghost predicate Eligible(c: Config, users: map<UserId, User>, roles: map<UserId, string>) {
    || !HasEmail(users, c.email)
    || (c.promote && exists u :: u in users && users[u].email == c.email && u !in roles)
  }

  /** Every run has ended, none of them by a lost connection or by losing its email to a sign-up. */
  ghost predicate EndedUndisturbed(s: State) {
    forall r | 0 <= r < |s.runs| ::
      s.runs[r].phase.Printed? || (s.runs[r].phase.Refused? && !s.runs[r].phase.why.EmailTaken?)
  }

  /** Once every run has ended undisturbed and there was no owner, exactly one has committed if any
      was eligible, and none has if none was. */
  lemma ExactlyOneCommitsIffEligible(configs: seq<Config>, initial: Tables, actions: seq<Action>, s: State)
    requires After(configs, initial, actions, s)
    requires !HasOwner(initial.roles) && EndedUndisturbed(s)
    ensures AtMostOneWinner(s)
    ensures (exists r :: HasWon(s, r)) <==> (exists r :: 0 <= r < |configs| && Eligible(configs[r], Others(initial, s), initial.roles))
  {
    InterleavingKeepsInv(configs, initial, actions);
    if r :| HasWon(s, r) {
      assert Won(configs[r], initial, s, Outcome(s.runs[r].phase).value);
      assert Eligible(configs[r], Others(initial, s), initial.roles);
    } else {
      assert NobodyWon(s);
      forall r | 0 <= r < |configs|
        ensures !Eligible(configs[r], Others(initial, s), initial.roles)
      {
        RefusedIsIneligible(configs[r], initial, s, r);
      }
    }
  }

  lemma RefusedIsIneligible(c: Config, initial: Tables, s: State, r: RunId)
    requires WellFormed(s.tables) && NobodyWon(s) && !HasOwner(initial.roles)
    requires s.tables == initial.(users := Others(initial, s))
    requires r < |s.runs| && RunInv(c, initial, s, s.runs[r])
    requires s.runs[r].phase.Printed? || (s.runs[r].phase.Refused? && !s.runs[r].phase.why.EmailTaken?)
    ensures !Eligible(c, Others(initial, s), initial.roles)
  {
    assert !HasWon(s, r);
  }

  // ---- nobody is blocked -----------------------------------------------------------------------

  /** Statements left, at most, until the run has ended. */
  function Remaining(phase: Phase): nat {
    match phase
    case Idle => 9
    case Begun => 8
    case Locked => 7
    case NoOwner => 6
    case NewIdentity => 5
    case HasUser(_, _) => 4
    case HasRole(_, _) => 3
    case HasAudit(_, _) => 2
    case Throwing(_) => 1
    case Committed(_, _) => 1
    case _ => 0
  }

  function TotalRemaining(runs: seq<Run>): nat {
    if runs == [] then 0 else Remaining(runs[0].phase) + TotalRemaining(runs[1..])
  }

  lemma {:induction false} UpdateRemaining(runs: seq<Run>, r: nat, run: Run)
    requires r < |runs|
    ensures TotalRemaining(runs[r := run]) == TotalRemaining(runs) - Remaining(runs[r].phase) + Remaining(run.phase)
  {
    if r == 0 {
      assert runs[r := run] == [run] + runs[1..];
    } else {
      assert runs[r := run] == [runs[0]] + runs[1..][r - 1 := run];
      UpdateRemaining(runs[1..], r - 1, run);
    }
  }

  lemma StepShape(c: Config, s: State, r: RunId, a: Action, t: State)
    requires r < |s.runs| && !a.SignUp? && ApplyRun(c, s, r, a) == Some(t)
    ensures |t.runs| == |s.runs| && t.runs == s.runs[r := t.runs[r]] && t.signups == s.signups
    ensures Remaining(t.runs[r].phase) < Remaining(s.runs[r].phase)
    ensures t.runs[r].phase.Failed? ==> a.Abort? || a.LoseCommit?
  {
  }

  /** Every step of a run brings its end nearer, so no schedule runs for ever. */
  lemma RunStepDecreases(configs: seq<Config>, s: State, a: Action)
    requires !a.SignUp? && Apply(configs, s, a).Some?
    ensures TotalRemaining(Apply(configs, s, a).value.runs) < TotalRemaining(s.runs)
    ensures !a.Abort? && !a.LoseCommit? ==> NoNewFailures(s, Apply(configs, s, a).value)
    ensures Apply(configs, s, a).value.signups == s.signups
  {
    var t := Apply(configs, s, a).value;
    StepShape(configs[a.run], s, a.run, a, t);
    UpdateRemaining(s.runs, a.run, t.runs[a.run]);
  }

  lemma FreshId(users: map<UserId, User>) returns (id: UserId)
    ensures id !in users
  {
    var taken := users.Keys;
    id := 0;
    var below := {};
    while id in taken
      invariant below <= taken
      invariant forall n: nat :: n < id <==> n in below
      decreases taken - below
    {
      below := below + {id};
      id := id + 1;
    }
  }

  /** A run that has not ended has a next statement, given that it holds the lock or the lock is free. */
  lemma NextStatement(configs: seq<Config>, s: State, r: RunId) returns (a: Action)
    requires LockInv(s) && r < |s.runs| == |configs| && !Ended(s.runs[r].phase)
    requires s.lock == Some(r) || s.lock.None?
    requires s.runs[r].phase.NewIdentity? ==> forall id, email :: !PendingUser(s, id, email)
    ensures !a.SignUp? && a.run == r && !a.Abort? && !a.LoseCommit?
    ensures Apply(configs, s, a).Some?
  {
    match s.runs[r].phase {
      case Idle => a := Begin(r);
      case Begun => a := TakeLock(r);
      case Locked => a := CountOwners(r);
      case NoOwner => a := LookUp(r);
      case NewIdentity =>
        var id := FreshId(s.tables.users);
        a := InsertUser(r, id);
      case HasUser(_, _) => a := InsertRole(r);
      case HasRole(_, _) => a := InsertAudit(r);
      case HasAudit(_, _) => a := Commit(r);
      case Throwing(_) => a := Rollback(r);
      case Committed(_, _) => a := Print(r);
    }
  }

  /** While the lock holder has not inserted its user, no run has uncommitted rows. */
  lemma NoPendingUsers(configs: seq<Config>, initial: Tables, s: State, r: RunId)
    requires Inv(configs, initial, s) && s.lock == Some(r) && s.runs[r].phase.NewIdentity?
    ensures forall id, email :: !PendingUser(s, id, email)
  {
    forall q | 0 <= q < |s.runs|
      ensures s.runs[q].writes == NO_WRITES
    {
      assert RunInv(configs[q], initial, s, s.runs[q]);
    }
  }

  ghost predicate AllEnded(s: State) {
    forall r | 0 <= r < |s.runs| :: Ended(s.runs[r].phase)
  }

  /** The runs that lost their connection. */
  ghost predicate NoNewFailures(s: State, t: State) {
    |t.runs| == |s.runs| && forall r | 0 <= r < |s.runs| && t.runs[r].phase.Failed? :: s.runs[r].phase.Failed?
  }

  /** From every reachable state all runs can still end, with no connection lost: whoever holds the
      lock, or has been refused, never blocks the others for good. */
  lemma {:induction false} EveryRunCanEnd(configs: seq<Config>, initial: Tables, actions: seq<Action>, s: State)
      returns (more: seq<Action>, t: State)
    requires After(configs, initial, actions, s)
    ensures After(configs, initial, more, t) && actions <= more
    ensures AllEnded(t) && NoNewFailures(s, t) && t.signups == s.signups
    decreases TotalRemaining(s.runs)
  {
    InterleavingKeepsInv(configs, initial, actions);
    if AllEnded(s) {
      return actions, s;
    }
    var r: RunId;
    if s.lock.Some? {
      r := s.lock.value;
    } else {
      r :| r < |s.runs| && !Ended(s.runs[r].phase);
    }
    if s.runs[r].phase.NewIdentity? {
      NoPendingUsers(configs, initial, s, r);
    }
    var a := NextStatement(configs, s, r);
    var next := Apply(configs, s, a).value;
    RunStepDecreases(configs, s, a);
    Extend(configs, Initial(initial, |configs|), actions, s, a, next);
    more, t := EveryRunCanEnd(configs, initial, actions + [a], next);
    assert actions <= actions + [a];
  }

  lemma Extend(configs: seq<Config>, start: State, actions: seq<Action>, s: State, a: Action, t: State)
    requires Execute(configs, start, actions) == Some(s)
    requires Apply(configs, s, a) == Some(t)
    ensures Execute(configs, start, actions + [a]) == Some(t)
  {
    assert (actions + [a])[..|actions + [a]| - 1] == actions;
  }

  /** From every reachable state in which no connection was lost and nobody signed up, an eligible
      run means the protocol can end with exactly one owner; no refusal stands in its way. */
  lemma AnOwnerCanAlwaysBeMade(configs: seq<Config>, initial: Tables, actions: seq<Action>, s: State)
      returns (more: seq<Action>, t: State)
    requires After(configs, initial, actions, s)
    requires !HasOwner(initial.roles) && s.signups == map[]
    requires forall r | 0 <= r < |s.runs| :: !s.runs[r].phase.Failed?
    ensures After(configs, initial, more, t) && actions <= more && EndedUndisturbed(t) && AtMostOneWinner(t)
    ensures (exists r :: HasWon(t, r)) <==> (exists r :: 0 <= r < |configs| && Eligible(configs[r], initial.users, initial.roles))
  {
    more, t := EveryRunCanEnd(configs, initial, actions, s);
    InterleavingKeepsInv(configs, initial, more);
    forall r | 0 <= r < |t.runs|
      ensures t.runs[r].phase.Printed? || (t.runs[r].phase.Refused? && !t.runs[r].phase.why.EmailTaken?)
    {
      assert RunInv(configs[r], initial, t, t.runs[r]);
    }
    assert Others(initial, t) == initial.users;
    ExactlyOneCommitsIffEligible(configs, initial, more, t);
  }

  /** The promote flag alone is not enough: an existing user who holds another platform role cannot
      be promoted, so with no owner and no disturbance nobody commits. */
  lemma PromotionNeedsAFreeRole() returns (configs: seq<Config>, initial: Tables, actions: seq<Action>, s: State)
    ensures After(configs, initial, actions, s)
    ensures |configs| == 1 && configs[0].promote && HasEmail(initial.users, configs[0].email)
    ensures !HasOwner(initial.roles) && EndedUndisturbed(s) && NobodyWon(s)
  {
    configs := [Config("ops@daftar.app", true, "secret", "hash")];
    initial := Tables(map[7 := User("ops@daftar.app", "old")], map[7 := "support_agent"], []);
    assert initial.users[7].email == configs[0].email;
    assert initial.roles[7] != OWNER;
    assert Execute(configs, Initial(initial, 1), []) == Some(Initial(initial, 1));
    actions, s := AnOwnerCanAlwaysBeMade(configs, initial, [], Initial(initial, 1));
    assert !Eligible(configs[0], initial.users, initial.roles);
  }
}
