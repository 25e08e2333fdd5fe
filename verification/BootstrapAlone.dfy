/** The script's transaction run alone is a schedule of the protocol with one run. */
module BootstrapAlone {
  import opened Options
  import opened Bootstrap
  import opened BootstrapGuarantees

  /** The protocol's state with one run, nothing printed. */
  function Solo(tables: Tables, lock: Option<RunId>, phase: Phase, writes: Tables): State {
    State(tables, lock, [Run(phase, writes, None)], map[])
  }

  /** A schedule of one run ends with these tables, this refusal and this printed password. */
  ghost predicate EndsWith(c: Config, before: Tables, actions: seq<Action>, s: State, after: Tables, refused: Option<Refusal>, printed: Option<string>) {
    && After([c], before, actions, s)
    && |s.runs| == 1 && s.lock.None? && s.tables == after && s.runs[0].printed == printed
    && if refused.Some? then s.runs[0].phase == Refused(refused.value) else s.runs[0].phase.Printed?
  }

  ghost predicate IsSchedule(c: Config, before: Tables, after: Tables, refused: Option<Refusal>, printed: Option<string>) {
    exists actions, s :: EndsWith(c, before, actions, s, after, refused, printed)
  }

  lemma Next(c: Config, before: Tables, actions: seq<Action>, s: State, a: Action, t: State)
    requires After([c], before, actions, s) && Apply([c], s, a) == Some(t)
    ensures After([c], before, actions + [a], t)
  {
    Extend([c], Initial(before, 1), actions, s, a, t);
  }

  /** A statement that reads. */
  lemma Reads(c: Config, before: Tables, actions: seq<Action>, p: Phase, writes: Tables, a: Action, q: Phase)
    requires After([c], before, actions, Solo(before, Some(0), p, writes))
    requires Apply([c], Solo(before, Some(0), p, writes), a) == Some(To(Solo(before, Some(0), p, writes), 0, q))
    ensures After([c], before, actions + [a], Solo(before, Some(0), q, writes))
  {
    assert [Run(p, writes, None)][0 := Run(q, writes, None)] == [Run(q, writes, None)];
    Next(c, before, actions, Solo(before, Some(0), p, writes), a, Solo(before, Some(0), q, writes));
  }

  /** A statement that writes. */
  lemma Writes(c: Config, before: Tables, actions: seq<Action>, p: Phase, writes: Tables, a: Action, q: Phase, rows: Tables)
    requires After([c], before, actions, Solo(before, Some(0), p, writes))
    requires Apply([c], Solo(before, Some(0), p, writes), a) == Some(Write(Solo(before, Some(0), p, writes), 0, q, rows))
    ensures After([c], before, actions + [a], Solo(before, Some(0), q, Merged(writes, rows)))
  {
    assert [Run(p, writes, None)][0 := Run(q, Merged(writes, rows), None)] == [Run(q, Merged(writes, rows), None)];
    Next(c, before, actions, Solo(before, Some(0), p, writes), a, Solo(before, Some(0), q, Merged(writes, rows)));
  }

  /** The end of the transaction. */
  lemma Ends(c: Config, before: Tables, actions: seq<Action>, p: Phase, writes: Tables, a: Action, q: Phase, commit: bool)
    requires After([c], before, actions, Solo(before, Some(0), p, writes))
    requires Apply([c], Solo(before, Some(0), p, writes), a) == Some(EndTransaction(Solo(before, Some(0), p, writes), 0, q, commit))
    ensures After([c], before, actions + [a], Solo(if commit then Merged(before, writes) else before, None, q, NO_WRITES))
  {
    assert [Run(p, writes, None)][0 := Run(q, NO_WRITES, None)] == [Run(q, NO_WRITES, None)];
    Next(c, before, actions, Solo(before, Some(0), p, writes), a, Solo(if commit then Merged(before, writes) else before, None, q, NO_WRITES));
  }

  lemma UntilLocked(c: Config, before: Tables) returns (actions: seq<Action>)
    requires WellFormed(before)
    ensures After([c], before, actions, Solo(before, Some(0), Locked, NO_WRITES))
  {
    var idle, begun, locked := Solo(before, None, Idle, NO_WRITES), Solo(before, None, Begun, NO_WRITES), Solo(before, Some(0), Locked, NO_WRITES);
    assert Initial(before, 1) == idle;
    assert Execute([c], idle, []) == Some(idle);
    assert idle.runs[0 := Run(Begun, NO_WRITES, None)] == begun.runs;
    Next(c, before, [], idle, Begin(0), begun);
    assert begun.runs[0 := Run(Locked, NO_WRITES, None)] == locked.runs;
    Next(c, before, [] + [Begin(0)], begun, TakeLock(0), locked);
    actions := [] + [Begin(0)] + [TakeLock(0)];
  }

  lemma NothingSeenYet(tables: Tables)
    ensures Merged(tables, NO_WRITES).users == tables.users && Merged(tables, NO_WRITES).roles == tables.roles
  {
  }

  lemma ThrownIsRolledBack(c: Config, before: Tables, actions: seq<Action>, why: Refusal, writes: Tables)
    requires After([c], before, actions, Solo(before, Some(0), Throwing(why), writes))
    ensures IsSchedule(c, before, before, Some(why), None)
  {
    Ends(c, before, actions, Throwing(why), writes, Rollback(0), Refused(why), false);
    assert EndsWith(c, before, actions + [Rollback(0)], Solo(before, None, Refused(why), NO_WRITES), before, Some(why), None);
  }

  lemma OwnerIsRefused(c: Config, before: Tables)
    requires WellFormed(before) && HasOwner(before.roles)
    ensures IsSchedule(c, before, before, Some(OwnerExists), None)
  {
    var actions := UntilLocked(c, before);
    NothingSeenYet(before);
    Reads(c, before, actions, Locked, NO_WRITES, CountOwners(0), Throwing(OwnerExists));
    ThrownIsRolledBack(c, before, actions + [CountOwners(0)], OwnerExists, NO_WRITES);
  }

  lemma UntilCounted(c: Config, before: Tables) returns (actions: seq<Action>)
    requires WellFormed(before) && !HasOwner(before.roles)
    ensures After([c], before, actions, Solo(before, Some(0), NoOwner, NO_WRITES))
  {
    var earlier := UntilLocked(c, before);
    NothingSeenYet(before);
    Reads(c, before, earlier, Locked, NO_WRITES, CountOwners(0), NoOwner);
    actions := earlier + [CountOwners(0)];
  }

  lemma TakenEmailIsRefused(c: Config, before: Tables)
    requires WellFormed(before) && !HasOwner(before.roles) && HasEmail(before.users, c.email) && !c.promote
    ensures IsSchedule(c, before, before, Some(IdentityExists), None)
  {
    var actions := UntilCounted(c, before);
    NothingSeenYet(before);
    Reads(c, before, actions, NoOwner, NO_WRITES, LookUp(0), Throwing(IdentityExists));
    ThrownIsRolledBack(c, before, actions + [LookUp(0)], IdentityExists, NO_WRITES);
  }

  lemma UntilPromoted(c: Config, before: Tables, u: UserId) returns (actions: seq<Action>)
    requires WellFormed(before) && !HasOwner(before.roles) && c.promote
    requires u in before.users && before.users[u].email == c.email
    ensures After([c], before, actions, Solo(before, Some(0), HasUser(u, false), UserRow(c, u, false)))
  {
    var earlier := UntilCounted(c, before);
    NothingSeenYet(before);
    assert UserOf(before.users, c.email) == u;
    Reads(c, before, earlier, NoOwner, NO_WRITES, LookUp(0), HasUser(u, false));
    actions := earlier + [LookUp(0)];
  }

  lemma UntilCreated(c: Config, before: Tables, u: UserId) returns (actions: seq<Action>)
    requires WellFormed(before) && !HasOwner(before.roles) && !HasEmail(before.users, c.email) && u !in before.users
    ensures After([c], before, actions, Solo(before, Some(0), HasUser(u, true), UserRow(c, u, true)))
  {
    var earlier := UntilCounted(c, before);
    NothingSeenYet(before);
    Reads(c, before, earlier, NoOwner, NO_WRITES, LookUp(0), NewIdentity);
    assert Merged(NO_WRITES, UserRow(c, u, true)) == UserRow(c, u, true);
    Writes(c, before, earlier + [LookUp(0)], NewIdentity, NO_WRITES, InsertUser(0, u), HasUser(u, true), UserRow(c, u, true));
    actions := earlier + [LookUp(0)] + [InsertUser(0, u)];
  }

  lemma HeldRoleIsRefused(c: Config, before: Tables, actions: seq<Action>, u: UserId)
    requires After([c], before, actions, Solo(before, Some(0), HasUser(u, false), UserRow(c, u, false)))
    requires u in before.roles
    ensures IsSchedule(c, before, before, Some(RoleHeld), None)
  {
    Reads(c, before, actions, HasUser(u, false), UserRow(c, u, false), InsertRole(0), Throwing(RoleHeld));
    ThrownIsRolledBack(c, before, actions + [InsertRole(0)], RoleHeld, UserRow(c, u, false));
  }

  function RoleRow(u: UserId): Tables { Tables(map[], map[u := OWNER], []) }

  function AuditRow(c: Config, u: UserId, created: bool): Tables { Tables(map[], map[], [Audit(u, c.email, !created)]) }

  lemma RowsOfOneRun(c: Config, before: Tables, u: UserId, created: bool)
    ensures Merged(before, UserRow(c, u, created)).roles == before.roles
    ensures Merged(Merged(UserRow(c, u, created), RoleRow(u)), AuditRow(c, u, created)) == AllRows(c, u, created)
  {
  }

  lemma UntilAudited(c: Config, before: Tables, earlier: seq<Action>, u: UserId, created: bool) returns (actions: seq<Action>)
    requires After([c], before, earlier, Solo(before, Some(0), HasUser(u, created), UserRow(c, u, created)))
    requires u !in before.roles
    ensures After([c], before, actions, Solo(before, Some(0), HasAudit(u, created), AllRows(c, u, created)))
  {
    RowsOfOneRun(c, before, u, created);
    var withRole := Merged(UserRow(c, u, created), RoleRow(u));
    Writes(c, before, earlier, HasUser(u, created), UserRow(c, u, created), InsertRole(0), HasRole(u, created), RoleRow(u));
    Writes(c, before, earlier + [InsertRole(0)], HasRole(u, created), withRole, InsertAudit(0), HasAudit(u, created), AuditRow(c, u, created));
    actions := earlier + [InsertRole(0)] + [InsertAudit(0)];
  }

  lemma CommittedIsPrinted(c: Config, before: Tables, actions: seq<Action>, after: Tables, u: UserId, created: bool)
    requires After([c], before, actions, Solo(after, None, Committed(u, created), NO_WRITES))
    ensures IsSchedule(c, before, after, None, if created then Some(c.password) else None)
  {
    var printed := if created then Some(c.password) else None;
    var committed := Solo(after, None, Committed(u, created), NO_WRITES);
    var last := State(after, None, [Run(Printed(u, created), NO_WRITES, printed)], map[]);
    assert committed.runs[0 := Run(Printed(u, created), NO_WRITES, None)][0 := Run(Printed(u, created), NO_WRITES, printed)] == last.runs;
    Next(c, before, actions, committed, Print(0), last);
    assert EndsWith(c, before, actions + [Print(0)], last, after, None, printed);
  }

  lemma FreeRoleIsGiven(c: Config, before: Tables, earlier: seq<Action>, u: UserId, created: bool)
    requires After([c], before, earlier, Solo(before, Some(0), HasUser(u, created), UserRow(c, u, created)))
    requires u !in before.roles
    ensures IsSchedule(c, before, Merged(before, AllRows(c, u, created)), None, if created then Some(c.password) else None)
  {
    var actions := UntilAudited(c, before, earlier, u, created);
    Ends(c, before, actions, HasAudit(u, created), AllRows(c, u, created), Commit(0), Committed(u, created), true);
    CommittedIsPrinted(c, before, actions + [Commit(0)], Merged(before, AllRows(c, u, created)), u, created);
  }

  lemma PromotionIsSchedule(c: Config, before: Tables, u: UserId)
    requires WellFormed(before) && !HasOwner(before.roles) && u in before.users && before.users[u].email == c.email
    ensures !c.promote ==> IsSchedule(c, before, before, Some(IdentityExists), None)
    ensures c.promote && u in before.roles ==> IsSchedule(c, before, before, Some(RoleHeld), None)
    ensures c.promote && u !in before.roles ==> IsSchedule(c, before, Merged(before, AllRows(c, u, false)), None, None)
  {
    if !c.promote {
      TakenEmailIsRefused(c, before);
    } else {
      var actions := UntilPromoted(c, before, u);
      if u in before.roles {
        HeldRoleIsRefused(c, before, actions, u);
      } else {
        FreeRoleIsGiven(c, before, actions, u, false);
      }
    }
  }

  lemma CreationIsSchedule(c: Config, before: Tables, u: UserId)
    requires WellFormed(before) && !HasOwner(before.roles) && !HasEmail(before.users, c.email) && u !in before.users
    ensures IsSchedule(c, before, Merged(before, AllRows(c, u, true)), None, Some(c.password))
  {
    var actions := UntilCreated(c, before, u);
    FreeRoleIsGiven(c, before, actions, u, true);
  }
}
