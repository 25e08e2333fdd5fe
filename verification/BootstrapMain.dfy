/** The transaction of `main` in the bootstrap script, statement by statement, run alone. */
module BootstrapMain {
  import opened Options
  import opened Bootstrap
  import opened BootstrapGuarantees
  import opened BootstrapAlone

  /** A run alone commits exactly when there is no owner and it is eligible; then all its rows are
      there, and a password is printed exactly when the user is new. Otherwise nothing changes. */
  ghost predicate RunAlone(c: Config, newId: UserId, before: Tables, after: Tables, refused: bool, printed: Option<string>) {
    && (!refused <==> !HasOwner(before.roles) && Eligible(c, before.users, before.roles))
    && (refused ==> after == before && printed.None?)
    && (!refused ==>
          if HasEmail(before.users, c.email)
          then after == Merged(before, AllRows(c, UserOf(before.users, c.email), false)) && printed.None?
          else after == Merged(before, AllRows(c, newId, true)) && printed == Some(c.password))
  }

  lemma PromotedAlone(c: Config, newId: UserId, before: Tables, u: UserId)
    requires WellFormed(before) && !HasOwner(before.roles)
    requires u in before.users && before.users[u].email == c.email
    ensures c.promote && u !in before.roles ==> RunAlone(c, newId, before, Merged(before, AllRows(c, u, false)), false, None)
    ensures !c.promote || u in before.roles ==> RunAlone(c, newId, before, before, true, None)
  {
  }

  lemma CreatedAlone(c: Config, newId: UserId, before: Tables)
    requires WellFormed(before) && !HasOwner(before.roles) && !HasEmail(before.users, c.email)
    ensures RunAlone(c, newId, before, Merged(before, AllRows(c, newId, true)), false, Some(c.password))
  {
  }

  /** The three inserts of one run add up to its rows. */
  lemma RowsAddUp(c: Config, u: UserId, created: bool)
    ensures Merged(NO_WRITES, Tables(map[u := User(c.email, c.hash)], map[], [])) == UserRow(c, u, true)
    ensures Merged(Merged(UserRow(c, u, created), Tables(map[], map[u := OWNER], [])), Tables(map[], map[], [Audit(u, c.email, !created)]))
         == AllRows(c, u, created)
  {
  }

  class Database {
    var tables: Tables
    var writes: Tables
    var locked: bool

    /** Between transactions. */
    ghost predicate Quiet()
      reads this
    {
      WellFormed(tables) && writes == NO_WRITES && !locked
    }

    method TakeLock()
      requires !locked
      modifies this`locked
      ensures locked
    {
      locked := true;
    }

    /** The number of owners among the memberships the transaction sees. */
    method CountOwners() returns (n: nat)
      ensures n == |Owners(Merged(tables, writes).roles)|
    {
      n := |Owners(tables.roles + writes.roles)|;
    }

    method FindUser(email: string) returns (identity: Option<UserId>)
      ensures identity.None? <==> !HasEmail(Merged(tables, writes).users, email)
      ensures identity.Some? ==> identity.value in tables.users + writes.users && (tables.users + writes.users)[identity.value].email == email
    {
      var users := tables.users + writes.users;
      if u :| u in users && users[u].email == email {
        return Some(u);
      }
      return None;
    }

    method Insert(rows: Tables)
      requires locked
      modifies this`writes
      ensures writes == Merged(old(writes), rows)
    {
      writes := Merged(writes, rows);
    }

    method Commit()
      requires locked
      modifies this
      ensures tables == Merged(old(tables), old(writes)) && writes == NO_WRITES && !locked
    {
      tables := Merged(tables, writes);
      writes, locked := NO_WRITES, false;
    }

    method Rollback()
      modifies this`writes, this`locked
      ensures writes == NO_WRITES && !locked
    {
      writes, locked := NO_WRITES, false;
    }

    /** `newId` is the key the database would generate for a new user. */
    method BootstrapOwner(c: Config, newId: UserId) returns (refused: Option<Refusal>, printed: Option<string>)
      requires Quiet() && newId !in tables.users
      modifies this
      ensures Quiet()
      ensures RunAlone(c, newId, old(tables), tables, refused.Some?, printed)
      ensures IsSchedule(c, old(tables), tables, refused, printed)
    {
      TakeLock();
      refused, printed := None, None;
      assert Merged(tables, NO_WRITES) == tables;
      var owners := CountOwners();
      CountDecides(Merged(tables, writes).roles);
      if owners > 0 {
        OwnerIsRefused(c, tables);
        refused := Some(Refusal.OwnerExists);
        Rollback();
        return;
      }
      var identity := FindUser(c.email);
      var userId: UserId;
      var oneTimePassword: Option<string> := None;
      if identity.Some? {
        PromotedAlone(c, newId, tables, identity.value);
        PromotionIsSchedule(c, tables, identity.value);
        if !c.promote {
          refused := Some(IdentityExists);
          Rollback();
          return;
        }
        userId := identity.value;
      } else {
        CreatedAlone(c, newId, tables);
        CreationIsSchedule(c, tables, newId);
        oneTimePassword := Some(c.password);
        userId := newId;
        Insert(Tables(map[userId := User(c.email, c.hash)], map[], []));
      }
      RowsAddUp(c, userId, identity.None?);
      assert writes == UserRow(c, userId, identity.None?);
      if userId in tables.roles {
        refused := Some(RoleHeld);
        Rollback();
        return;
      }
      Insert(Tables(map[], map[userId := OWNER], []));
      Insert(Tables(map[], map[], [Audit(userId, c.email, identity.Some?)]));
      CommittedWellFormed(c, tables, userId, identity.None?);
      Commit();
      printed := oneTimePassword;
    }
  }
}
