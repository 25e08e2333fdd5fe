/** Case H of the deployment matrix: a fresh database taken to the base, then to each head in turn,
    then to every file on disk. */
module CaseH {
  import opened Options
  import opened Text
  import opened Migrations
  import opened UpgradePlan
  import opened Runner

  /** `migrationsUpTo`: a directory holding only the `.sql` files up to `through`. */
  function DirUpTo(disk: map<string, string>, through: string): map<string, string> {
    map f | f in disk && IsSql(f) && AtMost(f, through) :: disk[f]
  }

  ghost function Files(disk: map<string, string>): seq<string> { SortedNames(SqlOf(disk).Keys) }

  lemma {:induction false} UpToMembers(xs: seq<string>, bound: string)
    ensures forall f :: f in UpTo(xs, bound) <==> f in xs && AtMost(f, bound)
  {
    if xs != [] {
      UpToMembers(xs[1..], bound);
      assert xs == [xs[0]] + xs[1..];
    }
  }

  lemma {:induction false} UpToSorted(xs: seq<string>, bound: string)
    requires StrictlySorted(xs)
    ensures StrictlySorted(UpTo(xs, bound))
  {
    if xs != [] {
      UpToSorted(xs[1..], bound);
      UpToMembers(xs[1..], bound);
      var rest := UpTo(xs[1..], bound);
      forall i | 0 <= i < |rest|
        ensures Less(xs[0], rest[i])
      {
        assert rest[i] in xs[1..];
      }
    }
  }

  lemma FilesUpTo(disk: map<string, string>, through: string)
    ensures Files(DirUpTo(disk, through)) == UpTo(Files(disk), through)
  {
    UpToMembers(Files(disk), through);
    UpToSorted(Files(disk), through);
    SortedNamesUnique(SqlOf(DirUpTo(disk, through)).Keys, UpTo(Files(disk), through));
  }

  lemma {:induction false} NotInUpTo(xs: seq<string>, history: map<string, string>, previous: string, head: string)
    requires forall f | f in xs :: f in history <==> AtMost(f, previous)
    ensures NotIn(UpTo(xs, head), history) == Between(xs, previous, head)
    ensures NotIn(xs, history) == After(xs, previous)
  {
    if xs != [] {
      assert xs[0] in xs && forall f | f in xs[1..] :: f in xs;
      NotInUpTo(xs[1..], history, previous, head);
      AtMostTotal(xs[0], previous);
      var rest := UpTo(xs[1..], head);
      if AtMost(xs[0], head) {
        assert UpTo(xs, head) == [xs[0]] + rest && ([xs[0]] + rest)[1..] == rest;
      } else {
        assert UpTo(xs, head) == rest;
      }
    }
  }

  lemma FurtherCovers(f: string, previous: string, head: string)
    ensures AtMost(f, Further(previous, head)) <==> AtMost(f, previous) || AtMost(f, head)
  {
    AtMostTotal(head, previous);
    if Less(previous, head) {
      if AtMost(f, previous) {
        AtMostTransitive(f, previous, head);
      }
    } else if AtMost(f, head) {
      AtMostTransitive(f, head, previous);
    }
  }

  lemma InDir(disk: map<string, string>, through: string)
    ensures forall f | f in UpTo(Files(disk), through) :: f in DirUpTo(disk, through)
    ensures forall f :: f in UpTo(Files(disk), through) <==> f in DirUpTo(disk, through)
  {
    UpToMembers(Files(disk), through);
  }

  lemma RecordedOver(disk: map<string, string>, previous: string, head: string, files: seq<string>)
    requires forall f :: f in files <==> f in DirUpTo(disk, head)
    ensures Added(DirUpTo(disk, previous), files, DirUpTo(disk, head)) == DirUpTo(disk, Further(previous, head))
  {
    var r, want := Added(DirUpTo(disk, previous), files, DirUpTo(disk, head)), DirUpTo(disk, Further(previous, head));
    forall f
      ensures f in r.Keys <==> f in want.Keys
    {
      FurtherCovers(f, previous, head);
    }
    assert r.Keys == want.Keys;
    assert forall f | f in want :: r[f] == disk[f] && want[f] == disk[f];
  }

  lemma RecordedUpTo(disk: map<string, string>, previous: string, head: string)
    requires forall f | f in UpTo(Files(disk), head) :: f in DirUpTo(disk, head)
    ensures Added(DirUpTo(disk, previous), UpTo(Files(disk), head), DirUpTo(disk, head)) == DirUpTo(disk, Further(previous, head))
  {
    InDir(disk, head);
    RecordedOver(disk, previous, head, UpTo(Files(disk), head));
  }

  /** One upgrade: from the files up to `previous` to those up to `head`, wherever `head` lies. */
  lemma UpgradeTo(disk: map<string, string>, previous: string, head: string)
    ensures RunOf(DirUpTo(disk, previous), DirUpTo(disk, head), {})
         == Outcome(DirUpTo(disk, Further(previous, head)), Between(Files(disk), previous, head), None)
  {
    RunAppliesTheRest(DirUpTo(disk, previous), DirUpTo(disk, head));
    FilesUpTo(disk, head);
    NotInUpTo(Files(disk), DirUpTo(disk, previous), previous, head);
    RecordedUpTo(disk, previous, head);
  }

  lemma RecordedEvery(disk: map<string, string>, history: map<string, string>, files: seq<string>)
    requires forall f :: f in files <==> f in disk && IsSql(f)
    requires forall f | f in history :: f in files
    ensures Added(history, files, disk) == SqlOf(disk)
  {
    var r := Added(history, files, disk);
    assert r.Keys == SqlOf(disk).Keys;
  }

  lemma RecordedAll(disk: map<string, string>, history: map<string, string>)
    requires forall f | f in history :: f in disk && IsSql(f)
    ensures Added(history, Files(disk), disk) == SqlOf(disk)
  {
    RecordedEvery(disk, history, Files(disk));
  }

  /** The last upgrade: to every file on disk. */
  lemma UpgradeToAll(disk: map<string, string>, previous: string)
    ensures RunOf(DirUpTo(disk, previous), disk, {}) == Outcome(SqlOf(disk), After(Files(disk), previous), None)
  {
    RunAppliesTheRest(DirUpTo(disk, previous), disk);
    NotInUpTo(Files(disk), DirUpTo(disk, previous), previous, previous);
    RecordedAll(disk, DirUpTo(disk, previous));
  }

  /** The first run, from nothing to the base. */
  lemma UpgradeToBase(disk: map<string, string>, base: string)
    ensures RunOf(map[], DirUpTo(disk, base), {}) == Outcome(DirUpTo(disk, base), UpTo(Files(disk), base), None)
  {
    var dir := DirUpTo(disk, base);
    RunAppliesTheRest(map[], dir);
    FilesUpTo(disk, base);
    AllNew(UpTo(Files(disk), base));
    RecordedAll(dir, map[]);
    assert SqlOf(dir) == dir;
  }

  lemma {:induction false} AllNew(xs: seq<string>)
    ensures NotIn(xs, map[]) == xs
  {
    if xs != [] {
      AllNew(xs[1..]);
    }
  }

  /** One run from nothing over the whole directory. */
  lemma OneShot(disk: map<string, string>)
    ensures RunOf(map[], disk, {}) == Outcome(SqlOf(disk), Files(disk), None)
  {
    RunAppliesTheRest(map[], disk);
    AllNew(Files(disk));
    RecordedAll(disk, map[]);
  }

  lemma SortFiles(disk: map<string, string>)
    ensures Sort(Files(disk)) == Files(disk)
  {
    StrictIsDistinct(Files(disk));
    SortIsUnique(Files(disk), Files(disk));
  }

  /** The boundary each step starts from. */
  function BoundaryBefore(base: string, heads: seq<(string, string)>, i: nat): string
    requires i <= |heads|
  {
    if i == 0 then base else Further(BoundaryBefore(base, heads, i - 1), heads[i - 1].1)
  }

  lemma StepsFrom(sorted: seq<string>, base: string, heads: seq<(string, string)>, from: nat)
    requires from < |heads|
    ensures PlanSteps(sorted, BoundaryBefore(base, heads, from), heads[from..])
         == [UpgradePlan.Step(heads[from].0, Some(heads[from].1), Between(sorted, BoundaryBefore(base, heads, from), heads[from].1))]
            + PlanSteps(sorted, BoundaryBefore(base, heads, from + 1), heads[from + 1..])
  {
    assert heads[from..][0] == heads[from] && heads[from..][1..] == heads[from + 1..];
  }

  lemma {:induction false} StepAt(sorted: seq<string>, base: string, heads: seq<(string, string)>, from: nat, i: nat)
    requires from <= i <= |heads|
    ensures var steps := PlanSteps(sorted, BoundaryBefore(base, heads, from), heads[from..]);
            && |steps| == |heads| - from + 1
            && steps[i - from] == if i < |heads|
                                  then UpgradePlan.Step(heads[i].0, Some(heads[i].1), Between(sorted, BoundaryBefore(base, heads, i), heads[i].1))
                                  else UpgradePlan.Step(LATER, None, After(sorted, BoundaryBefore(base, heads, i)))
    decreases |heads| - from
  {
    if from < |heads| {
      StepsFrom(sorted, base, heads, from);
      StepAt(sorted, base, heads, from + 1, if i > from then i else from + 1);
    }
  }

  /** A step that starts where the history ends at `previous`. */
  ghost predicate StepFrom(step: UpgradePlan.Step, files: seq<string>, previous: string) {
    step.expected == if step.through.Some? then Between(files, previous, step.through.value) else After(files, previous)
  }

  method Upgrade(db: Database, disk: map<string, string>, listing: seq<string>, step: UpgradePlan.Step, ghost previous: string)
      returns (exact: bool)
    requires Lists(listing, disk) && StepFrom(step, Files(disk), previous)
    requires db.history == DirUpTo(disk, previous)
    modifies db
    ensures exact
    ensures db.history == if step.through.Some? then DirUpTo(disk, Further(previous, step.through.value)) else SqlOf(disk)
  {
    var applied, stopped;
    if step.through.Some? {
      UpgradeTo(disk, previous, step.through.value);
      var kept := SortedSql(disk, listing);
      InDir(disk, step.through.value);
      UpToSorted(kept, step.through.value);
      StrictIsDistinct(UpTo(kept, step.through.value));
      applied, stopped := db.RunMigrations(DirUpTo(disk, step.through.value), UpTo(kept, step.through.value), {});
    } else {
      UpgradeToAll(disk, previous);
      applied, stopped := db.RunMigrations(disk, listing, {});
    }
    exact := applied == step.expected;
  }

  method UpgradeFresh(disk: map<string, string>, listing: seq<string>, base: string) returns (db: Database, applied: seq<string>)
    requires Lists(listing, disk)
    ensures fresh(db) && db.history == DirUpTo(disk, base) && applied == UpTo(Files(disk), base)
  {
    db := new Database();
    UpgradeToBase(disk, base);
    var kept := SortedSql(disk, listing);
    InDir(disk, base);
    UpToSorted(kept, base);
    StrictIsDistinct(UpTo(kept, base));
    var stopped;
    applied, stopped := db.RunMigrations(DirUpTo(disk, base), UpTo(kept, base), {});
  }

  lemma PlanStepFrom(sorted: seq<string>, base: string, heads: seq<(string, string)>, i: nat)
    requires i <= |heads|
    ensures |PlanSteps(sorted, base, heads)| == |heads| + 1
    ensures var step := PlanSteps(sorted, base, heads)[i];
            && StepFrom(step, sorted, BoundaryBefore(base, heads, i))
            && step.through == if i < |heads| then Some(heads[i].1) else None
  {
    assert heads[0..] == heads;
    StepAt(sorted, base, heads, 0, i);
  }

  /** The history after `i` steps of the plan. */
  function HistoryAfter(disk: map<string, string>, base: string, heads: seq<(string, string)>, i: nat): map<string, string> {
    if i <= |heads| then DirUpTo(disk, BoundaryBefore(base, heads, i)) else SqlOf(disk)
  }

  method FollowStep(db: Database, disk: map<string, string>, listing: seq<string>, base: string, heads: seq<(string, string)>, i: nat, step: UpgradePlan.Step)
      returns (exact: bool)
    requires Lists(listing, disk) && i <= |heads|
    requires i < |PlanSteps(Files(disk), base, heads)| && step == PlanSteps(Files(disk), base, heads)[i]
    requires db.history == HistoryAfter(disk, base, heads, i)
    modifies db
    ensures exact
    ensures db.history == HistoryAfter(disk, base, heads, i + 1)
  {
    PlanStepFrom(Files(disk), base, heads, i);
    exact := Upgrade(db, disk, listing, step, BoundaryBefore(base, heads, i));
  }

  method FollowSteps(db: Database, disk: map<string, string>, listing: seq<string>, base: string, heads: seq<(string, string)>, steps: seq<UpgradePlan.Step>)
      returns (exact: seq<bool>)
    requires Lists(listing, disk) && steps == PlanSteps(Files(disk), base, heads)
    requires db.history == DirUpTo(disk, base)
    modifies db
    ensures |exact| == |steps| && forall i | 0 <= i < |exact| :: exact[i]
    ensures db.history == SqlOf(disk)
  {
    exact := [];
    PlanStepFrom(Files(disk), base, heads, 0);
    for i := 0 to |steps|
      invariant |exact| == i && forall k | 0 <= k < |exact| :: exact[k]
      invariant db.history == HistoryAfter(disk, base, heads, i)
    {
      var ok := FollowStep(db, disk, listing, base, heads, i, steps[i]);
      exact := exact + [ok];
    }
  }

  /** Case H as a walk: for any base and heads, even ones the plan reports, every run applies exactly
      the files its step expects, and the database ends with the history of a one-shot deployment. */
  method Walk(disk: map<string, string>, listing: seq<string>, base: string, heads: seq<(string, string)>)
      returns (db: Database, plan: Plan, exact: seq<bool>)
    requires Lists(listing, disk)
    ensures plan == SliceUpgradePlan(Files(disk), base, heads)
    ensures |exact| == |plan.steps| + 1 && forall i | 0 <= i < |exact| :: exact[i]
    ensures db.history == RunOf(map[], disk, {}).history
  {
    OneShot(disk);
    SortFiles(disk);
    var files := SortedSql(disk, listing);
    plan := MakePlan(files, base, heads);
    var applied;
    db, applied := UpgradeFresh(disk, listing, base);
    var later := FollowSteps(db, disk, listing, base, heads, plan.steps);
    exact := [applied == plan.base] + later;
  }
}
