/** The migration runner. */
module Runner {
  import opened Options
  import opened Text
  import opened Migrations
  import opened UpgradePlan

  /** A recorded file whose bytes have changed, or a file whose SQL fails. */
  datatype Stop = Tampered(file: string) | SqlFailed(file: string)

  /** What a run leaves: the committed history, the files it applied, and why it stopped, if it did. */
  datatype Outcome = Outcome(history: map<string, string>, applied: seq<string>, stopped: Option<Stop>)

  function SqlOf(dir: map<string, string>): (sql: map<string, string>)
    ensures forall f :: f in sql <==> f in dir && IsSql(f)
    ensures forall f | f in sql :: sql[f] == dir[f]
  {
    map f | f in dir && IsSql(f) :: dir[f]
  }

  /** The runner on the remaining files: `existing` is the history it read at the start. */
  function Apply(files: seq<string>, dir: map<string, string>, broken: set<string>, existing: map<string, string>, o: Outcome): Outcome
    requires forall f | f in files :: f in dir
  {
    if files == [] then o
    else
      var f := files[0];
      assert f in files && forall g | g in files[1..] :: g in files;
      if f in existing then
        if existing[f] != dir[f] then o.(stopped := Some(Tampered(f))) else Apply(files[1..], dir, broken, existing, o)
      else if f in broken then o.(stopped := Some(SqlFailed(f)))
      else Apply(files[1..], dir, broken, existing, Outcome(o.history[f := dir[f]], o.applied + [f], None))
  }

  ghost function RunOf(history: map<string, string>, dir: map<string, string>, broken: set<string>): Outcome {
    Apply(SortedNames(SqlOf(dir).Keys), dir, broken, history, Outcome(history, [], None))
  }

  lemma NextFile(files: seq<string>, dir: map<string, string>, broken: set<string>, existing: map<string, string>, o: Outcome, i: nat, f: string)
    requires (forall g | g in files :: g in dir) && i < |files| && f == files[i]
    ensures (forall g | g in files[i..] :: g in dir) && (forall g | g in files[i + 1..] :: g in dir)
    ensures Apply(files[i..], dir, broken, existing, o)
         == if f in existing
            then if existing[f] != dir[f] then o.(stopped := Some(Tampered(f))) else Apply(files[i + 1..], dir, broken, existing, o)
            else if f in broken then o.(stopped := Some(SqlFailed(f)))
            else Apply(files[i + 1..], dir, broken, existing, Outcome(o.history[f := dir[f]], o.applied + [f], None))
  {
    assert files[i..][0] == files[i] && files[i..][1..] == files[i + 1..];
  }

  // ---- what a run leaves, in terms of the directory and the history ----------------------------------

  /** A file the run cannot pass: recorded at another digest, or unrecorded with SQL that raises. */
  predicate Blocks(history: map<string, string>, dir: map<string, string>, broken: set<string>, f: string) {
    f in dir && (if f in history then history[f] != dir[f] else f in broken)
  }

  /** The run stops at the first file in name order that it cannot pass, and not without one; it applies
      exactly the unrecorded files before that, in name order; and the history is the old one and those
      files at their digests. */
  ghost predicate RunMeans(history: map<string, string>, dir: map<string, string>, broken: set<string>, o: Outcome) {
    && StopMeans(history, dir, broken, o.stopped)
    && StrictlySorted(o.applied)
    && (forall f :: f in o.applied <==> f in dir && IsSql(f) && f !in history && Reached(o.stopped, f))
    && (forall f :: f in o.history <==> f in history || f in o.applied)
    && (forall f | f in o.applied :: f in dir && o.history[f] == dir[f])
    && (forall f | f in history :: o.history[f] == history[f])
  }

  ghost predicate StopMeans(history: map<string, string>, dir: map<string, string>, broken: set<string>, stopped: Option<Stop>) {
    match stopped
    case None => forall f | f in dir && IsSql(f) :: !Blocks(history, dir, broken, f)
    case Some(Tampered(f)) => FirstBlocking(history, dir, broken, f) && f in history
    case Some(SqlFailed(f)) => FirstBlocking(history, dir, broken, f) && f !in history
  }

  ghost predicate FirstBlocking(history: map<string, string>, dir: map<string, string>, broken: set<string>, f: string) {
    && IsSql(f) && Blocks(history, dir, broken, f)
    && forall g | g in dir && IsSql(g) && Less(g, f) :: !Blocks(history, dir, broken, g)
  }

  /** The run got past the file. */
  predicate Reached(stopped: Option<Stop>, f: string) {
    stopped.None? || Less(f, stopped.value.file)
  }

  function NotIn(files: seq<string>, history: map<string, string>): seq<string> {
    if files == [] then [] else (if files[0] in history then [] else [files[0]]) + NotIn(files[1..], history)
  }

  lemma {:induction false} NotInMembers(files: seq<string>, history: map<string, string>)
    ensures forall f :: f in NotIn(files, history) <==> f in files && f !in history
  {
    if files != [] {
      NotInMembers(files[1..], history);
      assert files == [files[0]] + files[1..];
    }
  }

  lemma {:induction false} NotInSorted(files: seq<string>, history: map<string, string>)
    requires StrictlySorted(files)
    ensures StrictlySorted(NotIn(files, history))
  {
    if files != [] {
      NotInSorted(files[1..], history);
      NotInMembers(files[1..], history);
      var rest := NotIn(files[1..], history);
      forall i | 0 <= i < |rest|
        ensures Less(files[0], rest[i])
      {
        assert rest[i] in files[1..];
      }
      assert NotIn(files, history) == rest || NotIn(files, history) == [files[0]] + rest;
    }
  }

  lemma NextNotIn(applied: seq<string>, f: string, rest: seq<string>, history: map<string, string>)
    ensures applied + NotIn([f] + rest, history) == (if f in history then applied else applied + [f]) + NotIn(rest, history)
  {
    assert ([f] + rest)[1..] == rest;
    Reassociate(applied, if f in history then [] else [f], NotIn(rest, history));
    assert applied + [] == applied;
  }

  /** How many files the run gets past. */
  function Passed(files: seq<string>, dir: map<string, string>, broken: set<string>, existing: map<string, string>): (k: nat)
    ensures k <= |files| && (forall i | 0 <= i < k :: !Blocks(existing, dir, broken, files[i]))
    ensures k < |files| ==> Blocks(existing, dir, broken, files[k])
  {
    if files == [] || Blocks(existing, dir, broken, files[0]) then 0
    else
      var k := Passed(files[1..], dir, broken, existing);
      assert forall i | 1 <= i < 1 + k :: files[i] == files[1..][i - 1];
      1 + k
  }

  function StopAt(existing: map<string, string>, f: string): Stop {
    if f in existing then Tampered(f) else SqlFailed(f)
  }

  /** The history with these files at their digests. */
  function Added(history: map<string, string>, files: seq<string>, dir: map<string, string>): map<string, string>
    requires forall f | f in files :: f in dir
  {
    map f | f in history.Keys + (set g | g in files) :: if f in files then dir[f] else history[f]
  }

  lemma AddedFirst(history: map<string, string>, f: string, rest: seq<string>, dir: map<string, string>)
    requires f in dir && forall g | g in rest :: g in dir
    ensures forall g | g in [f] + rest :: g in dir
    ensures Added(history, [f] + rest, dir) == Added(history[f := dir[f]], rest, dir)
    ensures Added(history, [], dir) == history
  {
    assert forall g :: g in [f] + rest <==> g == f || g in rest;
  }

  /** What is left after the first file, if the run gets past it. */
  function Past(f: string, dir: map<string, string>, existing: map<string, string>, o: Outcome): Outcome
    requires f in dir
  {
    if f in existing then o else Outcome(o.history[f := dir[f]], o.applied + [f], None)
  }

  lemma ApplyFirst(files: seq<string>, dir: map<string, string>, broken: set<string>, existing: map<string, string>, o: Outcome)
    requires (forall f | f in files :: f in dir) && files != [] && o.stopped.None?
    ensures files[0] in dir && forall f | f in files[1..] :: f in dir
    ensures var k := Passed(files, dir, broken, existing);
            Apply(files, dir, broken, existing, o)
            == if k == 0 then o.(stopped := Some(StopAt(existing, files[0])))
               else Apply(files[1..], dir, broken, existing, Past(files[0], dir, existing, o))
    ensures Passed(files, dir, broken, existing) > 0 ==> Passed(files[1..], dir, broken, existing) == Passed(files, dir, broken, existing) - 1
  {
    assert files[0] in files && forall f | f in files[1..] :: f in files;
  }

  lemma {:induction false} ApplyGetsPast(files: seq<string>, dir: map<string, string>, broken: set<string>, existing: map<string, string>, o: Outcome)
    requires (forall f | f in files :: f in dir) && o.stopped.None?
    ensures var k := Passed(files, dir, broken, existing);
            && (forall f | f in NotIn(files[..k], existing) :: f in dir)
            && Apply(files, dir, broken, existing, o)
            == Outcome(Added(o.history, NotIn(files[..k], existing), dir), o.applied + NotIn(files[..k], existing),
                       if k < |files| then Some(StopAt(existing, files[k])) else None)
  {
    var k := Passed(files, dir, broken, existing);
    NotInMembers(files[..k], existing);
    if files != [] {
      ApplyFirst(files, dir, broken, existing, o);
    }
    if k == 0 {
      AddedNothing(o.history, dir);
      assert NotIn(files[..0], existing) == [] && o.applied + [] == o.applied;
    } else {
      ApplyGetsPast(files[1..], dir, broken, existing, Past(files[0], dir, existing, o));
      GetsPastOne(files, dir, existing, o, k);
    }
  }

  lemma AddedNothing(history: map<string, string>, dir: map<string, string>)
    ensures Added(history, [], dir) == history
  {
  }

  lemma GetsPastOne(files: seq<string>, dir: map<string, string>, existing: map<string, string>, o: Outcome, k: nat)
    requires (forall f | f in files :: f in dir) && 0 < k <= |files|
    ensures forall f | f in NotIn(files[..k], existing) || f in NotIn(files[1..][..k - 1], existing) :: f in dir
    ensures var f, later := files[0], NotIn(files[1..][..k - 1], existing);
            var next := Past(f, dir, existing, o);
            && Added(o.history, NotIn(files[..k], existing), dir) == Added(next.history, later, dir)
            && o.applied + NotIn(files[..k], existing) == next.applied + later
  {
    var f, rest := files[0], files[1..][..k - 1];
    var later := NotIn(rest, existing);
    assert files[..k] == [f] + rest && ([f] + rest)[1..] == rest;
    NotInMembers(files[..k], existing);
    NotInMembers(rest, existing);
    NextNotIn(o.applied, f, rest, existing);
    if f !in existing {
      AddedFirst(o.history, f, later, dir);
    }
  }

  /** Where the run stops, and which files it got past. */
  lemma StopIsFirst(history: map<string, string>, dir: map<string, string>, broken: set<string>, files: seq<string>, k: nat, stopped: Option<Stop>)
    requires StrictlySorted(files) && (forall f :: f in files <==> f in dir && IsSql(f)) && k <= |files|
    requires forall i | 0 <= i < k :: !Blocks(history, dir, broken, files[i])
    requires k < |files| ==> Blocks(history, dir, broken, files[k])
    requires stopped == if k < |files| then Some(StopAt(history, files[k])) else None
    ensures StopMeans(history, dir, broken, stopped)
    ensures forall f :: f in files[..k] <==> f in files && Reached(stopped, f)
  {
    if k < |files| {
      StopsAtFirst(history, dir, broken, files, k);
    } else {
      assert files[..k] == files;
    }
  }

  lemma AddedMeans(history: map<string, string>, files: seq<string>, dir: map<string, string>)
    requires forall f | f in files :: f in dir && f !in history
    ensures var r := Added(history, files, dir);
            && (forall f :: f in r <==> f in history || f in files)
            && (forall f | f in files :: r[f] == dir[f]) && forall f | f in history :: r[f] == history[f]
  {
  }

  lemma OutcomeMeans(history: map<string, string>, dir: map<string, string>, broken: set<string>, files: seq<string>, k: nat, o: Outcome)
    requires StrictlySorted(files) && (forall f :: f in files <==> f in dir && IsSql(f)) && k <= |files|
    requires StopMeans(history, dir, broken, o.stopped) && forall f :: f in files[..k] <==> f in files && Reached(o.stopped, f)
    requires StrictlySorted(o.applied) && forall f :: f in o.applied <==> f in files[..k] && f !in history
    requires (forall f | f in o.applied :: f in dir) && o.history == Added(history, o.applied, dir)
    ensures RunMeans(history, dir, broken, o)
  {
    AddedMeans(history, o.applied, dir);
  }

  lemma PassedSorted(files: seq<string>, k: nat, history: map<string, string>)
    requires StrictlySorted(files) && k <= |files|
    ensures StrictlySorted(NotIn(files[..k], history)) && forall f :: f in NotIn(files[..k], history) <==> f in files[..k] && f !in history
  {
    NotInMembers(files[..k], history);
    NotInSorted(files[..k], history);
  }

  lemma RunMeansWhat(history: map<string, string>, dir: map<string, string>, broken: set<string>)
    ensures RunMeans(history, dir, broken, RunOf(history, dir, broken))
  {
    var files := SortedNames(SqlOf(dir).Keys);
    var k := Passed(files, dir, broken, history);
    var applied := NotIn(files[..k], history);
    ApplyGetsPast(files, dir, broken, history, Outcome(history, [], None));
    assert [] + applied == applied;
    PassedSorted(files, k, history);
    StopIsFirst(history, dir, broken, files, k, if k < |files| then Some(StopAt(history, files[k])) else None);
    OutcomeMeans(history, dir, broken, files, k, RunOf(history, dir, broken));
  }

  lemma EarlierPlace(files: seq<string>, i: nat, k: nat)
    requires StrictlySorted(files) && i < |files| && k < |files| && Less(files[i], files[k])
    ensures i < k
  {
    LessTrichotomy(files[k], files[i]);
  }

  lemma StopsAtFirst(history: map<string, string>, dir: map<string, string>, broken: set<string>, files: seq<string>, k: nat)
    requires StrictlySorted(files) && (forall f :: f in files <==> f in dir && IsSql(f)) && k < |files|
    requires Blocks(history, dir, broken, files[k]) && forall i | 0 <= i < k :: !Blocks(history, dir, broken, files[i])
    ensures FirstBlocking(history, dir, broken, files[k])
    ensures forall f :: f in files[..k] <==> f in files && Less(f, files[k])
  {
    forall f
      ensures f in files[..k] <==> f in files && Less(f, files[k])
    {
      if f in files && Less(f, files[k]) {
        var i :| 0 <= i < |files| && files[i] == f;
        EarlierPlace(files, i, k);
      }
    }
    assert files[k] in files;
    forall g | g in dir && IsSql(g) && Less(g, files[k])
      ensures !Blocks(history, dir, broken, g)
    {
      assert g in files[..k];
      var i :| 0 <= i < k && files[i] == g;
    }
  }

  class Database {
    /** `schema_migrations`: the applied names and the digests they were applied at. */
    var history: map<string, string>

    constructor ()
      ensures history == map[]
    {
      history := map[];
    }

    /** `runMigrations`: each file in its own transaction, in name order. `broken` are the files whose
        SQL raises; such a file's transaction is rolled back and the run stops. */
    method RunMigrations(dir: map<string, string>, listing: seq<string>, broken: set<string>)
        returns (applied: seq<string>, stopped: Option<Stop>)
      requires Lists(listing, dir)
      modifies this
      ensures Outcome(history, applied, stopped) == RunOf(old(history), dir, broken)
      ensures RunMeans(old(history), dir, broken, Outcome(history, applied, stopped))
    {
      var files := SortedSql(dir, listing);
      applied, stopped := ApplyFiles(files, dir, broken);
      RunMeansWhat(old(history), dir, broken);
    }

    /** The loop over the sorted files. */
    method ApplyFiles(files: seq<string>, dir: map<string, string>, broken: set<string>)
        returns (applied: seq<string>, stopped: Option<Stop>)
      requires forall f | f in files :: f in dir
      modifies this
      ensures Outcome(history, applied, stopped) == Apply(files, dir, broken, old(history), Outcome(old(history), [], None))
    {
      var existing := history;
      applied, stopped := [], None;
      ghost var goal := Apply(files, dir, broken, existing, Outcome(history, applied, stopped));
      var i := 0;
      assert files[0..] == files;
      while i < |files|
        invariant 0 <= i <= |files| && stopped.None?
        invariant Apply(files[i..], dir, broken, existing, Outcome(history, applied, stopped)) == goal
      {
        var file := files[i];
        NextFile(files, dir, broken, existing, Outcome(history, applied, stopped), i, file);
        if file in existing {
          if existing[file] != dir[file] {
            stopped := Some(Tampered(file));
            return;
          }
        } else if file in broken {
          stopped := Some(SqlFailed(file));
          return;
        } else {
          history := history[file := dir[file]];
          applied := applied + [file];
        }
        i := i + 1;
      }
    }
  }

  method SortedSql(dir: map<string, string>, listing: seq<string>) returns (files: seq<string>)
    requires Lists(listing, dir)
    ensures files == SortedNames(SqlOf(dir).Keys)
  {
    var kept := [];
    for i := 0 to |listing|
      invariant Distinct(kept) && forall f :: f in kept <==> f in listing[..i] && IsSql(f)
    {
      assert listing[..i + 1] == listing[..i] + [listing[i]];
      if IsSql(listing[i]) {
        kept := kept + [listing[i]];
      }
    }
    assert listing[..|listing|] == listing;
    SortListing(SqlOf(dir).Keys, kept);
    files := Sort(kept);
  }

  // ---- what a run does -------------------------------------------------------------------------

  /** No recorded file has changed since it was applied. */
  predicate Untampered(history: map<string, string>, dir: map<string, string>) {
    forall f | f in history && f in dir :: history[f] == dir[f]
  }

  lemma RecordedTail(history: map<string, string>, files: seq<string>, dir: map<string, string>)
    requires files != [] && forall f | f in files :: f in dir
    ensures forall f | f in files[1..] :: f in dir
    ensures Added(history[files[0] := dir[files[0]]], files[1..], dir) == Added(history, files, dir)
    ensures files[0] in history && history[files[0]] == dir[files[0]] ==> Added(history, files[1..], dir) == Added(history, files, dir)
  {
    assert forall g :: g in files <==> g == files[0] || g in files[1..];
  }

  lemma {:induction false} ApplyAll(files: seq<string>, dir: map<string, string>, existing: map<string, string>, o: Outcome)
    requires (forall f | f in files :: f in dir) && Untampered(existing, dir) && o.stopped.None?
    requires forall f | f in files && f in o.history :: o.history[f] == dir[f]
    requires forall f | f in existing :: f in o.history
    ensures Apply(files, dir, {}, existing, o) == Outcome(Added(o.history, files, dir), o.applied + NotIn(files, existing), None)
  {
    if files == [] {
      assert Added(o.history, files, dir) == o.history;
    } else {
      var f, rest := files[0], files[1..];
      assert f in files && forall g | g in rest :: g in files;
      RecordedTail(o.history, files, dir);
      var next := if f in existing then o else Outcome(o.history[f := dir[f]], o.applied + [f], None);
      ApplyAll(rest, dir, existing, next);
      NextNotIn(o.applied, f, rest, existing);
      assert files == [f] + rest;
    }
  }

  /** A run over an untampered directory with no failing file applies, in name order, exactly the files
      not yet in the history, and records every file of the directory. */
  lemma RunAppliesTheRest(history: map<string, string>, dir: map<string, string>)
    requires Untampered(history, dir)
    ensures var files := SortedNames(SqlOf(dir).Keys);
            RunOf(history, dir, {}) == Outcome(Added(history, files, dir), NotIn(files, history), None)
  {
    var files := SortedNames(SqlOf(dir).Keys);
    ApplyAll(files, dir, history, Outcome(history, [], None));
    assert [] + NotIn(files, history) == NotIn(files, history);
  }

  lemma {:induction false} NothingLeft(files: seq<string>, history: map<string, string>)
    requires forall f | f in files :: f in history
    ensures NotIn(files, history) == []
  {
    if files != [] {
      assert files[0] in files && forall f | f in files[1..] :: f in files;
      NothingLeft(files[1..], history);
    }
  }

  /** Running again applies nothing and changes nothing. */
  lemma RunTwiceAppliesNothing(history: map<string, string>, dir: map<string, string>)
    requires Untampered(history, dir)
    ensures var once := RunOf(history, dir, {}); RunOf(once.history, dir, {}) == Outcome(once.history, [], None)
  {
    var files := SortedNames(SqlOf(dir).Keys);
    RunAppliesTheRest(history, dir);
    var once := Added(history, files, dir);
    RunAppliesTheRest(once, dir);
    NothingLeft(files, once);
    RecordedAgain(history, files, dir);
  }

  lemma RecordedAgain(history: map<string, string>, files: seq<string>, dir: map<string, string>)
    requires forall f | f in files :: f in dir
    ensures Added(Added(history, files, dir), files, dir) == Added(history, files, dir)
  {
  }

  /** Whatever stops a run, what it committed is a first part of what it would have applied: the
      history never has a file without the pending files before it. */
  lemma {:induction false} StoppedRunIsAPrefix(files: seq<string>, dir: map<string, string>, broken: set<string>, existing: map<string, string>, o: Outcome)
    requires forall f | f in files :: f in dir
    ensures var r := Apply(files, dir, broken, existing, o);
            exists k :: 0 <= k <= |files| && r.applied == o.applied + NotIn(files[..k], existing)
                        && (r.stopped.None? && o.stopped.None? ==> k == |files|)
  {
    if files == [] {
      assert o.applied + NotIn(files[..0], existing) == o.applied;
    } else {
      var f, rest := files[0], files[1..];
      assert f in files && forall g | g in rest :: g in files;
      if (f in existing && existing[f] != dir[f]) || (f !in existing && f in broken) {
        assert o.applied + NotIn(files[..0], existing) == o.applied;
      } else {
        var next := if f in existing then o else Outcome(o.history[f := dir[f]], o.applied + [f], None);
        StoppedRunIsAPrefix(rest, dir, broken, existing, next);
        var r := Apply(rest, dir, broken, existing, next);
        var k :| 0 <= k <= |rest| && r.applied == next.applied + NotIn(rest[..k], existing)
                 && (r.stopped.None? && next.stopped.None? ==> k == |rest|);
        assert files[..k + 1] == [f] + rest[..k];
        NextNotIn(o.applied, f, rest[..k], existing);
      }
    }
  }
}
