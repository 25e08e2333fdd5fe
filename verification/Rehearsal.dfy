/** The deployed rehearsal's decisions about the migration history it wrote and the history it finds
    after the suites. */
module Rehearsal {
  import opened Options
  import opened Text
  import opened Migrations
  import opened Prefix
  import opened ManifestCheck
  import opened AcceptedPrefixes

  /** A row of `schema_migrations`. */
  datatype Row = Row(name: string, sha256: string, appliedAt: string)

  function NameOf(r: Row): string { r.name }

  function RowNames(rows: seq<Row>): (names: seq<string>)
    ensures |names| == |rows| && forall i | 0 <= i < |names| :: names[i] == rows[i].name
  {
    if rows == [] then [] else [rows[0].name] + RowNames(rows[1..])
  }

  /** `name` is the table's primary key. */
  ghost predicate UniqueNames(rows: seq<Row>) { Distinct(RowNames(rows)) }

  // ---- the applied set -------------------------------------------------------------------------

  datatype Problem =
    | AppliedDiffers(applied: nat, onDisk: nat, missing: seq<string>, extra: seq<string>)
    | HistoryEnds(name: string)
    | HistoryName(at: nat, found: string, accepted: string)
    | HistoryDigest(name: string, found: string, accepted: string)

  function HistoryProblem(ordered: seq<Row>, at: nat, e: Entry): seq<Problem> {
    if at >= |ordered| then [HistoryEnds(e.name)]
    else if ordered[at].name != e.name then [HistoryName(at, ordered[at].name, e.name)]
    else if ordered[at].sha256 != e.sha256 then [HistoryDigest(e.name, ordered[at].sha256, e.sha256)]
    else []
  }

  function HistoryProblems(ordered: seq<Row>, at: nat, prefix: seq<Entry>): seq<Problem>
    decreases |prefix|
  {
    if prefix == [] then [] else HistoryProblem(ordered, at, prefix[0]) + HistoryProblems(ordered, at + 1, prefix[1..])
  }

  function AppliedSetProblems(applied: seq<string>, onDisk: seq<string>, history: seq<Row>, prefix: seq<Entry>): seq<Problem> {
    var disk := Sort(onDisk);
    (if applied != disk then [AppliedDiffers(|applied|, |disk|, Without(disk, applied), Without(applied, disk))] else [])
    + HistoryProblems(SortBy(NameOf, history), 0, prefix)
  }

  lemma NextHistoryProblem(found: seq<Problem>, ordered: seq<Row>, at: nat, prefix: seq<Entry>)
    requires at < |prefix|
    ensures found + HistoryProblems(ordered, at, prefix[at..])
         == (found + HistoryProblem(ordered, at, prefix[at])) + HistoryProblems(ordered, at + 1, prefix[at + 1..])
  {
    assert prefix[at..][0] == prefix[at] && prefix[at..][1..] == prefix[at + 1..];
    Reassociate(found, HistoryProblem(ordered, at, prefix[at]), HistoryProblems(ordered, at + 1, prefix[at + 1..]));
  }

  method CheckAppliedSet(applied: seq<string>, onDisk: seq<string>, history: seq<Row>, prefix: seq<Entry>)
      returns (problems: seq<Problem>)
    ensures problems == AppliedSetProblems(applied, onDisk, history, prefix)
    ensures Distinct(onDisk) ==> (problems == [] <==> InNameOrder(applied, onDisk) && BeginsWith(SortBy(NameOf, history), 0, prefix))
    ensures Distinct(onDisk) ==> forall problem :: problem in problems <==> Due(applied, onDisk, SortBy(NameOf, history), prefix, problem)
  {
    problems := [];
    var disk := Sort(onDisk);
    if applied != disk {
      problems := [AppliedDiffers(|applied|, |disk|, Without(disk, applied), Without(applied, disk))];
    }
    ghost var found := problems;
    var ordered := SortBy(NameOf, history);
    for at := 0 to |prefix|
      invariant problems + HistoryProblems(ordered, at, prefix[at..]) == found + HistoryProblems(ordered, 0, prefix)
    {
      var name, sha256 := prefix[at].name, prefix[at].sha256;
      NextHistoryProblem(problems, ordered, at, prefix);
      ghost var next := problems + HistoryProblem(ordered, at, prefix[at]);
      if at >= |ordered| {
        problems := problems + [HistoryEnds(name)];
      } else if ordered[at].name != name {
        problems := problems + [HistoryName(at, ordered[at].name, name)];
      } else if ordered[at].sha256 != sha256 {
        problems := problems + [HistoryDigest(name, ordered[at].sha256, sha256)];
      }
      assert problems == next;
    }
    VerdictMeans(applied, onDisk, history, prefix);
  }

  ghost predicate BeginsWith(ordered: seq<Row>, at: nat, prefix: seq<Entry>) {
    && (prefix != [] ==> at + |prefix| <= |ordered|)
    && forall i | 0 <= i < |prefix| :: Recorded(ordered[at + i], prefix[i])
  }

  predicate Recorded(r: Row, e: Entry) {
    r.name == e.name && r.sha256 == e.sha256
  }

  lemma BeginsWithTail(ordered: seq<Row>, at: nat, prefix: seq<Entry>)
    requires prefix != [] && BeginsWith(ordered, at, prefix)
    ensures at < |ordered| && Recorded(ordered[at], prefix[0]) && BeginsWith(ordered, at + 1, prefix[1..])
  {
    var first, rest := prefix[0], prefix[1..];
    assert Recorded(ordered[at + 0], first);
    forall j | 0 <= j < |rest|
      ensures Recorded(ordered[at + 1 + j], rest[j])
    {
      var e := prefix[j + 1];
      assert Recorded(ordered[at + (j + 1)], e);
    }
  }

  lemma BeginsWithCons(ordered: seq<Row>, at: nat, prefix: seq<Entry>)
    requires prefix != [] && at < |ordered| && Recorded(ordered[at], prefix[0]) && BeginsWith(ordered, at + 1, prefix[1..])
    ensures BeginsWith(ordered, at, prefix)
  {
    var rest := prefix[1..];
    forall i | 0 <= i < |prefix|
      ensures Recorded(ordered[at + i], prefix[i])
    {
      if i > 0 {
        var e := rest[i - 1];
        assert Recorded(ordered[at + 1 + (i - 1)], e);
      }
    }
  }

  lemma {:induction false} HistoryProblemsNone(ordered: seq<Row>, at: nat, prefix: seq<Entry>)
    ensures HistoryProblems(ordered, at, prefix) == [] <==> BeginsWith(ordered, at, prefix)
    decreases |prefix|
  {
    if prefix != [] {
      HistoryProblemsNone(ordered, at + 1, prefix[1..]);
      if BeginsWith(ordered, at, prefix) {
        BeginsWithTail(ordered, at, prefix);
      } else if at < |ordered| && Recorded(ordered[at], prefix[0]) && BeginsWith(ordered, at + 1, prefix[1..]) {
        BeginsWithCons(ordered, at, prefix);
      }
      var first, later := HistoryProblem(ordered, at, prefix[0]), HistoryProblems(ordered, at + 1, prefix[1..]);
      assert first + later == [] <==> first == [] && later == [];
    }
  }

  // ---- what the check reports ------------------------------------------------------------------------

  /** The files of the listing, in name order. */
  ghost predicate InNameOrder(applied: seq<string>, onDisk: seq<string>) {
    StrictlySorted(applied) && forall f :: f in applied <==> f in onDisk
  }

  lemma SortedListingIsInNameOrder(applied: seq<string>, onDisk: seq<string>)
    requires Distinct(onDisk)
    ensures applied == Sort(onDisk) <==> InNameOrder(applied, onDisk)
  {
    SortSorts(onDisk);
    SortDistinct(onDisk);
    if InNameOrder(applied, onDisk) {
      SortToStrict(onDisk, applied);
    }
  }

  /** The rows in name order. */
  ghost predicate OrderedBy(ordered: seq<Row>, history: seq<Row>) {
    multiset(ordered) == multiset(history) && forall i, j | 0 <= i < j < |ordered| :: Less(ordered[i].name, ordered[j].name)
  }

  /** The order of a history with unique names: the row at a place is the one with that many names before
      it. */
  lemma SortedHistoryIsOrdered(history: seq<Row>)
    requires UniqueNames(history)
    ensures OrderedBy(SortBy(NameOf, history), history)
  {
    var ordered := SortBy(NameOf, history);
    SortedRowNames(history);
    assert forall i, j | 0 <= i < j < |ordered| :: RowNames(ordered)[i] == ordered[i].name && RowNames(ordered)[j] == ordered[j].name;
  }

  /** The check passes exactly when what was applied is the files on disk in name order, and the history
      in name order begins with the prefix, name by name and digest by digest. */
  lemma AppliedSetPassesIff(applied: seq<string>, onDisk: seq<string>, history: seq<Row>, prefix: seq<Entry>)
    requires Distinct(onDisk)
    ensures AppliedSetProblems(applied, onDisk, history, prefix) == []
       <==> InNameOrder(applied, onDisk) && BeginsWith(SortBy(NameOf, history), 0, prefix)
  {
    SortedListingIsInNameOrder(applied, onDisk);
    HistoryProblemsNone(SortBy(NameOf, history), 0, prefix);
  }

  /** When each problem is due. */
  ghost predicate Due(applied: seq<string>, onDisk: seq<string>, ordered: seq<Row>, prefix: seq<Entry>, problem: Problem) {
    match problem
    case AppliedDiffers(count, diskCount, missing, extra) =>
      && !InNameOrder(applied, onDisk) && count == |applied| && diskCount == |onDisk|
      && StrictlySorted(missing) && (forall f :: f in missing <==> f in onDisk && f !in applied)
      && Kept(applied, onDisk, extra)
    case _ => exists at :: 0 <= at < |prefix| && PlaceDue(ordered, at, prefix[at], problem)
  }

  /** The history's place `at` against the prefix's entry. */
  predicate PlaceDue(ordered: seq<Row>, at: nat, e: Entry, problem: Problem) {
    match problem
    case HistoryEnds(name) => at >= |ordered| && name == e.name
    case HistoryName(place, found, accepted) => place == at < |ordered| && found == ordered[at].name != e.name == accepted
    case HistoryDigest(name, found, accepted) => at < |ordered| && ordered[at].name == e.name == name && found == ordered[at].sha256 != e.sha256 == accepted
    case AppliedDiffers(_, _, _, _) => false
  }

  ghost predicate SomePlaceDue(ordered: seq<Row>, at: nat, prefix: seq<Entry>, problem: Problem) {
    exists i :: 0 <= i < |prefix| && PlaceDue(ordered, at + i, prefix[i], problem)
  }

  lemma SomePlaceDueSplit(ordered: seq<Row>, at: nat, prefix: seq<Entry>, problem: Problem)
    requires prefix != []
    ensures SomePlaceDue(ordered, at, prefix, problem)
       <==> PlaceDue(ordered, at, prefix[0], problem) || SomePlaceDue(ordered, at + 1, prefix[1..], problem)
  {
    if SomePlaceDue(ordered, at + 1, prefix[1..], problem) {
      var i :| 0 <= i < |prefix[1..]| && PlaceDue(ordered, at + 1 + i, prefix[1..][i], problem);
      assert prefix[i + 1] == prefix[1..][i] && PlaceDue(ordered, at + (i + 1), prefix[i + 1], problem);
    }
    if PlaceDue(ordered, at, prefix[0], problem) {
      assert PlaceDue(ordered, at + 0, prefix[0], problem);
    } else if i :| 0 <= i < |prefix| && PlaceDue(ordered, at + i, prefix[i], problem) {
      assert PlaceDue(ordered, at + 1 + (i - 1), prefix[1..][i - 1], problem);
    }
  }

  lemma {:induction false} HistoryReportedIff(ordered: seq<Row>, at: nat, prefix: seq<Entry>, problem: Problem)
    ensures problem in HistoryProblems(ordered, at, prefix) <==> SomePlaceDue(ordered, at, prefix, problem)
    decreases |prefix|
  {
    if prefix != [] {
      HistoryReportedIff(ordered, at + 1, prefix[1..], problem);
      SomePlaceDueSplit(ordered, at, prefix, problem);
    }
  }

  lemma {:induction false} WithoutSorted(xs: seq<string>, ys: seq<string>)
    requires StrictlySorted(xs)
    ensures StrictlySorted(Without(xs, ys))
  {
    if xs != [] {
      WithoutSorted(xs[1..], ys);
      var rest := Without(xs[1..], ys);
      forall i | 0 <= i < |rest|
        ensures Less(xs[0], rest[i])
      {
        assert rest[i] in xs[1..];
      }
      assert Without(xs, ys) == rest || Without(xs, ys) == [xs[0]] + rest;
    }
  }

  /** The filter looks at membership only. */
  lemma {:induction false} WithoutSameMembers(xs: seq<string>, ys: seq<string>, zs: seq<string>)
    requires forall f :: f in ys <==> f in zs
    ensures Without(xs, ys) == Without(xs, zs)
  {
    if xs != [] {
      WithoutSameMembers(xs[1..], ys, zs);
    }
  }

  lemma DifferenceIsDue(applied: seq<string>, onDisk: seq<string>, missing: seq<string>, extra: seq<string>)
    requires Distinct(onDisk)
    ensures missing == Without(Sort(onDisk), applied) && extra == Without(applied, Sort(onDisk))
       <==> && StrictlySorted(missing) && (forall f :: f in missing <==> f in onDisk && f !in applied)
            && extra == Without(applied, onDisk)
  {
    var disk := Sort(onDisk);
    SortSorts(onDisk);
    SortDistinct(onDisk);
    WithoutSorted(disk, applied);
    WithoutSameMembers(applied, disk, onDisk);
    if StrictlySorted(missing) && forall f :: f in missing <==> f in onDisk && f !in applied {
      StrictIsDistinct(missing);
      StrictIsDistinct(Without(disk, applied));
      SortedNamesUnique((set f | f in missing), missing);
      SortedNamesUnique((set f | f in missing), Without(disk, applied));
    }
  }

  /** Each problem, with its places and values, is reported exactly when it is due. */
  lemma ReportedIffDue(applied: seq<string>, onDisk: seq<string>, history: seq<Row>, prefix: seq<Entry>, problem: Problem)
    requires Distinct(onDisk)
    ensures problem in AppliedSetProblems(applied, onDisk, history, prefix)
       <==> Due(applied, onDisk, SortBy(NameOf, history), prefix, problem)
  {
    var ordered := SortBy(NameOf, history);
    SortedListingIsInNameOrder(applied, onDisk);
    SortSorts(onDisk);
    HistoryReportedIff(ordered, 0, prefix, problem);
    if problem.AppliedDiffers? {
      DifferenceIsDue(applied, onDisk, problem.missing, problem.extra);
      WithoutKeeps(applied, onDisk, problem.extra);
    } else {
      FromTheFirstPlace(ordered, prefix, problem);
    }
  }

  lemma VerdictMeans(applied: seq<string>, onDisk: seq<string>, history: seq<Row>, prefix: seq<Entry>)
    ensures var problems := AppliedSetProblems(applied, onDisk, history, prefix);
            Distinct(onDisk) ==>
              && (problems == [] <==> InNameOrder(applied, onDisk) && BeginsWith(SortBy(NameOf, history), 0, prefix))
              && forall problem :: problem in problems <==> Due(applied, onDisk, SortBy(NameOf, history), prefix, problem)
  {
    if Distinct(onDisk) {
      AppliedSetPassesIff(applied, onDisk, history, prefix);
      forall problem
        ensures problem in AppliedSetProblems(applied, onDisk, history, prefix)
           <==> Due(applied, onDisk, SortBy(NameOf, history), prefix, problem)
      {
        ReportedIffDue(applied, onDisk, history, prefix, problem);
      }
    }
  }

  lemma FromTheFirstPlace(ordered: seq<Row>, prefix: seq<Entry>, problem: Problem)
    ensures SomePlaceDue(ordered, 0, prefix, problem) <==> exists at :: 0 <= at < |prefix| && PlaceDue(ordered, at, prefix[at], problem)
  {
    if SomePlaceDue(ordered, 0, prefix, problem) {
      var i :| 0 <= i < |prefix| && PlaceDue(ordered, 0 + i, prefix[i], problem);
      assert PlaceDue(ordered, i, prefix[i], problem);
    }
    if at :| 0 <= at < |prefix| && PlaceDue(ordered, at, prefix[at], problem) {
      assert PlaceDue(ordered, 0 + at, prefix[at], problem);
    }
  }

  // ---- a deployed directory ----------------------------------------------------------------------------

  /** The history a deployment leaves: every `.sql` file of the directory at its digest. */
  ghost predicate Records(history: seq<Row>, disk: map<string, string>) {
    && UniqueNames(history)
    && (forall f :: f in RowNames(history) <==> f in SqlFiles(disk))
    && forall r | r in history :: r.name in disk && r.sha256 == disk[r.name]
  }

  ghost function SqlFiles(disk: map<string, string>): set<string> {
    set f | f in disk && IsSql(f)
  }

  lemma RowIn(rows: seq<Row>, r: Row)
    requires r in rows
    ensures r.name in RowNames(rows)
  {
    var i :| 0 <= i < |rows| && rows[i] == r;
    assert RowNames(rows)[i] == r.name;
  }

  /** Sorting rows by a key they do not share sorts their names. */
  lemma SortedRowNames(rows: seq<Row>)
    requires UniqueNames(rows)
    ensures var ordered := SortBy(NameOf, rows);
            && multiset(ordered) == multiset(rows)
            && RowNames(ordered) == SortedNames(set f | f in RowNames(rows))
  {
    var ordered := SortBy(NameOf, rows);
    SortBySorts(NameOf, rows);
    SameMembers(ordered, rows);
    RowsDistinct(rows);
    DistinctMultiset(rows);
    MultisetDistinct(ordered);
    forall i, j | 0 <= i < j < |ordered|
      ensures Less(RowNames(ordered)[i], RowNames(ordered)[j])
    {
      assert AtMost(NameOf(ordered[i]), NameOf(ordered[j]));
      NameDetermines(rows, ordered[i], ordered[j]);
    }
    forall f
      ensures f in RowNames(ordered) <==> f in RowNames(rows)
    {
      SameRowNames(ordered, rows, f);
      SameRowNames(rows, ordered, f);
    }
    SortedNamesUnique((set f | f in RowNames(rows)), RowNames(ordered));
  }

  lemma RowsDistinct(rows: seq<Row>)
    requires UniqueNames(rows)
    ensures Distinct(rows)
  {
    assert forall i | 0 <= i < |rows| :: RowNames(rows)[i] == rows[i].name;
  }

  lemma NameDetermines(rows: seq<Row>, a: Row, b: Row)
    requires UniqueNames(rows) && a in rows && b in rows
    ensures a.name == b.name ==> a == b
  {
    var i :| 0 <= i < |rows| && rows[i] == a;
    var j :| 0 <= j < |rows| && rows[j] == b;
    assert RowNames(rows)[i] == a.name && RowNames(rows)[j] == b.name;
  }

  lemma SameRowNames(a: seq<Row>, b: seq<Row>, f: string)
    requires forall r | r in a :: r in b
    ensures f in RowNames(a) ==> f in RowNames(b)
  {
    if f in RowNames(a) {
      var i :| 0 <= i < |a| && RowNames(a)[i] == f;
      RowIn(b, a[i]);
    }
  }

  /** No `.sql` file sorts strictly between the end of one prefix and the start of the next. */
  ghost predicate NoGap(first: Literal, second: Literal, disk: map<string, string>)
    requires Numbered(first) && Numbered(second)
  {
    forall f | f in disk && IsSql(f) :: !(Less(End(first), f) && Less(f, Start(second)))
  }

  lemma ClosedRange(l: Literal, disk: map<string, string>, f: string)
    requires Numbered(l) && RangeAgrees(l, disk) && f in disk && IsSql(f)
    requires AtMost(f, End(l)) && (l.open || AtMost(Start(l), f))
    ensures f in Names(l.entries)
  {
  }

  lemma StrictAppend(xs: seq<string>, ys: seq<string>, last: string)
    requires StrictlySorted(xs) && StrictlySorted(ys)
    requires forall x | x in xs :: AtMost(x, last)
    requires forall y | y in ys :: Less(last, y)
    ensures StrictlySorted(xs + ys)
  {
    forall i, j | 0 <= i < |xs| && 0 <= j < |ys|
      ensures Less(xs[i], ys[j])
    {
      AtMostTransitive(xs[i], last, ys[j]);
    }
  }

  /** Without a gap, the sorted directory begins with exactly the two prefixes. */
  lemma DirectoryBeginsWithPrefixes(first: Literal, second: Literal, disk: map<string, string>)
    requires Follows(first, second) && DiskAgrees(disk, first.entries) && DiskAgrees(disk, second.entries)
    requires RangeAgrees(first, disk) && RangeAgrees(second, disk) && NoGap(first, second, disk)
    ensures Names(first.entries) + Names(second.entries) <= SortedNames(SqlFiles(disk))
  {
    var names := Names(first.entries) + Names(second.entries);
    var later := SortedNames(set f | f in disk && IsSql(f) && Less(End(second), f));
    LiteralSorted(first);
    LiteralSorted(second);
    FollowsSorted(first, second);
    FourDigitOrder(End(first), End(second));
    forall f | f in names
      ensures AtMost(f, End(second)) && f in SqlFiles(disk)
    {
      if f in Names(first.entries) {
        EndIsLast(first, f);
        AtMostTransitive(f, End(first), End(second));
        var i :| 0 <= i < |first.entries| && Names(first.entries)[i] == f;
      } else {
        EndIsLast(second, f);
        var i :| 0 <= i < |second.entries| && Names(second.entries)[i] == f;
      }
    }
    StrictAppend(names, later, End(second));
    forall f | f in SqlFiles(disk)
      ensures f in names + later
    {
      AtMostTotal(f, End(first));
      AtMostTotal(f, End(second));
      AtMostTotal(Start(second), f);
      if AtMost(f, End(first)) {
        ClosedRange(first, disk, f);
      } else if AtMost(f, End(second)) {
        ClosedRange(second, disk, f);
      }
    }
    SortedNamesUnique(SqlFiles(disk), names + later);
  }

  /** In a sorted listing every name of a first part sorts before every name that is not in it. */
  lemma FirstPartPrecedes(names: seq<string>, sorted: seq<string>, x: string, later: string)
    requires StrictlySorted(sorted) && names <= sorted
    requires x in names && later in sorted && later !in names
    ensures Less(x, later)
  {
    var i :| 0 <= i < |names| && names[i] == x;
    var k :| 0 <= k < |sorted| && sorted[k] == later;
    assert forall m | 0 <= m < |names| :: sorted[m] == names[m] && names[m] in names;
  }

  lemma NotAccepted(l: Literal, file: string)
    requires Numbered(l) && (Less(file, Start(l)) || Less(End(l), file))
    ensures file !in Names(l.entries)
  {
    if file in Names(l.entries) {
      EndIsLast(l, file);
      AtMostTotal(Start(l), file);
      AtMostTotal(file, End(l));
    }
  }

  /** A gap file pushes the second prefix out of place. */
  lemma GapBreaksPrefixes(first: Literal, second: Literal, disk: map<string, string>, gap: string)
    requires Follows(first, second)
    requires gap in SqlFiles(disk) && Less(End(first), gap) && Less(gap, Start(second))
    ensures !(Names(first.entries) + Names(second.entries) <= SortedNames(SqlFiles(disk)))
  {
    var names := Names(first.entries) + Names(second.entries);
    NotAccepted(first, gap);
    NotAccepted(second, gap);
    assert Names(second.entries)[0] == Start(second);
    if names <= SortedNames(SqlFiles(disk)) {
      FirstPartPrecedes(names, SortedNames(SqlFiles(disk)), Start(second), gap);
      LessTrichotomy(gap, Start(second));
    }
  }

  lemma RecordedInOrder(history: seq<Row>, disk: map<string, string>)
    requires Records(history, disk)
    ensures RowNames(SortBy(NameOf, history)) == SortedNames(SqlFiles(disk))
    ensures forall r | r in SortBy(NameOf, history) :: r.name in disk && r.sha256 == disk[r.name]
  {
    SortedRowNames(history);
    assert (set f | f in RowNames(history)) == SqlFiles(disk);
    SameMembers(SortBy(NameOf, history), history);
  }

  lemma BeginsWithNames(ordered: seq<Row>, disk: map<string, string>, prefix: seq<Entry>)
    requires forall r | r in ordered :: r.name in disk && r.sha256 == disk[r.name]
    requires DiskAgrees(disk, prefix)
    ensures BeginsWith(ordered, 0, prefix) <==> Names(prefix) <= RowNames(ordered)
  {
    var names, sorted := Names(prefix), RowNames(ordered);
    if BeginsWith(ordered, 0, prefix) {
      forall i | 0 <= i < |names|
        ensures names[i] == sorted[i]
      {
        var e := prefix[i];
        assert Recorded(ordered[0 + i], e);
      }
    }
    if names <= sorted {
      forall i | 0 <= i < |prefix|
        ensures Recorded(ordered[0 + i], prefix[i])
      {
        assert names[i] == sorted[i] && ordered[i] in ordered;
      }
    }
  }

  lemma BeginsWithIff(first: Literal, second: Literal, disk: map<string, string>, history: seq<Row>)
    requires DiskAgrees(disk, first.entries) && DiskAgrees(disk, second.entries) && Records(history, disk)
    ensures BeginsWith(SortBy(NameOf, history), 0, first.entries + second.entries)
       <==> Names(first.entries) + Names(second.entries) <= SortedNames(SqlFiles(disk))
  {
    RecordedInOrder(history, disk);
    NamesOfBoth(first.entries, second.entries);
    BeginsWithNames(SortBy(NameOf, history), disk, first.entries + second.entries);
  }

  /** Given a directory that passes both prefix checks, deployed in name order and recorded at its
      digests, the rehearsal accepts the history exactly when no file sorts between the prefixes. */
  lemma AppliedSetPassesIffNoGap(first: Literal, second: Literal, tree: Tree, applied: seq<string>, onDisk: seq<string>, history: seq<Row>)
    requires Follows(first, second)
    requires Check(first, tree) == [] && Check(second, tree) == []
    requires Distinct(onDisk) && (forall f :: f in onDisk <==> f in SqlFiles(tree.disk))
    requires applied == SortedNames(SqlFiles(tree.disk)) && Records(history, tree.disk)
    ensures AppliedSetProblems(applied, onDisk, history, first.entries + second.entries) == [] <==> NoGap(first, second, tree.disk)
  {
    PassesIffAccepts(first, tree);
    PassesIffAccepts(second, tree);
    SortListing(SqlFiles(tree.disk), onDisk);
    HistoryProblemsNone(SortBy(NameOf, history), 0, first.entries + second.entries);
    BeginsWithIff(first, second, tree.disk, history);
    if NoGap(first, second, tree.disk) {
      DirectoryBeginsWithPrefixes(first, second, tree.disk);
    } else {
      var gap :| gap in tree.disk && IsSql(gap) && Less(End(first), gap) && Less(gap, Start(second));
      GapBreaksPrefixes(first, second, tree.disk, gap);
    }
  }

  lemma FourDigitNotInGap(first: Literal, second: Literal, disk: map<string, string>, f: string)
    requires Follows(first, second) && RangeAgrees(first, disk) && RangeAgrees(second, disk)
    requires f in disk && IsSql(f) && FourDigit(f)
    ensures AtMost(f, End(first)) || AtMost(Start(second), f)
  {
    FourDigitNumber(f);
    if Head(f) <= Head(End(first)) {
      assert InRange(first, f);
      EndIsLast(first, f);
    } else if Head(f) == Head(Start(second)) {
      assert Head(End(second)) == Head(Start(second)) + (|second.entries| - 1);
      assert InRange(second, f);
      EndIsLast(second, f);
    } else {
      FourDigitOrder(Start(second), f);
    }
  }

  /** When every `.sql` name has a four-digit head, passing both checks leaves no gap. */
  lemma FourDigitNamesLeaveNoGap(first: Literal, second: Literal, tree: Tree)
    requires Follows(first, second)
    requires Check(first, tree) == [] && Check(second, tree) == []
    requires forall f | f in tree.disk && IsSql(f) :: FourDigit(f)
    ensures NoGap(first, second, tree.disk)
  {
    PassesIffAccepts(first, tree);
    PassesIffAccepts(second, tree);
    forall f | f in tree.disk && IsSql(f)
      ensures !(Less(End(first), f) && Less(f, Start(second)))
    {
      FourDigitNotInGap(first, second, tree.disk, f);
      AtMostTotal(f, End(first));
      AtMostTotal(Start(second), f);
    }
  }

  const GAP_FILE := "0052a_x.sql"

  lemma HeadDigits(name: string, tens: nat, ones: nat)
    requires FourDigit(name) && tens < 10 && ones < 10 && Head(name) == 10 * tens + ones
    ensures Digit(name[0]) == 0 && Digit(name[1]) == 0 && Digit(name[2]) == tens && Digit(name[3]) == ones
  {
  }

  /** `0052a_x.sql` sorts between 0052 and 0053 and has no number. */
  lemma GapFileSorts(end: string, start: string)
    requires FourDigit(end) && Head(end) == 52 && FourDigit(start) && Head(start) == 53
    ensures IsSql(GAP_FILE) && NumberOf(GAP_FILE).None?
    ensures Less(end, GAP_FILE) && Less(GAP_FILE, start)
  {
    DigitsThenStop(GAP_FILE, 4);
    HeadDigits(end, 5, 2);
    HeadDigits(start, 5, 3);
    assert end[..4] == GAP_FILE[..4] && start[..3] == GAP_FILE[..3];
    LessAtFirstDifference(end, GAP_FILE, 4);
    LessAtFirstDifference(GAP_FILE, start, 3);
  }

  lemma AddOutside(l: Literal, tree: Tree, file: string, digest: string)
    requires Numbered(l) && Check(l, tree) == [] && !InRange(l, file)
    ensures Check(l, tree.(disk := tree.disk[file := digest])) == []
  {
    LiteralSorted(l);
    OnlyTheRangeMatters(l, tree, tree.(disk := tree.disk[file := digest]));
  }

  function WithGapFile(tree: Tree, digest: string): Tree {
    tree.(disk := tree.disk[GAP_FILE := digest])
  }

  /** Any tree that passes both checks still passes both with the file `0052a_x.sql` beside it; the
      manifest guard takes the file for a hole unless the manifest lists it. */
  lemma GapFileSlipsThrough(first: Literal, second: Literal, tree: Tree, digest: string)
    requires Follows(first, second) && Head(End(first)) == 52
    requires Check(first, tree) == [] && Check(second, tree) == []
    ensures var with := WithGapFile(tree, digest);
            && Check(first, with) == [] && Check(second, with) == [] && !NoGap(first, second, with.disk)
            && (GAP_FILE !in Names(tree.manifest.migrations) ==> !Intact(with))
  {
    GapFileSorts(End(first), Start(second));
    AtMostTotal(GAP_FILE, End(first));
    AtMostTotal(Start(second), GAP_FILE);
    AddOutside(first, tree, GAP_FILE, digest);
    AddOutside(second, tree, GAP_FILE, digest);
    assert GAP_FILE in tree.disk[GAP_FILE := digest];
    PassesIffAccepts(second, tree);
    NameOrder(second, 0, |second.entries| - 1);
    AtMostTransitive(GAP_FILE, Start(second), End(second));
    AtMostTransitive(GAP_FILE, End(second), tree.manifest.frozenThrough);
  }

  /** The rehearsal refuses the deployed history of such a tree. */
  lemma GapFileIsRefused(first: Literal, second: Literal, tree: Tree, digest: string, applied: seq<string>, onDisk: seq<string>, history: seq<Row>)
    requires Follows(first, second) && Head(End(first)) == 52
    requires Check(first, tree) == [] && Check(second, tree) == []
    requires var disk := WithGapFile(tree, digest).disk;
             && Distinct(onDisk) && (forall f :: f in onDisk <==> f in SqlFiles(disk))
             && applied == SortedNames(SqlFiles(disk)) && Records(history, disk)
    ensures AppliedSetProblems(applied, onDisk, history, first.entries + second.entries) != []
  {
    GapFileSlipsThrough(first, second, tree, digest);
    AppliedSetPassesIffNoGap(first, second, WithGapFile(tree, digest), applied, onDisk, history);
  }

  /** The accepted literals are such a pair. */
  lemma AcceptedPrefixesFollow()
    ensures Follows(PHASE2, PHASE3) && Head(End(PHASE2)) == 52
  {
    LiteralsAreNumbered();
  }
}
