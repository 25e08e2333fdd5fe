/** `checkPhase2Prefix` and `checkPhase3Prefix`: one check of an accepted migration prefix against a
    directory and its manifest, with the two ranges the scripts use. */
module Prefix {
  import opened Options
  import opened Text
  import opened Migrations

  /** An accepted prefix: its (name, digest) pairs, the manifest index of the first, and whether its
      range is open below (the Phase 2 prefix starts the history). */
  datatype Literal = Literal(entries: seq<Entry>, offset: nat, open: bool)

  datatype Problem =
    | Missing(name: string)
    | WrongDigest(name: string, onDisk: string, accepted: string)
    | Extra(name: string)
    | OutOfOrder
    | Unfrozen(frozenThrough: string)
    | ManifestEnds(at: nat, name: string)
    | ManifestName(at: nat, found: string, accepted: string)
    | ManifestDigest(name: string, found: string, accepted: string)
    | Straggler(name: string)

  /** What every accepted literal is: contiguously numbered `.sql` names with four-digit heads. */
  ghost predicate Numbered(l: Literal) {
    && l.entries != []
    && forall i | 0 <= i < |l.entries| ::
         var name := l.entries[i].name;
         IsSql(name) && FourDigit(name) && FourDigit(l.entries[0].name) && Head(name) == Head(l.entries[0].name) + i
  }

  function Start(l: Literal): string
    requires l.entries != []
  {
    l.entries[0].name
  }

  function End(l: Literal): string
    requires l.entries != []
  {
    l.entries[|l.entries| - 1].name
  }

  predicate InRange(l: Literal, file: string)
    requires l.entries != [] && FourDigit(Start(l)) && FourDigit(End(l))
  {
    var n := NumberOf(file);
    if l.open then
      AtMost(file, End(l)) || (n.Some? && n.value <= Head(End(l)))
    else
      || (AtMost(Start(l), file) && AtMost(file, End(l)))
      || (n.Some? && n.value >= Head(Start(l)) && n.value <= Head(End(l)))
  }

  function Names(entries: seq<Entry>): (names: seq<string>)
    ensures |names| == |entries|
    ensures forall i | 0 <= i < |names| :: names[i] == entries[i].name
  {
    if entries == [] then [] else [entries[0].name] + Names(entries[1..])
  }

  lemma {:induction false} NamesOfBoth(a: seq<Entry>, b: seq<Entry>)
    ensures Names(a + b) == Names(a) + Names(b)
  {
  }

  lemma NameInTail(entries: seq<Entry>, k: nat, i: nat)
    requires k + i < |entries|
    ensures Names(entries[k..])[i] == entries[k + i].name
  {
  }

  // ---- the problems the check reports ----------------------------------------------------------

  function DiskProblem(disk: map<string, string>, e: Entry): seq<Problem> {
    if e.name !in disk then [Missing(e.name)]
    else if disk[e.name] != e.sha256 then [WrongDigest(e.name, disk[e.name], e.sha256)]
    else []
  }

  function DiskProblems(disk: map<string, string>, entries: seq<Entry>): seq<Problem> {
    if entries == [] then [] else DiskProblem(disk, entries[0]) + DiskProblems(disk, entries[1..])
  }

  ghost function RangeFiles(l: Literal, disk: map<string, string>): set<string>
    requires Numbered(l)
  {
    set f | f in disk && IsSql(f) && InRange(l, f)
  }

  function Within(xs: seq<string>, ys: seq<string>): (r: seq<string>)
    ensures forall x :: x in r <==> x in xs && x in ys
  {
    if xs == [] then [] else (if xs[0] in ys then [xs[0]] else []) + Within(xs[1..], ys)
  }

  function Extras(files: seq<string>): (r: seq<Problem>)
    ensures |r| == |files| && forall i | 0 <= i < |r| :: r[i] == Extra(files[i])
  {
    if files == [] then [] else [Extra(files[0])] + Extras(files[1..])
  }

  function RangeProblems(inRange: seq<string>, expected: seq<string>, clean: bool): seq<Problem> {
    if Join(inRange, "\n") == Join(expected, "\n") then []
    else
      var extra := Without(inRange, expected);
      Extras(extra) + if extra == [] && clean then [OutOfOrder] else []
  }

  function FloorProblems(l: Literal, frozenThrough: string): seq<Problem>
    requires l.entries != []
  {
    if AtMost(End(l), frozenThrough) then [] else [Unfrozen(frozenThrough)]
  }

  function ManifestProblem(migrations: seq<Entry>, at: nat, e: Entry): seq<Problem> {
    if at >= |migrations| then [ManifestEnds(at, e.name)]
    else if migrations[at].name != e.name then [ManifestName(at, migrations[at].name, e.name)]
    else if migrations[at].sha256 != e.sha256 then [ManifestDigest(e.name, migrations[at].sha256, e.sha256)]
    else []
  }

  function ManifestProblems(migrations: seq<Entry>, at: nat, entries: seq<Entry>): seq<Problem>
    decreases |entries|
  {
    if entries == [] then [] else ManifestProblem(migrations, at, entries[0]) + ManifestProblems(migrations, at + 1, entries[1..])
  }

  function Stragglers(l: Literal, later: seq<Entry>): seq<Problem>
    requires l.entries != [] && FourDigit(Start(l)) && FourDigit(End(l))
  {
    if later == [] then []
    else (if InRange(l, later[0].name) then [Straggler(later[0].name)] else []) + Stragglers(l, later[1..])
  }

  /** The entries after the prefix. */
  function Later(l: Literal, migrations: seq<Entry>): seq<Entry> {
    if |migrations| <= l.offset + |l.entries| then [] else migrations[l.offset + |l.entries|..]
  }

  ghost function Check(l: Literal, tree: Tree): seq<Problem>
    requires Numbered(l)
  {
    var disk := DiskProblems(tree.disk, l.entries);
    disk
    + RangeProblems(SortedNames(RangeFiles(l, tree.disk)), Names(l.entries), disk == [])
    + FloorProblems(l, tree.manifest.frozenThrough)
    + ManifestProblems(tree.manifest.migrations, l.offset, l.entries)
    + Stragglers(l, Later(l, tree.manifest.migrations))
  }

  /** The script's check; `listing` is what `readdirSync` returns, in any order. */
  method CheckPrefix(l: Literal, tree: Tree, listing: seq<string>) returns (problems: seq<Problem>)
    requires Numbered(l) && Lists(listing, tree.disk)
    ensures problems == Check(l, tree)
  {
    problems := CheckFiles(l.entries, tree.disk);
    ghost var disk := problems;
    var inRange := FilesInRange(l, tree.disk, listing);
    problems := CheckRange(inRange, Names(l.entries), problems);
    ghost var range := problems;
    assert range == disk + RangeProblems(SortedNames(RangeFiles(l, tree.disk)), Names(l.entries), disk == []);
    if !AtMost(End(l), tree.manifest.frozenThrough) {
      problems := problems + [Unfrozen(tree.manifest.frozenThrough)];
    }
    assert problems == range + FloorProblems(l, tree.manifest.frozenThrough);
    problems := CheckManifestEntries(l, tree.manifest.migrations, problems);
    problems := CheckStragglers(l, Later(l, tree.manifest.migrations), problems);
  }

  lemma NextDiskProblem(found: seq<Problem>, disk: map<string, string>, entries: seq<Entry>, i: nat)
    requires i < |entries|
    ensures found + DiskProblems(disk, entries[i..]) == (found + DiskProblem(disk, entries[i])) + DiskProblems(disk, entries[i + 1..])
  {
    assert entries[i..][0] == entries[i] && entries[i..][1..] == entries[i + 1..];
    Reassociate(found, DiskProblem(disk, entries[i]), DiskProblems(disk, entries[i + 1..]));
  }

  method CheckFiles(entries: seq<Entry>, disk: map<string, string>) returns (problems: seq<Problem>)
    ensures problems == DiskProblems(disk, entries)
  {
    problems := [];
    for i := 0 to |entries|
      invariant problems + DiskProblems(disk, entries[i..]) == DiskProblems(disk, entries)
    {
      var name, sha256 := entries[i].name, entries[i].sha256;
      NextDiskProblem(problems, disk, entries, i);
      ghost var next := problems + DiskProblem(disk, entries[i]);
      if name !in disk {
        problems := problems + [Missing(name)];
      } else if disk[name] != sha256 {
        problems := problems + [WrongDigest(name, disk[name], sha256)];
      }
      assert problems == next;
    }
  }

  lemma NextExtra(found: seq<Problem>, extra: seq<string>, i: nat)
    requires i < |extra|
    ensures found + Extras(extra[i..]) == (found + [Extra(extra[i])]) + Extras(extra[i + 1..])
  {
    assert extra[i..][0] == extra[i] && extra[i..][1..] == extra[i + 1..];
    Reassociate(found, [Extra(extra[i])], Extras(extra[i + 1..]));
  }

  method CheckRange(inRange: seq<string>, expected: seq<string>, found: seq<Problem>) returns (problems: seq<Problem>)
    ensures problems == found + RangeProblems(inRange, expected, found == [])
  {
    problems := found;
    if Join(inRange, "\n") != Join(expected, "\n") {
      var extra := Without(inRange, expected);
      for i := 0 to |extra|
        invariant problems + Extras(extra[i..]) == found + Extras(extra)
      {
        NextExtra(problems, extra, i);
        problems := problems + [Extra(extra[i])];
      }
      assert problems == found + Extras(extra) && (extra == [] ==> problems == found);
      if |extra| == 0 && |problems| == 0 {
        problems := problems + [OutOfOrder];
      }
    }
  }

  lemma NextStraggler(found: seq<Problem>, l: Literal, later: seq<Entry>, i: nat)
    requires l.entries != [] && FourDigit(Start(l)) && FourDigit(End(l)) && i < |later|
    ensures found + Stragglers(l, later[i..])
         == (if InRange(l, later[i].name) then found + [Straggler(later[i].name)] else found) + Stragglers(l, later[i + 1..])
  {
    assert later[i..][0] == later[i] && later[i..][1..] == later[i + 1..];
    Reassociate(found, [Straggler(later[i].name)], Stragglers(l, later[i + 1..]));
  }

  method CheckStragglers(l: Literal, later: seq<Entry>, found: seq<Problem>) returns (problems: seq<Problem>)
    requires l.entries != [] && FourDigit(Start(l)) && FourDigit(End(l))
    ensures problems == found + Stragglers(l, later)
  {
    problems := found;
    for i := 0 to |later|
      invariant problems + Stragglers(l, later[i..]) == found + Stragglers(l, later)
    {
      NextStraggler(problems, l, later, i);
      if InRange(l, later[i].name) {
        problems := problems + [Straggler(later[i].name)];
      }
    }
  }

  /** The `.sql` files of the listing in the range, sorted. */
  method FilesInRange(l: Literal, disk: map<string, string>, listing: seq<string>) returns (inRange: seq<string>)
    requires Numbered(l) && Lists(listing, disk)
    ensures inRange == SortedNames(RangeFiles(l, disk))
  {
    var kept := [];
    for i := 0 to |listing|
      invariant Distinct(kept)
      invariant forall f :: f in kept <==> f in listing[..i] && IsSql(f) && InRange(l, f)
    {
      assert listing[..i + 1] == listing[..i] + [listing[i]];
      if IsSql(listing[i]) && InRange(l, listing[i]) {
        kept := kept + [listing[i]];
      }
    }
    assert listing[..|listing|] == listing;
    SortListing(RangeFiles(l, disk), kept);
    inRange := Sort(kept);
  }

  lemma NextManifestProblem(found: seq<Problem>, migrations: seq<Entry>, at: nat, entries: seq<Entry>, i: nat)
    requires i < |entries|
    ensures found + ManifestProblems(migrations, at, entries[i..])
         == (found + ManifestProblem(migrations, at, entries[i])) + ManifestProblems(migrations, at + 1, entries[i + 1..])
  {
    assert entries[i..][0] == entries[i] && entries[i..][1..] == entries[i + 1..];
    Reassociate(found, ManifestProblem(migrations, at, entries[i]), ManifestProblems(migrations, at + 1, entries[i + 1..]));
  }

  method CheckManifestEntries(l: Literal, migrations: seq<Entry>, found: seq<Problem>) returns (problems: seq<Problem>)
    ensures problems == found + ManifestProblems(migrations, l.offset, l.entries)
  {
    problems := found;
    for i := 0 to |l.entries|
      invariant problems + ManifestProblems(migrations, l.offset + i, l.entries[i..])
             == found + ManifestProblems(migrations, l.offset, l.entries)
    {
      var at, name := l.offset + i, l.entries[i].name;
      NextManifestProblem(problems, migrations, at, l.entries, i);
      ghost var next := problems + ManifestProblem(migrations, at, l.entries[i]);
      if at >= |migrations| {
        problems := problems + [ManifestEnds(at, name)];
      } else if migrations[at].name != name {
        problems := problems + [ManifestName(at, migrations[at].name, name)];
      } else if migrations[at].sha256 != l.entries[i].sha256 {
        problems := problems + [ManifestDigest(name, migrations[at].sha256, l.entries[i].sha256)];
      }
      assert problems == next;
    }
  }

  // ---- what passing means ----------------------------------------------------------------------

  ghost predicate DiskAgrees(disk: map<string, string>, entries: seq<Entry>) {
    forall i | 0 <= i < |entries| :: entries[i].name in disk && disk[entries[i].name] == entries[i].sha256
  }

  ghost predicate RangeAgrees(l: Literal, disk: map<string, string>)
    requires Numbered(l)
  {
    forall f | f in disk && IsSql(f) && InRange(l, f) :: f in Names(l.entries)
  }

  ghost predicate ManifestAgrees(migrations: seq<Entry>, at: nat, entries: seq<Entry>) {
    && (entries != [] ==> at + |entries| <= |migrations|)
    && forall i | 0 <= i < |entries| :: migrations[at + i] == entries[i]
  }

  ghost predicate NoStragglers(l: Literal, migrations: seq<Entry>)
    requires Numbered(l)
  {
    forall i | l.offset + |l.entries| <= i < |migrations| :: !InRange(l, migrations[i].name)
  }

  /** Disk and manifest agree with the literal. */
  ghost predicate Accepts(l: Literal, tree: Tree)
    requires Numbered(l)
  {
    && DiskAgrees(tree.disk, l.entries)
    && RangeAgrees(l, tree.disk)
    && AtMost(End(l), tree.manifest.frozenThrough)
    && ManifestAgrees(tree.manifest.migrations, l.offset, l.entries)
    && NoStragglers(l, tree.manifest.migrations)
  }

  lemma {:induction false} DiskProblemsNone(disk: map<string, string>, entries: seq<Entry>)
    ensures DiskProblems(disk, entries) == [] <==> DiskAgrees(disk, entries)
    ensures OutOfOrder !in DiskProblems(disk, entries)
  {
    if entries != [] {
      DiskProblemsNone(disk, entries[1..]);
      if DiskProblems(disk, entries) == [] {
        forall i | 0 <= i < |entries|
          ensures entries[i].name in disk && disk[entries[i].name] == entries[i].sha256
        {
          assert i > 0 ==> entries[i] == entries[1..][i - 1];
        }
      } else if DiskProblem(disk, entries[0]) == [] {
        var i :| 0 <= i < |entries[1..]| && !(entries[1..][i].name in disk && disk[entries[1..][i].name] == entries[1..][i].sha256);
        assert entries[i + 1] == entries[1..][i];
      }
    }
  }

  lemma ManifestAgreesTail(migrations: seq<Entry>, at: nat, entries: seq<Entry>)
    requires entries != [] && ManifestAgrees(migrations, at, entries)
    ensures at < |migrations| && migrations[at] == entries[0] && ManifestAgrees(migrations, at + 1, entries[1..])
  {
    var first, rest := entries[0], entries[1..];
    assert migrations[at + 0] == first;
    forall j | 0 <= j < |rest|
      ensures migrations[at + 1 + j] == rest[j]
    {
      var e := entries[j + 1];
      assert migrations[at + (j + 1)] == e;
    }
  }

  lemma ManifestAgreesCons(migrations: seq<Entry>, at: nat, entries: seq<Entry>)
    requires entries != [] && at < |migrations| && migrations[at] == entries[0] && ManifestAgrees(migrations, at + 1, entries[1..])
    ensures ManifestAgrees(migrations, at, entries)
  {
    var rest := entries[1..];
    forall i | 0 <= i < |entries|
      ensures migrations[at + i] == entries[i]
    {
      if i > 0 {
        var e := rest[i - 1];
        assert migrations[at + 1 + (i - 1)] == e;
      }
    }
  }

  lemma {:induction false} ManifestProblemsNone(migrations: seq<Entry>, at: nat, entries: seq<Entry>)
    ensures ManifestProblems(migrations, at, entries) == [] <==> ManifestAgrees(migrations, at, entries)
    ensures OutOfOrder !in ManifestProblems(migrations, at, entries)
    decreases |entries|
  {
    if entries != [] {
      ManifestProblemsNone(migrations, at + 1, entries[1..]);
      if ManifestAgrees(migrations, at, entries) {
        ManifestAgreesTail(migrations, at, entries);
      } else if at < |migrations| && migrations[at] == entries[0] && ManifestAgrees(migrations, at + 1, entries[1..]) {
        ManifestAgreesCons(migrations, at, entries);
      }
      var first, later := ManifestProblem(migrations, at, entries[0]), ManifestProblems(migrations, at + 1, entries[1..]);
      assert first + later == [] <==> first == [] && later == [];
    }
  }

  lemma {:induction false} StragglersNone(l: Literal, later: seq<Entry>)
    requires l.entries != [] && FourDigit(Start(l)) && FourDigit(End(l))
    ensures Stragglers(l, later) == [] <==> forall i | 0 <= i < |later| :: !InRange(l, later[i].name)
    ensures OutOfOrder !in Stragglers(l, later)
  {
    if later != [] {
      StragglersNone(l, later[1..]);
      if forall i | 0 <= i < |later| :: !InRange(l, later[i].name) {
        assert forall i | 0 <= i < |later[1..]| :: later[1..][i] == later[i + 1];
      } else {
        var i :| 0 <= i < |later| && InRange(l, later[i].name);
        assert i > 0 ==> later[1..][i - 1] == later[i];
      }
    }
  }

  lemma NameOrder(l: Literal, i: nat, j: nat)
    requires Numbered(l) && i <= j < |l.entries|
    ensures AtMost(l.entries[i].name, l.entries[j].name)
    ensures i < j ==> Less(l.entries[i].name, l.entries[j].name)
  {
    if i < j {
      FourDigitOrder(l.entries[i].name, l.entries[j].name);
    }
  }

  lemma NameIndex(entries: seq<Entry>, f: string) returns (i: nat)
    requires f in Names(entries)
    ensures i < |entries| && entries[i].name == f
  {
    i :| i < |entries| && Names(entries)[i] == f;
  }

  lemma EndIsLast(l: Literal, f: string)
    requires Numbered(l) && f in Names(l.entries)
    ensures AtMost(Start(l), f) && AtMost(f, End(l))
  {
    var i := NameIndex(l.entries, f);
    NameOrder(l, 0, i);
    NameOrder(l, i, |l.entries| - 1);
  }

  /** A name that sorts between the first and the last is in the range. */
  lemma BetweenIsInRange(l: Literal, file: string)
    requires Numbered(l) && !l.open && AtMost(Start(l), file) && AtMost(file, End(l))
    ensures InRange(l, file)
  {
  }

  /** The literal's names are strictly sorted, `.sql`, and in their own range. */
  lemma LiteralSorted(l: Literal)
    requires Numbered(l)
    ensures StrictlySorted(Names(l.entries))
    ensures forall f | f in Names(l.entries) :: IsSql(f) && InRange(l, f)
  {
    var names := Names(l.entries);
    forall i, j | 0 <= i < j < |names|
      ensures Less(names[i], names[j])
    {
      FourDigitOrder(l.entries[i].name, l.entries[j].name);
    }
    forall f | f in names
      ensures IsSql(f) && InRange(l, f)
    {
      var i :| 0 <= i < |names| && names[i] == f;
      assert names[0] == Start(l) && names[|names| - 1] == End(l);
    }
  }

  /** The second literal goes on where the first, open below, ends. */
  ghost predicate Follows(first: Literal, second: Literal) {
    && Numbered(first) && Numbered(second) && first.open && !second.open
    && Head(Start(second)) == Head(End(first)) + 1
  }

  lemma FollowsSorted(first: Literal, second: Literal)
    requires Follows(first, second)
    ensures StrictlySorted(Names(first.entries) + Names(second.entries))
  {
    LiteralSorted(first);
    LiteralSorted(second);
    var a, b := Names(first.entries), Names(second.entries);
    forall i, j | 0 <= i < |a| && 0 <= j < |b|
      ensures Less(a[i], b[j])
    {
      FourDigitOrder(first.entries[i].name, second.entries[j].name);
    }
  }

  /** The length of the lines with their newlines. */
  function TextLength(xs: seq<string>): nat {
    if xs == [] then 0 else |xs[0]| + 1 + TextLength(xs[1..])
  }

  lemma {:induction false} JoinLength(xs: seq<string>)
    ensures xs != [] ==> |Join(xs, "\n")| + 1 == TextLength(xs)
  {
    if |xs| > 1 {
      JoinLength(xs[1..]);
    }
  }

  lemma TextLengthCons(x: string, xs: seq<string>)
    ensures TextLength([x] + xs) == |x| + 1 + TextLength(xs)
    ensures [] + xs == xs
  {
    assert ([x] + xs)[1..] == xs;
  }

  lemma {:induction false} SplitLength(xs: seq<string>, ys: seq<string>)
    ensures TextLength(xs) == TextLength(Within(xs, ys)) + TextLength(Without(xs, ys))
  {
    if xs != [] {
      SplitLength(xs[1..], ys);
      TextLengthCons(xs[0], Within(xs[1..], ys));
      TextLengthCons(xs[0], Without(xs[1..], ys));
    }
  }

  lemma {:induction false} WithinSorted(xs: seq<string>, ys: seq<string>)
    requires StrictlySorted(xs)
    ensures StrictlySorted(Within(xs, ys))
  {
    if xs != [] {
      WithinSorted(xs[1..], ys);
      var w := Within(xs[1..], ys);
      forall i | 0 <= i < |w|
        ensures Less(xs[0], w[i])
      {
        assert w[i] in xs[1..];
      }
    }
  }

  /** A listing that holds every expected name and joins to the same text is the expected listing,
      whatever characters a stray name is made of. */
  lemma JoinedTextDecides(inRange: seq<string>, expected: seq<string>)
    requires StrictlySorted(inRange) && StrictlySorted(expected) && expected != []
    requires forall f | f in expected :: f in inRange
    ensures Without(inRange, expected) == [] <==> inRange == expected
    ensures Join(inRange, "\n") == Join(expected, "\n") <==> inRange == expected
  {
    WithinSorted(inRange, expected);
    SortedNamesUnique((set f | f in expected), expected);
    SortedNamesUnique((set f | f in expected), Within(inRange, expected));
    SplitLength(inRange, expected);
    JoinLength(inRange);
    JoinLength(expected);
    assert expected[0] in expected;
    if Without(inRange, expected) == [] {
      assert forall f | f in inRange :: f in expected;
      SortedNamesUnique((set f | f in expected), inRange);
    }
  }

  /** Where an expected name is missing the joined text can mislead: one file whose name spells the whole
      list has the list's text. The check has then reported the missing names already. */
  lemma JoinedTextMisleads(expected: seq<string>)
    requires |expected| > 1
    ensures [Join(expected, "\n")] != expected
    ensures Join([Join(expected, "\n")], "\n") == Join(expected, "\n")
  {
  }

  lemma RangeTextDecides(inRange: seq<string>, expected: seq<string>)
    requires StrictlySorted(inRange) && StrictlySorted(expected) && expected != []
    requires forall f | f in expected :: f in inRange
    ensures RangeProblems(inRange, expected, true) == [] <==> inRange == expected
    ensures OutOfOrder !in RangeProblems(inRange, expected, true)
  {
    JoinedTextDecides(inRange, expected);
  }

  lemma RangeProblemsNone(l: Literal, disk: map<string, string>)
    requires Numbered(l) && DiskAgrees(disk, l.entries)
    ensures var found := RangeProblems(SortedNames(RangeFiles(l, disk)), Names(l.entries), true);
            OutOfOrder !in found && (found == [] <==> RangeAgrees(l, disk))
  {
    LiteralSorted(l);
    var inRange, expected := SortedNames(RangeFiles(l, disk)), Names(l.entries);
    forall f | f in expected
      ensures f in inRange
    {
      var i :| 0 <= i < |l.entries| && expected[i] == f;
    }
    RangeTextDecides(inRange, expected);
    if RangeAgrees(l, disk) {
      SortedNamesUnique(RangeFiles(l, disk), expected);
    }
  }

  lemma StragglersDecide(l: Literal, migrations: seq<Entry>)
    requires Numbered(l)
    ensures Stragglers(l, Later(l, migrations)) == [] <==> NoStragglers(l, migrations)
    ensures OutOfOrder !in Stragglers(l, Later(l, migrations))
  {
    var later, first := Later(l, migrations), l.offset + |l.entries|;
    StragglersNone(l, later);
    assert forall i | 0 <= i < |later| :: later[i] == migrations[first + i];
    if forall i | 0 <= i < |later| :: !InRange(l, later[i].name) {
      forall i | first <= i < |migrations|
        ensures !InRange(l, migrations[i].name)
      {
        assert later[i - first] == migrations[i];
      }
    }
  }

  lemma CheckParts(l: Literal, tree: Tree)
    requires Numbered(l)
    ensures Check(l, tree) == [] <==>
            && DiskProblems(tree.disk, l.entries) == []
            && RangeProblems(SortedNames(RangeFiles(l, tree.disk)), Names(l.entries), true) == []
            && FloorProblems(l, tree.manifest.frozenThrough) == []
            && ManifestProblems(tree.manifest.migrations, l.offset, l.entries) == []
            && Stragglers(l, Later(l, tree.manifest.migrations)) == []
  {
  }

  /** The check returns nothing exactly when the disk range, the disk digests, the manifest positions,
      the later manifest entries and the frozen floor all agree with the literal. */
  lemma PassesIffAccepts(l: Literal, tree: Tree)
    requires Numbered(l)
    ensures Check(l, tree) == [] <==> Accepts(l, tree)
  {
    CheckParts(l, tree);
    DiskProblemsNone(tree.disk, l.entries);
    ManifestProblemsNone(tree.manifest.migrations, l.offset, l.entries);
    StragglersDecide(l, tree.manifest.migrations);
    if DiskProblems(tree.disk, l.entries) == [] {
      RangeProblemsNone(l, tree.disk);
    }
  }

  /** The report that the files are out of order never comes: files that are all there, at names
      that are all accepted, are in order. */
  lemma OrderIsNeverTheProblem(l: Literal, tree: Tree)
    requires Numbered(l)
    ensures OutOfOrder !in Check(l, tree)
  {
    var disk := DiskProblems(tree.disk, l.entries);
    DiskProblemsNone(tree.disk, l.entries);
    RangeIsInOrder(l, tree.disk);
    ManifestProblemsNone(tree.manifest.migrations, l.offset, l.entries);
    StragglersDecide(l, tree.manifest.migrations);
    NotInAny(OutOfOrder, disk, RangeProblems(SortedNames(RangeFiles(l, tree.disk)), Names(l.entries), disk == []),
             FloorProblems(l, tree.manifest.frozenThrough), ManifestProblems(tree.manifest.migrations, l.offset, l.entries),
             Stragglers(l, Later(l, tree.manifest.migrations)));
  }

  lemma RangeIsInOrder(l: Literal, disk: map<string, string>)
    requires Numbered(l)
    ensures OutOfOrder !in RangeProblems(SortedNames(RangeFiles(l, disk)), Names(l.entries), DiskProblems(disk, l.entries) == [])
  {
    if DiskProblems(disk, l.entries) == [] {
      DiskProblemsNone(disk, l.entries);
      RangeProblemsNone(l, disk);
    }
  }

  lemma NotInAny(x: Problem, a: seq<Problem>, b: seq<Problem>, c: seq<Problem>, d: seq<Problem>, e: seq<Problem>)
    requires x !in a && x !in b && x !in c && x !in d && x !in e
    ensures x !in a + b + c + d + e
  {
  }

  // ---- what each report means ------------------------------------------------------------------

  /** When each problem is due, said of the disk, the manifest and the literal. */
  ghost predicate Due(l: Literal, tree: Tree, problem: Problem)
    requires Numbered(l)
  {
    var disk, migrations := tree.disk, tree.manifest.migrations;
    match problem
    case Missing(name) => name in Names(l.entries) && name !in disk
    case WrongDigest(name, onDisk, accepted) => Entry(name, accepted) in l.entries && name in disk && disk[name] == onDisk != accepted
    case Extra(name) =>
      && name in RangeFiles(l, disk) && name !in Names(l.entries)
      && Join(SortedNames(RangeFiles(l, disk)), "\n") != Join(Names(l.entries), "\n")
    case OutOfOrder => false
    case Unfrozen(frozenThrough) => frozenThrough == tree.manifest.frozenThrough && Less(frozenThrough, End(l))
    case Straggler(name) => exists i :: l.offset + |l.entries| <= i < |migrations| && migrations[i].name == name && InRange(l, name)
    case _ => ManifestDue(migrations, l.offset, l.entries, problem)
  }

  ghost predicate ManifestDue(migrations: seq<Entry>, at: nat, entries: seq<Entry>, problem: Problem) {
    exists i :: 0 <= i < |entries| && PositionDue(migrations, at + i, entries[i], problem)
  }

  predicate PositionDue(migrations: seq<Entry>, at: nat, e: Entry, problem: Problem) {
    match problem
    case ManifestEnds(k, name) => k == at >= |migrations| && name == e.name
    case ManifestName(k, found, accepted) => k == at < |migrations| && found == migrations[at].name != e.name == accepted
    case ManifestDigest(name, found, accepted) =>
      at < |migrations| && migrations[at].name == e.name == name && found == migrations[at].sha256 != e.sha256 == accepted
    case _ => false
  }

  lemma {:induction false} DiskReportedIff(disk: map<string, string>, entries: seq<Entry>, problem: Problem)
    ensures problem in DiskProblems(disk, entries) <==> exists e :: e in entries && problem in DiskProblem(disk, e)
  {
    if entries != [] {
      DiskReportedIff(disk, entries[1..], problem);
      assert entries == [entries[0]] + entries[1..];
    }
  }

  lemma ManifestDueSplit(migrations: seq<Entry>, at: nat, entries: seq<Entry>, problem: Problem)
    requires entries != []
    ensures ManifestDue(migrations, at, entries, problem)
       <==> PositionDue(migrations, at, entries[0], problem) || ManifestDue(migrations, at + 1, entries[1..], problem)
  {
    if ManifestDue(migrations, at + 1, entries[1..], problem) {
      var i :| 0 <= i < |entries[1..]| && PositionDue(migrations, at + 1 + i, entries[1..][i], problem);
      assert entries[i + 1] == entries[1..][i] && PositionDue(migrations, at + (i + 1), entries[i + 1], problem);
    }
    if PositionDue(migrations, at, entries[0], problem) {
      assert PositionDue(migrations, at + 0, entries[0], problem);
    } else if i :| 0 <= i < |entries| && PositionDue(migrations, at + i, entries[i], problem) {
      assert PositionDue(migrations, at + 1 + (i - 1), entries[1..][i - 1], problem);
    }
  }

  lemma {:induction false} ManifestReportedIff(migrations: seq<Entry>, at: nat, entries: seq<Entry>, problem: Problem)
    ensures problem in ManifestProblems(migrations, at, entries) <==> ManifestDue(migrations, at, entries, problem)
    decreases |entries|
  {
    if entries != [] {
      ManifestReportedIff(migrations, at + 1, entries[1..], problem);
      ManifestDueSplit(migrations, at, entries, problem);
    }
  }

  lemma {:induction false} StragglerReportedIff(l: Literal, later: seq<Entry>, problem: Problem)
    requires l.entries != [] && FourDigit(Start(l)) && FourDigit(End(l))
    ensures problem in Stragglers(l, later)
       <==> problem.Straggler? && InRange(l, problem.name) && exists e :: e in later && e.name == problem.name
  {
    if later != [] {
      StragglerReportedIff(l, later[1..], problem);
      assert later == [later[0]] + later[1..];
    }
  }

  lemma NameOfEntry(entries: seq<Entry>, e: Entry)
    requires e in entries
    ensures e.name in Names(entries)
  {
    var i :| 0 <= i < |entries| && entries[i] == e;
    assert Names(entries)[i] == e.name;
  }

  lemma DiskReportsAreDue(l: Literal, tree: Tree, problem: Problem)
    requires Numbered(l)
    ensures problem in DiskProblems(tree.disk, l.entries) <==> (problem.Missing? || problem.WrongDigest?) && Due(l, tree, problem)
  {
    DiskReportedIff(tree.disk, l.entries, problem);
    if problem.Missing? && Due(l, tree, problem) {
      var i := NameIndex(l.entries, problem.name);
      assert l.entries[i] in l.entries && problem in DiskProblem(tree.disk, l.entries[i]);
    }
    if problem.WrongDigest? && Due(l, tree, problem) {
      assert problem in DiskProblem(tree.disk, Entry(problem.name, problem.accepted));
    }
    if e :| e in l.entries && problem in DiskProblem(tree.disk, e) {
      NameOfEntry(l.entries, e);
    }
  }

  lemma RangeReportedIff(inRange: seq<string>, expected: seq<string>, clean: bool, problem: Problem)
    requires !problem.OutOfOrder?
    ensures problem in RangeProblems(inRange, expected, clean)
       <==> problem.Extra? && problem.name in inRange && problem.name !in expected && Join(inRange, "\n") != Join(expected, "\n")
  {
    var extra := Without(inRange, expected);
    if problem.Extra? && problem.name in extra {
      var i :| 0 <= i < |extra| && extra[i] == problem.name;
      assert Extras(extra)[i] == problem;
    }
  }

  lemma RangeReportsAreDue(l: Literal, tree: Tree, problem: Problem, clean: bool)
    requires Numbered(l) && !problem.OutOfOrder?
    ensures problem in RangeProblems(SortedNames(RangeFiles(l, tree.disk)), Names(l.entries), clean)
       <==> problem.Extra? && Due(l, tree, problem)
  {
    RangeReportedIff(SortedNames(RangeFiles(l, tree.disk)), Names(l.entries), clean, problem);
  }

  lemma LaterNames(l: Literal, migrations: seq<Entry>, name: string)
    ensures (exists e :: e in Later(l, migrations) && e.name == name)
       <==> exists i :: l.offset + |l.entries| <= i < |migrations| && migrations[i].name == name
  {
    var later, first := Later(l, migrations), l.offset + |l.entries|;
    if e :| e in later && e.name == name {
      var i :| 0 <= i < |later| && later[i] == e;
      assert migrations[first + i].name == name;
    }
    if i :| first <= i < |migrations| && migrations[i].name == name {
      assert later[i - first] == migrations[i];
    }
  }

  lemma StragglerReportsAreDue(l: Literal, tree: Tree, problem: Problem)
    requires Numbered(l)
    ensures problem in Stragglers(l, Later(l, tree.manifest.migrations)) <==> problem.Straggler? && Due(l, tree, problem)
  {
    StragglerReportedIff(l, Later(l, tree.manifest.migrations), problem);
    if problem.Straggler? {
      LaterNames(l, tree.manifest.migrations, problem.name);
    }
  }

  /** Each problem is reported exactly when it is due: every report is true, and none is left out. */
  lemma ReportedIffDue(l: Literal, tree: Tree, problem: Problem)
    requires Numbered(l)
    ensures problem in Check(l, tree) <==> Due(l, tree, problem)
  {
    if problem.OutOfOrder? {
      OrderIsNeverTheProblem(l, tree);
    } else {
      DiskReportsAreDue(l, tree, problem);
      RangeReportsAreDue(l, tree, problem, DiskProblems(tree.disk, l.entries) == []);
      ManifestReportedIff(tree.manifest.migrations, l.offset, l.entries, problem);
      StragglerReportsAreDue(l, tree, problem);
      AtMostTotal(End(l), tree.manifest.frozenThrough);
    }
  }

  /** The manifest entries at `from` and the positions after it, as far as there are any. */
  function Window(migrations: seq<Entry>, from: nat, count: nat): seq<Entry> {
    if |migrations| <= from then []
    else if |migrations| <= from + count then migrations[from..]
    else migrations[from..from + count]
  }

  /** Files and later manifest entries outside the range never change the answer. */
  lemma OnlyTheRangeMatters(l: Literal, a: Tree, b: Tree)
    requires Numbered(l)
    requires forall f | f in Names(l.entries) || (IsSql(f) && InRange(l, f)) ::
               (f in a.disk <==> f in b.disk) && (f in a.disk ==> a.disk[f] == b.disk[f])
    requires a.manifest.frozenThrough == b.manifest.frozenThrough
    requires Window(a.manifest.migrations, l.offset, |l.entries|) == Window(b.manifest.migrations, l.offset, |l.entries|)
    requires RangeEntries(l, Later(l, a.manifest.migrations)) == RangeEntries(l, Later(l, b.manifest.migrations))
    ensures Check(l, a) == Check(l, b)
  {
    assert RangeFiles(l, a.disk) == RangeFiles(l, b.disk);
    SameDiskProblems(a.disk, b.disk, l.entries);
    SameManifestProblems(a.manifest.migrations, b.manifest.migrations, l.offset, l.entries);
    SameStragglers(l, Later(l, a.manifest.migrations), Later(l, b.manifest.migrations));
  }

  /** The names of the entries that lie in the range. */
  function RangeEntries(l: Literal, later: seq<Entry>): seq<string>
    requires Numbered(l)
  {
    if later == [] then []
    else (if InRange(l, later[0].name) then [later[0].name] else []) + RangeEntries(l, later[1..])
  }

  lemma {:induction false} StragglersOf(l: Literal, later: seq<Entry>)
    requires Numbered(l)
    ensures |Stragglers(l, later)| == |RangeEntries(l, later)|
    ensures forall i | 0 <= i < |Stragglers(l, later)| :: Stragglers(l, later)[i] == Straggler(RangeEntries(l, later)[i])
  {
    if later != [] {
      StragglersOf(l, later[1..]);
    }
  }

  lemma SameStragglers(l: Literal, a: seq<Entry>, b: seq<Entry>)
    requires Numbered(l) && RangeEntries(l, a) == RangeEntries(l, b)
    ensures Stragglers(l, a) == Stragglers(l, b)
  {
    StragglersOf(l, a);
    StragglersOf(l, b);
  }

  lemma {:induction false} SameDiskProblems(a: map<string, string>, b: map<string, string>, entries: seq<Entry>)
    requires forall f | f in Names(entries) :: (f in a <==> f in b) && (f in a ==> a[f] == b[f])
    ensures DiskProblems(a, entries) == DiskProblems(b, entries)
  {
    if entries != [] {
      assert Names(entries)[0] == entries[0].name;
      assert forall f | f in Names(entries[1..]) :: f in Names(entries);
      SameDiskProblems(a, b, entries[1..]);
    }
  }

  lemma NextWindow(migrations: seq<Entry>, from: nat, count: nat)
    requires count > 0
    ensures var window := Window(migrations, from, count);
            if from < |migrations| then window != [] && window[0] == migrations[from] && window[1..] == Window(migrations, from + 1, count - 1)
            else window == [] == Window(migrations, from + 1, count - 1)
  {
  }

  lemma {:induction false} SameManifestProblems(a: seq<Entry>, b: seq<Entry>, at: nat, entries: seq<Entry>)
    requires Window(a, at, |entries|) == Window(b, at, |entries|)
    ensures ManifestProblems(a, at, entries) == ManifestProblems(b, at, entries)
    decreases |entries|
  {
    if entries != [] {
      NextWindow(a, at, |entries|);
      NextWindow(b, at, |entries|);
      SameManifestProblems(a, b, at + 1, entries[1..]);
    }
  }

  /** The literal of the first `k` entries. */
  function FirstPart(l: Literal, k: nat): (part: Literal)
    requires Numbered(l) && 0 < k <= |l.entries|
    ensures Numbered(part)
  {
    l.(entries := l.entries[..k])
  }

  lemma FirstPartEnds(l: Literal, k: nat)
    requires Numbered(l) && 0 < k <= |l.entries|
    ensures Start(FirstPart(l, k)) == Start(l) && End(FirstPart(l, k)) == l.entries[k - 1].name
    ensures AtMost(End(FirstPart(l, k)), End(l))
  {
    NameOrder(l, k - 1, |l.entries| - 1);
  }

  /** What lies in the range of the first part lies in the range of the whole. */
  lemma FirstPartRange(l: Literal, k: nat, file: string)
    requires Numbered(l) && 0 < k <= |l.entries|
    ensures InRange(FirstPart(l, k), file) ==> InRange(l, file)
  {
    if k < |l.entries| {
      FourDigitOrder(End(FirstPart(l, k)), End(l));
      if AtMost(file, End(FirstPart(l, k))) {
        AtMostTransitive(file, End(FirstPart(l, k)), End(l));
      }
    }
  }

  /** A later entry of the literal is outside the range of the first part. */
  lemma RestOutsideFirstPart(l: Literal, k: nat, i: nat)
    requires Numbered(l) && 0 < k <= i < |l.entries|
    ensures !InRange(FirstPart(l, k), l.entries[i].name)
  {
    var end := End(FirstPart(l, k));
    FourDigitOrder(end, l.entries[i].name);
    FourDigitNumber(l.entries[i].name);
    AtMostTotal(l.entries[i].name, end);
  }

  lemma RangeCoversFirstPart(l: Literal, k: nat, disk: map<string, string>)
    requires Numbered(l) && 0 < k <= |l.entries| && RangeAgrees(l, disk)
    ensures RangeAgrees(FirstPart(l, k), disk)
  {
    var part := FirstPart(l, k);
    forall f | f in disk && IsSql(f) && InRange(part, f)
      ensures f in Names(part.entries)
    {
      FirstPartRange(l, k, f);
      var i :| 0 <= i < |l.entries| && Names(l.entries)[i] == f;
      if i >= k {
        RestOutsideFirstPart(l, k, i);
        assert false;
      }
      assert Names(part.entries)[i] == f;
    }
  }

  lemma ManifestAgreesFirst(migrations: seq<Entry>, at: nat, entries: seq<Entry>, k: nat)
    requires ManifestAgrees(migrations, at, entries) && k <= |entries|
    ensures ManifestAgrees(migrations, at, entries[..k])
  {
    forall i | 0 <= i < k
      ensures migrations[at + i] == entries[..k][i]
    {
      var e := entries[i];
    }
  }

  lemma ManifestCoversFirstPart(l: Literal, k: nat, migrations: seq<Entry>)
    requires Numbered(l) && 0 < k <= |l.entries|
    requires ManifestAgrees(migrations, l.offset, l.entries) && NoStragglers(l, migrations)
    ensures ManifestAgrees(migrations, l.offset, FirstPart(l, k).entries) && NoStragglers(FirstPart(l, k), migrations)
  {
    var part := FirstPart(l, k);
    ManifestAgreesFirst(migrations, l.offset, l.entries, k);
    forall i | l.offset + k <= i < |migrations|
      ensures !InRange(part, migrations[i].name)
    {
      var j := i - l.offset;
      if j < |l.entries| {
        var e := l.entries[j];
        assert migrations[i] == e;
        RestOutsideFirstPart(l, k, j);
      } else {
        FirstPartRange(l, k, migrations[i].name);
      }
    }
  }

  lemma FloorCoversFirstPart(l: Literal, k: nat, frozenThrough: string)
    requires Numbered(l) && 0 < k <= |l.entries| && AtMost(End(l), frozenThrough)
    ensures AtMost(End(FirstPart(l, k)), frozenThrough)
  {
    FirstPartEnds(l, k);
    AtMostTransitive(End(FirstPart(l, k)), End(l), frozenThrough);
  }

  lemma DiskAgreesFirst(disk: map<string, string>, entries: seq<Entry>, k: nat)
    requires DiskAgrees(disk, entries) && k <= |entries|
    ensures DiskAgrees(disk, entries[..k])
  {
    forall i | 0 <= i < k
      ensures entries[..k][i].name in disk && disk[entries[..k][i].name] == entries[..k][i].sha256
    {
      var e := entries[i];
    }
  }

  lemma AcceptingCoversFirstPart(l: Literal, k: nat, tree: Tree)
    requires Numbered(l) && 0 < k <= |l.entries| && Accepts(l, tree)
    ensures Accepts(FirstPart(l, k), tree)
  {
    DiskAgreesFirst(tree.disk, l.entries, k);
    RangeCoversFirstPart(l, k, tree.disk);
    ManifestCoversFirstPart(l, k, tree.manifest.migrations);
    FloorCoversFirstPart(l, k, tree.manifest.frozenThrough);
  }

  /** A tree that passes the full prefix passes each of its first parts: the slices of Phase 3 as the
      full Phase 3. */
  lemma PassingCoversFirstPart(l: Literal, k: nat, tree: Tree)
    requires Numbered(l) && 0 < k <= |l.entries|
    requires Check(l, tree) == []
    ensures Check(FirstPart(l, k), tree) == []
  {
    PassesIffAccepts(l, tree);
    PassesIffAccepts(FirstPart(l, k), tree);
    AcceptingCoversFirstPart(l, k, tree);
  }
}
