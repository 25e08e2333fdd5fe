/** The migration boundary of the corrective gate, in its candidate and accepted tenses. */
module Boundary {
  import opened Options
  import opened Text
  import opened Migrations
  import opened Prefix

  datatype Problem =
    | OfPrefix(problem: Prefix.Problem)
    | AfterDiffers(after: seq<string>)
    | NotOnBoundary(frozenThrough: string)
    | PrematureFreeze(name: string)
    | AfterBeginsDifferently(after: seq<string>)
    | AcceptedNamesDiffer
    | BelowFloor(frozenThrough: string)
    | AcceptedMissing(name: string)
    | AcceptedDigest(name: string, onDisk: string, accepted: string)
    | NotFrozen(name: string)

  /** The full accepted history, and how many of its entries the slices had frozen. The rest are the
      corrective migrations. */
  datatype Pin = Pin(full: Literal, slices: nat)

  ghost predicate Pinned(p: Pin) {
    Numbered(p.full) && 0 < p.slices < |p.full.entries| && !p.full.open
  }

  function Slice(p: Pin): Literal
    requires Pinned(p)
  {
    FirstPart(p.full, p.slices)
  }

  /** The last slice migration. */
  function BoundaryName(p: Pin): string
    requires Pinned(p)
  {
    p.full.entries[p.slices - 1].name
  }

  function Corrective(p: Pin): seq<Entry>
    requires Pinned(p)
  {
    p.full.entries[p.slices..]
  }

  /** The names of the corrective migrations. */
  function Declared(p: Pin): seq<string>
    requires Pinned(p)
  {
    Names(Corrective(p))
  }

  ghost function AfterFiles(boundary: string, disk: map<string, string>): set<string> {
    set f | f in disk && IsSql(f) && Less(boundary, f)
  }

  /** The digest the manifest records for each name; the last entry of a name wins. */
  function Recorded(migrations: seq<Entry>): (m: map<string, string>)
    ensures forall n :: n in m <==> n in Names(migrations)
  {
    if migrations == [] then map[]
    else
      var front, last := migrations[..|migrations| - 1], migrations[|migrations| - 1];
      assert migrations == front + [last];
      NamesAppend(front, last);
      Recorded(front)[last.name := last.sha256]
  }

  lemma {:induction false} NamesAppend(entries: seq<Entry>, e: Entry)
    ensures Names(entries + [e]) == Names(entries) + [e.name]
  {
  }

  /** The manifest's record of a name is that of its last entry of the name. */
  lemma {:induction false} LastEntryIsRecorded(migrations: seq<Entry>, i: nat)
    requires i < |migrations| && forall j | i < j < |migrations| :: migrations[j].name != migrations[i].name
    ensures migrations[i].name in Recorded(migrations) && Recorded(migrations)[migrations[i].name] == migrations[i].sha256
  {
    if i < |migrations| - 1 {
      LastEntryIsRecorded(migrations[..|migrations| - 1], i);
    }
  }

  // ---- the check -------------------------------------------------------------------------------

  function Wrap(problems: seq<Prefix.Problem>): (r: seq<Problem>)
    ensures |r| == |problems| && forall i | 0 <= i < |r| :: r[i] == OfPrefix(problems[i])
  {
    if problems == [] then [] else [OfPrefix(problems[0])] + Wrap(problems[1..])
  }

  function Premature(after: seq<string>, recorded: map<string, string>): seq<Problem> {
    if after == [] then [] else (if after[0] in recorded then [PrematureFreeze(after[0])] else []) + Premature(after[1..], recorded)
  }

  function AcceptedProblem(disk: map<string, string>, recorded: map<string, string>, e: Entry): seq<Problem> {
    if e.name !in disk then [AcceptedMissing(e.name)]
    else
      (if disk[e.name] != e.sha256 then [AcceptedDigest(e.name, disk[e.name], e.sha256)] else [])
      + (if e.name in recorded && recorded[e.name] == e.sha256 then [] else [NotFrozen(e.name)])
  }

  function AcceptedProblems(disk: map<string, string>, recorded: map<string, string>, accepted: seq<Entry>): seq<Problem> {
    if accepted == [] then [] else AcceptedProblem(disk, recorded, accepted[0]) + AcceptedProblems(disk, recorded, accepted[1..])
  }

  /** The first `n` names, or all of them if there are fewer. */
  function FirstOf(after: seq<string>, n: nat): seq<string> {
    if n <= |after| then after[..n] else after
  }

  /** The tense with nothing accepted yet, from what the prefix check found and the files after the
      boundary. */
  function CandidateReport(found: seq<Prefix.Problem>, after: seq<string>, declared: seq<string>, boundary: string, manifest: Manifest): seq<Problem> {
    Wrap(found)
    + (if after != declared then [AfterDiffers(after)] else [])
    + (if manifest.frozenThrough != boundary then [NotOnBoundary(manifest.frozenThrough)] else [])
    + Premature(after, Recorded(manifest.migrations))
  }

  /** The tense once digests are accepted. */
  function AcceptedReport(found: seq<Prefix.Problem>, after: seq<string>, declared: seq<string>, last: string, tree: Tree, accepted: seq<Entry>): seq<Problem> {
    var head, frozenThrough := FirstOf(after, |declared|), tree.manifest.frozenThrough;
    Wrap(found)
    + (if head != declared then [AfterBeginsDifferently(head)] else [])
    + (if Sort(Names(accepted)) != Sort(declared) then [AcceptedNamesDiffer] else [])
    + (if Less(frozenThrough, last) then [BelowFloor(frozenThrough)] else [])
    + AcceptedProblems(tree.disk, Recorded(tree.manifest.migrations), accepted)
  }

  ghost function ProblemsOf(p: Pin, tree: Tree, accepted: seq<Entry>): seq<Problem>
    requires Pinned(p)
  {
    var after := SortedNames(AfterFiles(BoundaryName(p), tree.disk));
    if accepted == [] then CandidateReport(Check(Slice(p), tree), after, Declared(p), BoundaryName(p), tree.manifest)
    else AcceptedReport(Check(p.full, tree), after, Declared(p), End(p.full), tree, accepted)
  }

  /** `boundaryProblems`: the tense is a candidate's exactly while `accepted` is empty. */
  method BoundaryProblems(p: Pin, tree: Tree, listing: seq<string>, accepted: seq<Entry>) returns (problems: seq<Problem>)
    requires Pinned(p) && Lists(listing, tree.disk)
    ensures problems == ProblemsOf(p, tree, accepted)
  {
    var found := CheckPrefix(if accepted == [] then Slice(p) else p.full, tree, listing);
    var after := FilesAfter(BoundaryName(p), tree.disk, listing);
    if accepted == [] {
      problems := CandidateTense(found, after, Declared(p), BoundaryName(p), tree.manifest);
    } else {
      problems := AcceptedTense(found, after, Declared(p), End(p.full), tree, accepted);
    }
  }

  lemma NextPremature(found: seq<Problem>, after: seq<string>, recorded: map<string, string>, i: nat)
    requires i < |after|
    ensures found + Premature(after[i..], recorded)
         == (found + if after[i] in recorded then [PrematureFreeze(after[i])] else []) + Premature(after[i + 1..], recorded)
  {
    assert after[i..][0] == after[i] && after[i..][1..] == after[i + 1..];
    Reassociate(found, if after[i] in recorded then [PrematureFreeze(after[i])] else [], Premature(after[i + 1..], recorded));
  }

  method ReportPremature(after: seq<string>, recorded: map<string, string>, found: seq<Problem>) returns (problems: seq<Problem>)
    ensures problems == found + Premature(after, recorded)
  {
    problems := found;
    for i := 0 to |after|
      invariant problems + Premature(after[i..], recorded) == found + Premature(after, recorded)
    {
      NextPremature(problems, after, recorded, i);
      if after[i] in recorded {
        problems := problems + [PrematureFreeze(after[i])];
      }
    }
  }

  method CandidateTense(found: seq<Prefix.Problem>, after: seq<string>, declared: seq<string>, boundary: string, manifest: Manifest)
      returns (problems: seq<Problem>)
    ensures problems == CandidateReport(found, after, declared, boundary, manifest)
  {
    problems := Wrap(found);
    if after != declared {
      problems := problems + [AfterDiffers(after)];
    }
    if manifest.frozenThrough != boundary {
      problems := problems + [NotOnBoundary(manifest.frozenThrough)];
    }
    problems := ReportPremature(after, Recorded(manifest.migrations), problems);
  }

  method AcceptedTense(found: seq<Prefix.Problem>, after: seq<string>, declared: seq<string>, last: string, tree: Tree, accepted: seq<Entry>)
      returns (problems: seq<Problem>)
    ensures problems == AcceptedReport(found, after, declared, last, tree, accepted)
  {
    problems := Wrap(found);
    var head := FirstOf(after, |declared|);
    if head != declared {
      problems := problems + [AfterBeginsDifferently(head)];
    }
    assert problems == Wrap(found) + if head != declared then [AfterBeginsDifferently(head)] else [];
    ghost var first := problems;
    if Sort(Names(accepted)) != Sort(declared) {
      problems := problems + [AcceptedNamesDiffer];
    }
    assert problems == first + if Sort(Names(accepted)) != Sort(declared) then [AcceptedNamesDiffer] else [];
    ghost var second := problems;
    if Less(tree.manifest.frozenThrough, last) {
      problems := problems + [BelowFloor(tree.manifest.frozenThrough)];
    }
    assert problems == second + if Less(tree.manifest.frozenThrough, last) then [BelowFloor(tree.manifest.frozenThrough)] else [];
    problems := ReportAccepted(tree.disk, Recorded(tree.manifest.migrations), accepted, problems);
  }

  method FilesAfter(boundary: string, disk: map<string, string>, listing: seq<string>) returns (after: seq<string>)
    requires Lists(listing, disk)
    ensures after == SortedNames(AfterFiles(boundary, disk))
  {
    var kept := [];
    for i := 0 to |listing|
      invariant Distinct(kept)
      invariant forall f :: f in kept <==> f in listing[..i] && IsSql(f) && Less(boundary, f)
    {
      assert listing[..i + 1] == listing[..i] + [listing[i]];
      if IsSql(listing[i]) && Less(boundary, listing[i]) {
        kept := kept + [listing[i]];
      }
    }
    assert listing[..|listing|] == listing;
    SortListing(AfterFiles(boundary, disk), kept);
    after := Sort(kept);
  }

  lemma NextAcceptedProblem(found: seq<Problem>, disk: map<string, string>, recorded: map<string, string>, accepted: seq<Entry>, i: nat)
    requires i < |accepted|
    ensures found + AcceptedProblems(disk, recorded, accepted[i..])
         == (found + AcceptedProblem(disk, recorded, accepted[i])) + AcceptedProblems(disk, recorded, accepted[i + 1..])
  {
    assert accepted[i..][0] == accepted[i] && accepted[i..][1..] == accepted[i + 1..];
    Reassociate(found, AcceptedProblem(disk, recorded, accepted[i]), AcceptedProblems(disk, recorded, accepted[i + 1..]));
  }

  method ReportAccepted(disk: map<string, string>, recorded: map<string, string>, accepted: seq<Entry>, found: seq<Problem>)
      returns (problems: seq<Problem>)
    ensures problems == found + AcceptedProblems(disk, recorded, accepted)
  {
    problems := found;
    for i := 0 to |accepted|
      invariant problems + AcceptedProblems(disk, recorded, accepted[i..]) == found + AcceptedProblems(disk, recorded, accepted)
    {
      var name, digest := accepted[i].name, accepted[i].sha256;
      NextAcceptedProblem(problems, disk, recorded, accepted, i);
      ghost var next := problems + AcceptedProblem(disk, recorded, accepted[i]);
      if name !in disk {
        problems := problems + [AcceptedMissing(name)];
      } else {
        if disk[name] != digest {
          problems := problems + [AcceptedDigest(name, disk[name], digest)];
        }
        if !(name in recorded && recorded[name] == digest) {
          problems := problems + [NotFrozen(name)];
        }
      }
      assert problems == next;
    }
  }

  // ---- what the tenses mean --------------------------------------------------------------------

  lemma {:induction false} PrematureNone(after: seq<string>, recorded: map<string, string>)
    ensures Premature(after, recorded) == [] <==> forall f | f in after :: f !in recorded
  {
    if after != [] {
      PrematureNone(after[1..], recorded);
      assert forall f | f in after :: f == after[0] || f in after[1..];
      assert after[0] in after && forall f | f in after[1..] :: f in after;
    }
  }

  lemma {:induction false} AcceptedNone(disk: map<string, string>, recorded: map<string, string>, accepted: seq<Entry>)
    ensures AcceptedProblems(disk, recorded, accepted) == [] <==>
            forall e | e in accepted :: e.name in disk && disk[e.name] == e.sha256 && e.name in recorded && recorded[e.name] == e.sha256
  {
    if accepted != [] {
      AcceptedNone(disk, recorded, accepted[1..]);
      assert forall e | e in accepted :: e == accepted[0] || e in accepted[1..];
      assert accepted[0] in accepted && forall e | e in accepted[1..] :: e in accepted;
    }
  }

  lemma CandidateReportNone(found: seq<Prefix.Problem>, after: seq<string>, declared: seq<string>, boundary: string, manifest: Manifest)
    ensures CandidateReport(found, after, declared, boundary, manifest) == [] <==>
            found == [] && after == declared && manifest.frozenThrough == boundary && forall f | f in declared :: f !in Names(manifest.migrations)
  {
    PrematureNone(after, Recorded(manifest.migrations));
  }

  lemma AcceptedReportNone(found: seq<Prefix.Problem>, after: seq<string>, declared: seq<string>, last: string, tree: Tree, accepted: seq<Entry>)
    ensures AcceptedReport(found, after, declared, last, tree, accepted) == [] <==>
            && found == [] && FirstOf(after, |declared|) == declared && Sort(Names(accepted)) == Sort(declared)
            && !Less(tree.manifest.frozenThrough, last)
            && AcceptedProblems(tree.disk, Recorded(tree.manifest.migrations), accepted) == []
  {
  }

  lemma DeclaredAt(p: Pin, i: nat)
    requires Pinned(p) && p.slices <= i < |p.full.entries|
    ensures var f := p.full.entries[i].name;
            IsSql(f) && FourDigit(f) && Less(BoundaryName(p), f) && AtMost(f, End(p.full))
  {
    NameOrder(p.full, p.slices - 1, i);
    NameOrder(p.full, i, |p.full.entries| - 1);
  }

  lemma DeclaredOrder(p: Pin, i: nat, j: nat)
    requires Pinned(p) && i < j < |Declared(p)|
    ensures Less(Declared(p)[i], Declared(p)[j])
  {
    NameInTail(p.full.entries, p.slices, i);
    NameInTail(p.full.entries, p.slices, j);
    NameOrder(p.full, p.slices + i, p.slices + j);
  }

  /** The declared files are a strictly sorted stretch right after the boundary. */
  lemma DeclaredSorted(p: Pin)
    requires Pinned(p)
    ensures StrictlySorted(Declared(p))
    ensures forall f | f in Declared(p) :: IsSql(f) && FourDigit(f) && Less(BoundaryName(p), f) && AtMost(f, End(p.full))
  {
    var declared := Declared(p);
    forall i, j | 0 <= i < j < |declared|
      ensures Less(declared[i], declared[j])
    {
      DeclaredOrder(p, i, j);
    }
    forall f | f in declared
      ensures IsSql(f) && FourDigit(f) && Less(BoundaryName(p), f) && AtMost(f, End(p.full))
    {
      var i := NameIndex(Corrective(p), f);
      DeclaredAt(p, p.slices + i);
    }
  }

  /** A candidate tree: the slices intact, exactly the declared files after them, the manifest on the
      boundary and none of the declared files in it. */
  ghost predicate Candidate(p: Pin, tree: Tree)
    requires Pinned(p)
  {
    && Accepts(Slice(p), tree)
    && (forall f :: f in AfterFiles(BoundaryName(p), tree.disk) <==> f in Declared(p))
    && tree.manifest.frozenThrough == BoundaryName(p)
    && (forall f | f in Declared(p) :: f !in Names(tree.manifest.migrations))
  }

  lemma CandidatePassesIff(p: Pin, tree: Tree)
    requires Pinned(p)
    ensures ProblemsOf(p, tree, []) == [] <==> Candidate(p, tree)
  {
    CandidateParts(p, tree);
    AfterFilesDecide(p, tree.disk);
    PassesIffAccepts(Slice(p), tree);
  }

  lemma AfterFilesDecide(p: Pin, disk: map<string, string>)
    requires Pinned(p)
    ensures SortedNames(AfterFiles(BoundaryName(p), disk)) == Declared(p)
       <==> forall f :: f in AfterFiles(BoundaryName(p), disk) <==> f in Declared(p)
  {
    DeclaredSorted(p);
    FilesAreDeclared(AfterFiles(BoundaryName(p), disk), Declared(p));
  }

  lemma FilesAreDeclared(files: set<string>, declared: seq<string>)
    requires StrictlySorted(declared)
    ensures SortedNames(files) == declared <==> forall f :: f in files <==> f in declared
  {
    if forall f :: f in files <==> f in declared {
      SortedNamesUnique(files, declared);
    }
  }

  lemma CandidateParts(p: Pin, tree: Tree)
    requires Pinned(p)
    ensures ProblemsOf(p, tree, []) == [] <==>
            && Check(Slice(p), tree) == []
            && SortedNames(AfterFiles(BoundaryName(p), tree.disk)) == Declared(p)
            && tree.manifest.frozenThrough == BoundaryName(p)
            && forall f | f in Declared(p) :: f !in Names(tree.manifest.migrations)
  {
    CandidateReportNone(Check(Slice(p), tree), SortedNames(AfterFiles(BoundaryName(p), tree.disk)), Declared(p), BoundaryName(p), tree.manifest);
  }

  lemma AcceptedParts(p: Pin, tree: Tree, accepted: seq<Entry>)
    requires Pinned(p) && accepted != []
    ensures ProblemsOf(p, tree, accepted) == [] <==>
            && Check(p.full, tree) == []
            && FirstOf(SortedNames(AfterFiles(BoundaryName(p), tree.disk)), |Declared(p)|) == Declared(p)
            && Sort(Names(accepted)) == Sort(Declared(p))
            && !Less(tree.manifest.frozenThrough, End(p.full))
            && AcceptedProblems(tree.disk, Recorded(tree.manifest.migrations), accepted) == []
  {
    AcceptedReportNone(Check(p.full, tree), SortedNames(AfterFiles(BoundaryName(p), tree.disk)), Declared(p), End(p.full), tree, accepted);
  }

  lemma BeginsWithDeclared(files: set<string>, declared: seq<string>, end: string)
    requires StrictlySorted(declared) && forall f | f in declared :: f in files && AtMost(f, end)
    requires forall f | f in files :: f in declared || Less(end, f)
    ensures FirstOf(SortedNames(files), |declared|) == declared
  {
    var later := SortedNames(set f | f in files && f !in declared);
    forall i, j | 0 <= i < |declared| && 0 <= j < |later|
      ensures Less(declared[i], later[j])
    {
      assert later[j] in later && declared[i] in declared;
      AtMostTransitive(declared[i], end, later[j]);
    }
    SortedNamesUnique(files, declared + later);
  }

  lemma BetweenIsAccepted(l: Literal, disk: map<string, string>, f: string)
    requires Numbered(l) && RangeAgrees(l, disk) && f in disk && IsSql(f)
    requires AtMost(Start(l), f) && AtMost(f, End(l))
    ensures f in Names(l.entries)
  {
  }

  lemma IndexPastBoundary(p: Pin, i: nat)
    requires Pinned(p) && i < |p.full.entries| && Less(BoundaryName(p), p.full.entries[i].name)
    ensures p.slices <= i
  {
    AtMostTotal(p.full.entries[i].name, BoundaryName(p));
    if i < p.slices {
      NameOrder(p.full, i, p.slices - 1);
    }
  }

  lemma PastBoundaryIsDeclared(p: Pin, f: string)
    requires Pinned(p) && f in Names(p.full.entries) && Less(BoundaryName(p), f)
    ensures f in Declared(p)
  {
    var i := NameIndex(p.full.entries, f);
    IndexPastBoundary(p, i);
    assert Declared(p)[i - p.slices] == f;
  }

  lemma StartToBoundary(p: Pin)
    requires Pinned(p)
    ensures AtMost(Start(p.full), BoundaryName(p))
  {
    NameOrder(p.full, 0, p.slices - 1);
  }

  lemma UpToEndIsDeclared(p: Pin, disk: map<string, string>, f: string)
    requires Pinned(p) && RangeAgrees(p.full, disk) && f in disk && IsSql(f)
    requires Less(BoundaryName(p), f) && AtMost(f, End(p.full))
    ensures f in Declared(p)
  {
    StartToBoundary(p);
    AtMostTransitive(Start(p.full), BoundaryName(p), f);
    BetweenIsAccepted(p.full, disk, f);
    PastBoundaryIsDeclared(p, f);
  }

  /** With the full prefix intact, a file after the boundary is declared or comes after the end. */
  lemma AfterIsDeclaredOrLater(p: Pin, disk: map<string, string>, f: string)
    requires Pinned(p) && RangeAgrees(p.full, disk)
    requires f in AfterFiles(BoundaryName(p), disk)
    ensures f in Declared(p) || Less(End(p.full), f)
  {
    AtMostTotal(f, End(p.full));
    if AtMost(f, End(p.full)) {
      UpToEndIsDeclared(p, disk, f);
    }
  }

  lemma DeclaredOnDisk(p: Pin, disk: map<string, string>, f: string)
    requires Pinned(p) && DiskAgrees(disk, p.full.entries) && f in Declared(p)
    ensures f in AfterFiles(BoundaryName(p), disk)
  {
    DeclaredSorted(p);
    var i :| 0 <= i < |Declared(p)| && Declared(p)[i] == f;
    assert p.full.entries[p.slices + i].name in disk;
  }

  lemma {:induction false} LastRecord(migrations: seq<Entry>, k: nat)
    requires k < |migrations|
    requires forall j | k < j < |migrations| :: migrations[j].name != migrations[k].name
    ensures migrations[k].name in Recorded(migrations) && Recorded(migrations)[migrations[k].name] == migrations[k].sha256
  {
    if k < |migrations| - 1 {
      LastRecord(migrations[..|migrations| - 1], k);
    }
  }

  lemma LaterRecordsDiffer(l: Literal, migrations: seq<Entry>, i: nat, j: nat)
    requires Numbered(l) && ManifestAgrees(migrations, l.offset, l.entries) && NoStragglers(l, migrations)
    requires i < |l.entries| && l.offset + i < j < |migrations|
    ensures migrations[j].name != l.entries[i].name
  {
    if j < l.offset + |l.entries| {
      var other := l.entries[j - l.offset];
      assert migrations[l.offset + (j - l.offset)] == other;
      NameOrder(l, i, j - l.offset);
      LessTrichotomy(l.entries[i].name, other.name);
    } else {
      AcceptedIsInRange(l, i);
    }
  }

  lemma AcceptedIsInRange(l: Literal, i: nat)
    requires Numbered(l) && i < |l.entries|
    ensures InRange(l, l.entries[i].name)
  {
    NameOrder(l, 0, i);
    NameOrder(l, i, |l.entries| - 1);
  }

  /** The manifest's last record of an accepted name is the accepted one. */
  lemma RecordedAccepted(l: Literal, migrations: seq<Entry>, i: nat)
    requires Numbered(l) && ManifestAgrees(migrations, l.offset, l.entries) && NoStragglers(l, migrations)
    requires i < |l.entries|
    ensures var e := l.entries[i]; e.name in Recorded(migrations) && Recorded(migrations)[e.name] == e.sha256
  {
    var k, e := l.offset + i, l.entries[i];
    assert migrations[k] == e;
    forall j | k < j < |migrations|
      ensures migrations[j].name != e.name
    {
      LaterRecordsDiffer(l, migrations, i, j);
    }
    LastRecord(migrations, k);
  }

  /** Once the corrective digests are accepted, the gate's boundary check says exactly what the full
      prefix check says: its own tests of the files after the boundary, the frozen floor, the disk
      digests and the manifest records never decide. */
  lemma AcceptedTenseIsPrefixCheck(p: Pin, tree: Tree)
    requires Pinned(p)
    ensures ProblemsOf(p, tree, Corrective(p)) == [] <==> Check(p.full, tree) == []
  {
    AcceptedParts(p, tree, Corrective(p));
    PassesIffAccepts(p.full, tree);
    if Check(p.full, tree) == [] {
      AcceptedTensePasses(p, tree);
    }
  }

  lemma AcceptedTensePasses(p: Pin, tree: Tree)
    requires Pinned(p) && Accepts(p.full, tree)
    ensures FirstOf(SortedNames(AfterFiles(BoundaryName(p), tree.disk)), |Declared(p)|) == Declared(p)
    ensures !Less(tree.manifest.frozenThrough, End(p.full))
    ensures AcceptedProblems(tree.disk, Recorded(tree.manifest.migrations), Corrective(p)) == []
  {
    var files := AfterFiles(BoundaryName(p), tree.disk);
    DeclaredSorted(p);
    forall f | f in Declared(p) ensures f in files { DeclaredOnDisk(p, tree.disk, f); }
    forall f | f in files ensures f in Declared(p) || Less(End(p.full), f) { AfterIsDeclaredOrLater(p, tree.disk, f); }
    BeginsWithDeclared(files, Declared(p), End(p.full));
    AtMostTotal(End(p.full), tree.manifest.frozenThrough);
    forall e | e in Corrective(p)
      ensures e.name in tree.disk && tree.disk[e.name] == e.sha256
      ensures e.name in Recorded(tree.manifest.migrations) && Recorded(tree.manifest.migrations)[e.name] == e.sha256
    {
      var i :| p.slices <= i < |p.full.entries| && p.full.entries[i] == e;
      RecordedAccepted(p.full, tree.manifest.migrations, i);
    }
    AcceptedNone(tree.disk, Recorded(tree.manifest.migrations), Corrective(p));
  }

  // ---- what each tense reports -----------------------------------------------------------------------

  lemma {:induction false} PrematureReportedIff(after: seq<string>, recorded: map<string, string>, problem: Problem)
    ensures problem in Premature(after, recorded) <==> problem.PrematureFreeze? && problem.name in after && problem.name in recorded
  {
    if after != [] {
      PrematureReportedIff(after[1..], recorded, problem);
      assert after == [after[0]] + after[1..];
    }
  }

  /** An accepted entry's problem: its file missing, its bytes changed, or its record not the accepted. */
  ghost predicate AcceptedDue(disk: map<string, string>, recorded: map<string, string>, e: Entry, problem: Problem) {
    match problem
    case AcceptedMissing(name) => name == e.name && name !in disk
    case AcceptedDigest(name, onDisk, accepted) => name == e.name && name in disk && onDisk == disk[name] != e.sha256 == accepted
    case NotFrozen(name) => name == e.name && name in disk && !(e.name in recorded && recorded[e.name] == e.sha256)
    case _ => false
  }

  lemma {:induction false} AcceptedReportedIff(disk: map<string, string>, recorded: map<string, string>, accepted: seq<Entry>, problem: Problem)
    ensures problem in AcceptedProblems(disk, recorded, accepted) <==> exists e :: e in accepted && AcceptedDue(disk, recorded, e, problem)
  {
    if accepted != [] {
      AcceptedReportedIff(disk, recorded, accepted[1..], problem);
      assert accepted == [accepted[0]] + accepted[1..];
      assert problem in AcceptedProblem(disk, recorded, accepted[0]) <==> AcceptedDue(disk, recorded, accepted[0], problem);
    }
  }

  lemma WrapReportedIff(found: seq<Prefix.Problem>, problem: Problem)
    ensures problem in Wrap(found) <==> problem.OfPrefix? && problem.problem in found
  {
    if problem.OfPrefix? && problem.problem in found {
      var i :| 0 <= i < |found| && found[i] == problem.problem;
      assert Wrap(found)[i] == problem;
    }
  }

  /** The files past the boundary, in name order. */
  ghost predicate FilesPast(p: Pin, disk: map<string, string>, after: seq<string>)
    requires Pinned(p)
  {
    StrictlySorted(after) && forall f :: f in after <==> f in disk && IsSql(f) && Less(BoundaryName(p), f)
  }

  /** When each problem of the candidate tense is due. */
  ghost predicate CandidateDue(p: Pin, tree: Tree, after: seq<string>, problem: Problem)
    requires Pinned(p)
  {
    match problem
    case OfPrefix(found) => Prefix.Due(Slice(p), tree, found)
    case AfterDiffers(files) => files == after != Declared(p)
    case NotOnBoundary(frozenThrough) => frozenThrough == tree.manifest.frozenThrough != BoundaryName(p)
    case PrematureFreeze(name) => name in after && name in Names(tree.manifest.migrations)
    case _ => false
  }

  lemma CandidateReportIff(found: seq<Prefix.Problem>, after: seq<string>, declared: seq<string>, boundary: string, manifest: Manifest, problem: Problem)
    ensures problem in CandidateReport(found, after, declared, boundary, manifest)
       <==> match problem
            case OfPrefix(p) => p in found
            case AfterDiffers(files) => files == after != declared
            case NotOnBoundary(frozenThrough) => frozenThrough == manifest.frozenThrough != boundary
            case PrematureFreeze(name) => name in after && name in Names(manifest.migrations)
            case _ => false
  {
    PrematureReportedIff(after, Recorded(manifest.migrations), problem);
    WrapReportedIff(found, problem);
  }

  lemma CandidateReportedIffDue(p: Pin, tree: Tree, after: seq<string>, problem: Problem)
    requires Pinned(p) && FilesPast(p, tree.disk, after)
    ensures problem in ProblemsOf(p, tree, []) <==> CandidateDue(p, tree, after, problem)
  {
    var found := Check(Slice(p), tree);
    SortedNamesUnique(AfterFiles(BoundaryName(p), tree.disk), after);
    CandidateReportIff(found, after, Declared(p), BoundaryName(p), tree.manifest, problem);
    if problem.OfPrefix? {
      Prefix.ReportedIffDue(Slice(p), tree, problem.problem);
    }
  }

  /** When each problem of the accepted tense is due. */
  ghost predicate AcceptedTenseDue(p: Pin, tree: Tree, after: seq<string>, accepted: seq<Entry>, problem: Problem)
    requires Pinned(p)
  {
    match problem
    case OfPrefix(found) => Prefix.Due(p.full, tree, found)
    case AfterBeginsDifferently(files) => files == (if |after| <= |Declared(p)| then after else after[..|Declared(p)|]) != Declared(p)
    case AcceptedNamesDiffer => multiset(Names(accepted)) != multiset(Declared(p))
    case BelowFloor(frozenThrough) => frozenThrough == tree.manifest.frozenThrough && Less(frozenThrough, End(p.full))
    case _ => exists e :: e in accepted && AcceptedDue(tree.disk, Recorded(tree.manifest.migrations), e, problem)
  }

  lemma SameSortIff(xs: seq<string>, ys: seq<string>)
    ensures Sort(xs) == Sort(ys) <==> multiset(xs) == multiset(ys)
  {
    SortSorts(xs);
    SortSorts(ys);
    if multiset(xs) == multiset(ys) {
      SortIsUnique(ys, Sort(xs));
    }
  }

  /** The accepted tense's report, part by part. */
  lemma AcceptedReportParts(found: seq<Prefix.Problem>, after: seq<string>, declared: seq<string>, last: string, tree: Tree, accepted: seq<Entry>, problem: Problem)
    ensures problem in AcceptedReport(found, after, declared, last, tree, accepted)
       <==> || problem in Wrap(found)
            || (FirstOf(after, |declared|) != declared && problem == AfterBeginsDifferently(FirstOf(after, |declared|)))
            || (Sort(Names(accepted)) != Sort(declared) && problem == AcceptedNamesDiffer)
            || (Less(tree.manifest.frozenThrough, last) && problem == BelowFloor(tree.manifest.frozenThrough))
            || problem in AcceptedProblems(tree.disk, Recorded(tree.manifest.migrations), accepted)
  {
  }

  /** The same over what the prefix check found, the files after the boundary and the names declared. */
  ghost predicate ReportDue(found: seq<Prefix.Problem>, after: seq<string>, declared: seq<string>, last: string, tree: Tree, accepted: seq<Entry>, problem: Problem) {
    match problem
    case OfPrefix(p) => p in found
    case AfterBeginsDifferently(files) => files == FirstOf(after, |declared|) != declared
    case AcceptedNamesDiffer => Sort(Names(accepted)) != Sort(declared)
    case BelowFloor(frozenThrough) => frozenThrough == tree.manifest.frozenThrough && Less(frozenThrough, last)
    case _ => exists e :: e in accepted && AcceptedDue(tree.disk, Recorded(tree.manifest.migrations), e, problem)
  }

  lemma ReportedIffReportDue(found: seq<Prefix.Problem>, after: seq<string>, declared: seq<string>, last: string, tree: Tree, accepted: seq<Entry>, problem: Problem)
    ensures problem in AcceptedReport(found, after, declared, last, tree, accepted) <==> ReportDue(found, after, declared, last, tree, accepted, problem)
  {
    AcceptedReportParts(found, after, declared, last, tree, accepted, problem);
    AcceptedReportedIff(tree.disk, Recorded(tree.manifest.migrations), accepted, problem);
    WrapReportedIff(found, problem);
  }

  lemma FirstOfIs(after: seq<string>, n: nat)
    ensures FirstOf(after, n) == if |after| <= n then after else after[..n]
  {
    assert after[..|after|] == after;
  }

  lemma ReportDueIsDue(p: Pin, tree: Tree, found: seq<Prefix.Problem>, after: seq<string>, declared: seq<string>, last: string, accepted: seq<Entry>, problem: Problem)
    requires Pinned(p) && declared == Declared(p) && last == End(p.full)
    requires problem.OfPrefix? ==> (problem.problem in found <==> Prefix.Due(p.full, tree, problem.problem))
    ensures ReportDue(found, after, declared, last, tree, accepted, problem) <==> AcceptedTenseDue(p, tree, after, accepted, problem)
  {
    FirstOfIs(after, |declared|);
    SameSortIff(Names(accepted), declared);
  }

  lemma AcceptedTenseReportedIffDue(p: Pin, tree: Tree, after: seq<string>, accepted: seq<Entry>, problem: Problem)
    requires Pinned(p) && FilesPast(p, tree.disk, after) && accepted != []
    ensures problem in ProblemsOf(p, tree, accepted) <==> AcceptedTenseDue(p, tree, after, accepted, problem)
  {
    var found := Check(p.full, tree);
    SortedNamesUnique(AfterFiles(BoundaryName(p), tree.disk), after);
    ReportedIffReportDue(found, after, Declared(p), End(p.full), tree, accepted, problem);
    if problem.OfPrefix? {
      Prefix.ReportedIffDue(p.full, tree, problem.problem);
    }
    ReportDueIsDue(p, tree, found, after, Declared(p), End(p.full), accepted, problem);
  }

  lemma CandidateSitsOnBoundary(p: Pin, tree: Tree)
    requires Pinned(p) && ProblemsOf(p, tree, []) == []
    ensures tree.manifest.frozenThrough == BoundaryName(p)
  {
    CandidateParts(p, tree);
  }

  lemma BoundaryBeforeEnd(p: Pin)
    requires Pinned(p)
    ensures Less(BoundaryName(p), End(p.full))
  {
    NameOrder(p.full, p.slices - 1, |p.full.entries| - 1);
  }

  lemma AcceptedIsPastEnd(p: Pin, tree: Tree, accepted: seq<Entry>)
    requires Pinned(p) && accepted != [] && ProblemsOf(p, tree, accepted) == []
    ensures !Less(tree.manifest.frozenThrough, End(p.full))
  {
    AcceptedParts(p, tree, accepted);
  }

  /** No tree passes both tenses, whatever digests are accepted. */
  lemma TensesExclude(p: Pin, tree: Tree, accepted: seq<Entry>)
    requires Pinned(p) && accepted != []
    ensures !(ProblemsOf(p, tree, []) == [] && ProblemsOf(p, tree, accepted) == [])
  {
    if ProblemsOf(p, tree, []) == [] && ProblemsOf(p, tree, accepted) == [] {
      CandidateSitsOnBoundary(p, tree);
      AcceptedIsPastEnd(p, tree, accepted);
      BoundaryBeforeEnd(p);
      assert false;
    }
  }
}
