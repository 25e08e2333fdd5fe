/** The corrective boundary over the accepted history: what its freeze takes, odd file names, and that
    such trees exist. */
module CorrectiveBoundary {
  import opened Options
  import opened Text
  import opened Migrations
  import opened Prefix
  import opened ManifestCheck
  import opened Boundary
  import opened Evolution
  import opened AcceptedPrefixes
  import opened OddNumbers

  // ---- the other checks leave no odd number -------------------------------------------------------

  lemma AcceptedNumber(l: Literal, f: string)
    requires Numbered(l) && f in Names(l.entries)
    ensures FourDigit(f) && NumberOf(f) == Some(Head(f)) && Head(f) <= Head(End(l))
  {
    var i := NameIndex(l.entries, f);
    FourDigitNumber(f);
  }

  /** A `.sql` file the full range claims by its number alone, out of the slices' reach. */
  lemma OddFileNumberPast(p: Pin, f: string)
    requires Pinned(p) && InRange(p.full, f) && !InRange(Slice(p), f) && !Less(BoundaryName(p), f)
    ensures Less(f, Start(p.full))
    ensures NumberOf(f).Some? && Head(Start(p.full)) < NumberOf(f).value <= Head(End(p.full))
  {
    FirstPartEnds(p.full, p.slices);
    AtMostTotal(f, BoundaryName(p));
    AtMostTotal(Start(p.full), f);
    BoundaryBeforeEnd(p);
    AtMostTransitive(f, BoundaryName(p), End(p.full));
  }

  lemma OddFileIsInFirstRange(first: Literal, full: Literal, f: string)
    requires History(first, full) && Less(f, Start(full))
    requires NumberOf(f).Some? && Head(Start(full)) < NumberOf(f).value < 10 * Head(Start(full))
    ensures InRange(first, f) && f !in Names(first.entries)
  {
    OddNumberIsEarly(f, End(first), Start(full), NumberOf(f).value);
    if f in Names(first.entries) {
      AcceptedNumber(first, f);
    }
  }

  /** A candidate that passes the first prefix has no odd number, when the accepted numbers span less
      than a tenfold: the first prefix would have refused the file. */
  lemma FirstPrefixLeavesNoOddNumbers(first: Literal, p: Pin, tree: Tree)
    requires Pinned(p) && History(first, p.full) && Head(End(p.full)) < 10 * Head(Start(p.full))
    requires Accepts(first, tree)
    ensures NoOddNumbers(p, tree.disk)
  {
    forall f | f in tree.disk && IsSql(f) && InRange(p.full, f)
      ensures InRange(Slice(p), f) || Less(BoundaryName(p), f)
    {
      if !InRange(Slice(p), f) && !Less(BoundaryName(p), f) {
        OddFileNumberPast(p, f);
        OddFileIsInFirstRange(first, p.full, f);
      }
    }
  }

  /** A candidate the other checks pass freezes into a tree the accepted tense passes exactly when its
      manifest held just the slices and the corrective files have the accepted digests. */
  lemma CheckedFreezePassesIff(first: Literal, p: Pin, tree: Tree)
    requires Pinned(p) && History(first, p.full) && Head(End(p.full)) < 10 * Head(Start(p.full))
    requires Candidate(p, tree) && Accepts(first, tree)
    ensures ProblemsOf(p, CorrectiveFreeze(p, tree), Corrective(p)) == []
       <==> |tree.manifest.migrations| == p.full.offset + p.slices && DiskAgrees(tree.disk, Corrective(p))
  {
    FirstPrefixLeavesNoOddNumbers(first, p, tree);
    FreezePassesIff(p, tree);
  }

  lemma FrozenIsHealthy(first: Literal, p: Pin, tree: Tree)
    requires Pinned(p) && History(first, p.full) && Head(End(p.full)) < 10 * Head(Start(p.full))
    requires Candidate(p, tree) && Accepts(first, tree) && Intact(tree)
    requires |tree.manifest.migrations| == p.full.offset + p.slices && DiskAgrees(tree.disk, Corrective(p))
    ensures Healthy(first, p.full, CorrectiveFreeze(p, tree))
  {
    CheckedFreezePassesIff(first, p, tree);
    AcceptedTenseIsPrefixCheck(p, CorrectiveFreeze(p, tree));
    PassesIffAccepts(p.full, CorrectiveFreeze(p, tree));
    CorrectiveFreezeKeepsFirst(first, p, tree);
    CorrectiveFreezeKeepsIntact(p, tree);
  }

  /** From a candidate whose manifest holds just the slices and whose corrective files have the accepted
      digests, through its freeze, through any later run: the accepted tense, the first prefix and the
      manifest guard all keep passing. */
  lemma BoundaryHolds(first: Literal, p: Pin, tree: Tree, steps: seq<Step>, last: Tree)
    requires Pinned(p) && History(first, p.full) && Head(End(p.full)) < 10 * Head(Start(p.full))
    requires Candidate(p, tree) && Accepts(first, tree) && Intact(tree)
    requires |tree.manifest.migrations| == p.full.offset + p.slices && DiskAgrees(tree.disk, Corrective(p))
    requires Run(p.full, CorrectiveFreeze(p, tree), steps, last)
    ensures ProblemsOf(p, last, Corrective(p)) == [] && Check(first, last) == [] && Intact(last)
  {
    FrozenIsHealthy(first, p, tree);
    EvolutionKeepsHealthy(first, p.full, CorrectiveFreeze(p, tree), steps, last);
    AcceptedTenseIsPrefixCheck(p, last);
    PassesIffAccepts(p.full, last);
    PassesIffAccepts(first, last);
  }

  // ---- the accepted history --------------------------------------------------------------------

  /** The Phase 3 boundary the corrective gate pins: seventeen slice entries of the twenty-one, so a
      candidate's manifest holds exactly seventy. */
  lemma TheCorrectiveBoundary()
    ensures Pinned(Pin(PHASE3, 17)) && Slice(Pin(PHASE3, 17)) == PHASE3_SLICE && PHASE3.offset + 17 == 70
    ensures History(PHASE2, PHASE3) && Head(End(PHASE3)) < 10 * Head(Start(PHASE3))
  {
    LiteralsAreNumbered();
  }

  const ODD_FILE := "00070_x.sql"

  lemma OddFileNumber()
    ensures IsSql(ODD_FILE) && NumberOf(ODD_FILE) == Some(70)
  {
    DigitsThenStop(ODD_FILE, 5);
    assert ODD_FILE[..5] == (((("" + ['0']) + ['0']) + ['0']) + ['7']) + ['0'];
    DecimalAppend("", '0');
    DecimalAppend("" + ['0'], '0');
    DecimalAppend(("" + ['0']) + ['0'], '0');
    DecimalAppend((("" + ['0']) + ['0']) + ['0'], '7');
    DecimalAppend(((("" + ['0']) + ['0']) + ['0']) + ['7'], '0');
  }

  lemma OddFileSorts(start: string)
    requires FourDigit(start) && Head(start) == 53
    ensures Less(ODD_FILE, start)
  {
    assert Digit(start[0]) == 0 && Digit(start[1]) == 0 && Digit(start[2]) == 5;
    assert start[..2] == ODD_FILE[..2];
    LessAtFirstDifference(ODD_FILE, start, 2);
  }

  /** The candidate tense does not see `00070_x.sql`, but its freeze is refused because of it. */
  lemma OddFileSlipsThrough(p: Pin, tree: Tree, digest: string)
    requires Pinned(p) && Head(Start(p.full)) == 53 && Head(BoundaryName(p)) == 69 && Head(End(p.full)) == 73
    requires Candidate(p, tree) && ODD_FILE !in tree.disk
    ensures var with := tree.(disk := tree.disk[ODD_FILE := digest]);
            Candidate(p, with) && ProblemsOf(p, CorrectiveFreeze(p, with), Corrective(p)) != []
  {
    var with := tree.(disk := tree.disk[ODD_FILE := digest]);
    OddFileNumber();
    OddFileSorts(Start(p.full));
    NameOrder(p.full, 0, p.slices - 1);
    AtMostTransitive(ODD_FILE, Start(p.full), BoundaryName(p));
    AtMostTotal(ODD_FILE, BoundaryName(p));
    AtMostTotal(Start(p.full), ODD_FILE);
    AddKeepsAccepts(Slice(p), tree, ODD_FILE, digest);
    assert AfterFiles(BoundaryName(p), with.disk) == AfterFiles(BoundaryName(p), tree.disk);
    assert ODD_FILE in with.disk && InRange(p.full, ODD_FILE);
    FreezePassesIff(p, with);
  }

  /** But the other two checks refuse the file: it is in the range of the first prefix without being
      accepted, and a hole in the frozen history unless the manifest lists it. */
  lemma OddFileIsRefusedElsewhere(first: Literal, p: Pin, tree: Tree, digest: string)
    requires Pinned(p) && History(first, p.full)
    requires Head(Start(p.full)) == 53 && Head(BoundaryName(p)) == 69 && Head(End(p.full)) == 73
    requires Candidate(p, tree)
    ensures var with := tree.(disk := tree.disk[ODD_FILE := digest]);
            !Accepts(first, with) && (ODD_FILE !in Names(tree.manifest.migrations) ==> !Intact(with))
  {
    var with := tree.(disk := tree.disk[ODD_FILE := digest]);
    OddFileNumber();
    OddFileSorts(Start(p.full));
    OddFileIsInFirstRange(first, p.full, ODD_FILE);
    assert ODD_FILE in with.disk && IsSql(ODD_FILE) && InRange(first, ODD_FILE);
    StartToBoundary(p);
    AtMostTransitive(ODD_FILE, Start(p.full), BoundaryName(p));
    assert AtMost(ODD_FILE, with.manifest.frozenThrough);
  }

  // ---- such trees exist ------------------------------------------------------------------------

  lemma NamesApart(first: Literal, full: Literal)
    requires History(first, full)
    ensures var all := first.entries + full.entries;
            Distinct(Names(all)) && Names(all) == Names(first.entries) + Names(full.entries)
  {
    FollowsSorted(first, full);
    NamesOfBoth(first.entries, full.entries);
    StrictIsDistinct(Names(first.entries + full.entries));
  }

  /** The files of the accepted history at their accepted digests. */
  function DiskOf(first: Literal, full: Literal): map<string, string> {
    Recorded(first.entries + full.entries)
  }

  lemma LaterNamesDiffer(entries: seq<Entry>, names: seq<string>, k: nat)
    requires Distinct(names) && |names| == |entries| && k < |entries|
    requires forall i | 0 <= i < |names| :: names[i] == entries[i].name
    ensures forall j | k < j < |entries| :: entries[j].name != entries[k].name
  {
    forall j | k < j < |entries|
      ensures entries[j].name != entries[k].name
    {
      assert names[k] != names[j];
    }
  }

  lemma DiskHoldsEntry(entries: seq<Entry>, k: nat)
    requires Distinct(Names(entries)) && k < |entries|
    ensures entries[k].name in Recorded(entries) && Recorded(entries)[entries[k].name] == entries[k].sha256
  {
    LaterNamesDiffer(entries, Names(entries), k);
    LastRecord(entries, k);
  }

  lemma DiskAgreesWithBoth(first: Literal, full: Literal)
    requires History(first, full)
    ensures DiskAgrees(DiskOf(first, full), first.entries) && DiskAgrees(DiskOf(first, full), full.entries)
  {
    var all := first.entries + full.entries;
    NamesApart(first, full);
    forall i | 0 <= i < |first.entries|
      ensures first.entries[i].name in DiskOf(first, full) && DiskOf(first, full)[first.entries[i].name] == first.entries[i].sha256
    {
      assert all[i] == first.entries[i];
      DiskHoldsEntry(all, i);
    }
    forall i | 0 <= i < |full.entries|
      ensures full.entries[i].name in DiskOf(first, full) && DiskOf(first, full)[full.entries[i].name] == full.entries[i].sha256
    {
      assert all[|first.entries| + i] == full.entries[i];
      DiskHoldsEntry(all, |first.entries| + i);
    }
  }

  /** A name of the full prefix is outside the first's range, and the reverse. */
  lemma RangesApart(first: Literal, p: Pin, f: string)
    requires Pinned(p) && History(first, p.full)
    ensures f in Names(p.full.entries) ==> !InRange(first, f)
    ensures f in Names(first.entries) ==> !InRange(Slice(p), f) && Less(f, Start(p.full))
    ensures f in Declared(p) ==> !InRange(Slice(p), f)
  {
    if f in Names(p.full.entries) {
      var i := NameIndex(p.full.entries, f);
      LaterOutside(first, f);
    }
    if f in Names(first.entries) {
      EarlierOutside(first, p, f);
    }
    if f in Declared(p) {
      var i := NameIndex(Corrective(p), f);
      assert f == p.full.entries[p.slices + i].name;
      FirstPartEnds(p.full, p.slices);
      LaterOutside(Slice(p), f);
    }
  }

  lemma EarlierOutside(first: Literal, p: Pin, f: string)
    requires Pinned(p) && History(first, p.full) && f in Names(first.entries)
    ensures !InRange(Slice(p), f) && Less(f, Start(p.full))
  {
    AcceptedNumber(first, f);
    FirstPartEnds(p.full, p.slices);
    FourDigitOrder(f, Start(p.full));
    AtMostTotal(Start(p.full), f);
  }

  /** The candidate of an accepted history: all its files, and a manifest of the first prefix and the
      slices. */
  function CandidateTree(first: Literal, p: Pin): Tree
    requires Pinned(p)
  {
    Tree(DiskOf(first, p.full), Manifest(BoundaryName(p), first.entries + Slice(p).entries))
  }

  lemma OnDisk(first: Literal, p: Pin, f: string)
    requires Pinned(p) && History(first, p.full)
    ensures f in DiskOf(first, p.full) <==> f in Names(first.entries) || f in Names(p.full.entries)
    ensures f in Names(p.full.entries) <==> f in Names(Slice(p).entries) || f in Declared(p)
  {
    NamesApart(first, p.full);
    NamesInTwo(p.full.entries, p.slices, f);
  }

  lemma NamesInTwo(entries: seq<Entry>, k: nat, f: string)
    requires k <= |entries|
    ensures f in Names(entries) <==> f in Names(entries[..k]) || f in Names(entries[k..])
  {
    assert entries == entries[..k] + entries[k..];
    NamesOfBoth(entries[..k], entries[k..]);
  }

  lemma CandidateRanges(first: Literal, p: Pin)
    requires Pinned(p) && History(first, p.full)
    ensures RangeAgrees(first, DiskOf(first, p.full)) && RangeAgrees(Slice(p), DiskOf(first, p.full))
  {
    var disk := DiskOf(first, p.full);
    forall f | f in disk && IsSql(f) && InRange(first, f)
      ensures f in Names(first.entries)
    {
      OnDisk(first, p, f);
      RangesApart(first, p, f);
    }
    forall f | f in disk && IsSql(f) && InRange(Slice(p), f)
      ensures f in Names(Slice(p).entries)
    {
      OnDisk(first, p, f);
      RangesApart(first, p, f);
    }
  }

  lemma CandidateManifests(first: Literal, p: Pin)
    requires Pinned(p) && History(first, p.full)
    ensures var migrations := first.entries + Slice(p).entries;
            && ManifestAgrees(migrations, 0, first.entries) && ManifestAgrees(migrations, p.full.offset, Slice(p).entries)
            && NoStragglers(first, migrations) && NoStragglers(Slice(p), migrations)
  {
    var migrations := first.entries + Slice(p).entries;
    forall i | |first.entries| <= i < |migrations|
      ensures !InRange(first, migrations[i].name)
    {
      var j := i - |first.entries|;
      assert migrations[i] == p.full.entries[j] && Names(p.full.entries)[j] == migrations[i].name;
      RangesApart(first, p, migrations[i].name);
    }
  }

  lemma CandidateFloors(first: Literal, p: Pin)
    requires Pinned(p) && History(first, p.full)
    ensures AtMost(End(first), BoundaryName(p)) && AtMost(End(Slice(p)), BoundaryName(p))
  {
    FourDigitOrder(End(first), Start(p.full));
    StartToBoundary(p);
    AtMostTransitive(End(first), Start(p.full), BoundaryName(p));
    FirstPartEnds(p.full, p.slices);
  }

  lemma SliceNamesUpToBoundary(p: Pin, f: string)
    requires Pinned(p) && f in Names(Slice(p).entries)
    ensures AtMost(f, BoundaryName(p))
  {
    EndIsLast(Slice(p), f);
    FirstPartEnds(p.full, p.slices);
  }

  /** What comes after the boundary on that disk is the declared files, and they alone. */
  lemma CandidateAfterFiles(first: Literal, p: Pin, f: string)
    requires Pinned(p) && History(first, p.full)
    ensures f in AfterFiles(BoundaryName(p), DiskOf(first, p.full)) <==> f in Declared(p)
  {
    OnDisk(first, p, f);
    DeclaredSorted(p);
    AtMostTotal(f, BoundaryName(p));
    if f in Names(first.entries) {
      EarlierOutside(first, p, f);
      StartToBoundary(p);
      AtMostTransitive(f, Start(p.full), BoundaryName(p));
    }
    if f in Names(Slice(p).entries) {
      SliceNamesUpToBoundary(p, f);
    }
  }

  lemma DeclaredNotListed(first: Literal, p: Pin, f: string)
    requires Pinned(p) && History(first, p.full) && f in Declared(p)
    ensures f !in Names(first.entries + Slice(p).entries)
  {
    NamesOfBoth(first.entries, Slice(p).entries);
    CandidateAfterFiles(first, p, f);
    AtMostTotal(f, BoundaryName(p));
    if f in Names(first.entries) {
      EarlierOutside(first, p, f);
      StartToBoundary(p);
      AtMostTransitive(f, Start(p.full), BoundaryName(p));
    }
    if f in Names(Slice(p).entries) {
      SliceNamesUpToBoundary(p, f);
    }
  }

  lemma AgreedEntry(l: Literal, disk: map<string, string>, e: Entry)
    requires Numbered(l) && DiskAgrees(disk, l.entries) && e in l.entries
    ensures e.name in disk && IsSql(e.name) && disk[e.name] == e.sha256
  {
    var i :| 0 <= i < |l.entries| && l.entries[i] == e;
  }

  lemma ListedIsOnDisk(first: Literal, p: Pin, e: Entry)
    requires Pinned(p) && History(first, p.full) && e in first.entries + Slice(p).entries
    ensures var disk := DiskOf(first, p.full); e.name in disk && IsSql(e.name) && disk[e.name] == e.sha256
  {
    DiskAgreesWithBoth(first, p.full);
    if e in first.entries {
      AgreedEntry(first, DiskOf(first, p.full), e);
    } else {
      var i :| 0 <= i < |Slice(p).entries| && Slice(p).entries[i] == e;
      assert p.full.entries[i] == e;
      AgreedEntry(p.full, DiskOf(first, p.full), e);
    }
  }

  lemma CandidateIntact(first: Literal, p: Pin)
    requires Pinned(p) && History(first, p.full)
    ensures Intact(CandidateTree(first, p))
  {
    var disk, migrations := DiskOf(first, p.full), first.entries + Slice(p).entries;
    forall e | e in migrations
      ensures e.name in disk && IsSql(e.name) && disk[e.name] == e.sha256
    {
      ListedIsOnDisk(first, p, e);
    }
    NamesOfBoth(first.entries, Slice(p).entries);
    forall f | f in disk && IsSql(f) && AtMost(f, BoundaryName(p))
      ensures f in Names(migrations)
    {
      OnDisk(first, p, f);
      DeclaredSorted(p);
      AtMostTotal(f, BoundaryName(p));
    }
  }

  lemma CandidateAccepted(first: Literal, p: Pin)
    requires Pinned(p) && History(first, p.full)
    ensures Accepts(first, CandidateTree(first, p)) && Accepts(Slice(p), CandidateTree(first, p))
    ensures DiskAgrees(DiskOf(first, p.full), Corrective(p))
  {
    DiskAgreesWithBoth(first, p.full);
    DiskAgreesFirst(DiskOf(first, p.full), p.full.entries, p.slices);
    FullAgrees(p, DiskOf(first, p.full));
    CandidateRanges(first, p);
    CandidateManifests(first, p);
    CandidateFloors(first, p);
  }

  lemma CandidateIsCandidate(first: Literal, p: Pin)
    requires Pinned(p) && History(first, p.full) && Accepts(Slice(p), CandidateTree(first, p))
    ensures Candidate(p, CandidateTree(first, p))
  {
    var tree := CandidateTree(first, p);
    forall f
      ensures f in AfterFiles(BoundaryName(p), tree.disk) <==> f in Declared(p)
    {
      CandidateAfterFiles(first, p, f);
    }
    forall f | f in Declared(p)
      ensures f !in Names(tree.manifest.migrations)
    {
      DeclaredNotListed(first, p, f);
    }
  }

  /** The candidate tree passes every check, its manifest holds just the slices, its corrective files
      have the accepted digests, and its freeze is healthy. */
  ghost predicate CandidatePasses(first: Literal, p: Pin)
    requires Pinned(p) && History(first, p.full)
  {
    var tree := CandidateTree(first, p);
    && Candidate(p, tree) && Accepts(first, tree) && Intact(tree)
    && |tree.manifest.migrations| == p.full.offset + p.slices && DiskAgrees(tree.disk, Corrective(p))
    && Healthy(first, p.full, CorrectiveFreeze(p, tree))
  }

  /** Every accepted history has such a candidate, so the theorems about candidates, freezes and later
      runs speak of trees that exist. */
  lemma CandidateExists(first: Literal, p: Pin)
    requires Pinned(p) && History(first, p.full) && Head(End(p.full)) < 10 * Head(Start(p.full))
    ensures CandidatePasses(first, p)
  {
    CandidateAccepted(first, p);
    CandidateIsCandidate(first, p);
    CandidateIntact(first, p);
    FrozenIsHealthy(first, p, CandidateTree(first, p));
  }

  /** The repository's own history: the candidate of Phase 2 and Phase 3 passes, with seventy entries,
      and so does its freeze. */
  lemma TheAcceptedHistoryPasses()
    ensures Pinned(Pin(PHASE3, 17)) && History(PHASE2, PHASE3) && PHASE3.offset + 17 == 70
    ensures CandidatePasses(PHASE2, Pin(PHASE3, 17))
  {
    TheCorrectiveBoundary();
    CandidateExists(PHASE2, Pin(PHASE3, 17));
  }
}
