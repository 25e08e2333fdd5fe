/** The life of a migration history across the boundary: the corrective freeze, then any run of later
    migrations and later freezes. */
module Evolution {
  import opened Options
  import opened Text
  import opened Migrations
  import opened Prefix
  import opened ManifestCheck
  import opened Boundary

  /** Manifest entries for files at the digests they have on disk. */
  function EntriesOf(names: seq<string>, disk: map<string, string>): (entries: seq<Entry>)
    requires forall f | f in names :: f in disk
    ensures |entries| == |names| && forall i | 0 <= i < |names| :: entries[i] == Entry(names[i], disk[names[i]])
  {
    if names == [] then []
    else
      assert names[0] in names && forall f | f in names[1..] :: f in names;
      [Entry(names[0], disk[names[0]])] + EntriesOf(names[1..], disk)
  }

  /** A freeze: the manifest takes the named files at their digests and moves its frozen end. */
  function Frozen(tree: Tree, names: seq<string>, through: string): Tree
    requires forall f | f in names :: f in tree.disk
  {
    tree.(manifest := Manifest(through, tree.manifest.migrations + EntriesOf(names, tree.disk)))
  }

  /** A `.sql` file that the full prefix's number test claims although it does not sort after the
      boundary: `00070_x.sql` carries the number 70 and sorts before 0053. */
  ghost predicate NoOddNumbers(p: Pin, disk: map<string, string>)
    requires Pinned(p)
  {
    forall f | f in disk && IsSql(f) && InRange(p.full, f) :: InRange(Slice(p), f) || Less(BoundaryName(p), f)
  }

  lemma DeclaredAreThere(p: Pin, tree: Tree)
    requires Pinned(p) && Candidate(p, tree)
    ensures forall f | f in Declared(p) :: f in tree.disk
  {
  }

  /** The corrective freeze of a candidate tree. */
  ghost function CorrectiveFreeze(p: Pin, tree: Tree): Tree
    requires Pinned(p) && Candidate(p, tree)
  {
    DeclaredAreThere(p, tree);
    Frozen(tree, Declared(p), End(p.full))
  }

  lemma FullAgrees(p: Pin, disk: map<string, string>)
    requires Pinned(p) && DiskAgrees(disk, Slice(p).entries)
    ensures DiskAgrees(disk, p.full.entries) <==> DiskAgrees(disk, Corrective(p))
  {
    var full, slice, rest := p.full.entries, Slice(p).entries, Corrective(p);
    assert forall i | 0 <= i < |rest| :: rest[i] == full[p.slices + i];
    assert forall i | 0 <= i < |slice| :: slice[i] == full[i];
    if DiskAgrees(disk, rest) {
      forall i | 0 <= i < |full|
        ensures full[i].name in disk && disk[full[i].name] == full[i].sha256
      {
        if i < p.slices {
          assert slice[i] == full[i];
        } else {
          assert rest[i - p.slices] == full[i];
        }
      }
    }
    if DiskAgrees(disk, full) {
      forall i | 0 <= i < |rest|
        ensures rest[i].name in disk && disk[rest[i].name] == rest[i].sha256
      {
        assert rest[i] == full[p.slices + i];
      }
    }
  }

  lemma SliceInFull(p: Pin, f: string)
    requires Pinned(p) && f in Names(Slice(p).entries)
    ensures f in Names(p.full.entries) && AtMost(f, BoundaryName(p))
  {
    var i := NameIndex(Slice(p).entries, f);
    assert Names(p.full.entries)[i] == f;
    NameOrder(p.full, i, p.slices - 1);
  }

  lemma DeclaredInFull(p: Pin, f: string)
    requires Pinned(p) && f in Declared(p)
    ensures f in Names(p.full.entries)
  {
    var i := NameIndex(Corrective(p), f);
    assert Names(p.full.entries)[p.slices + i] == f;
  }

  /** The files in the full range of a candidate's directory are accepted exactly when none has an odd
      number. */
  lemma FullRangeAgrees(p: Pin, tree: Tree)
    requires Pinned(p) && Candidate(p, tree)
    ensures RangeAgrees(p.full, tree.disk) <==> NoOddNumbers(p, tree.disk)
  {
    if NoOddNumbers(p, tree.disk) {
      forall f | f in tree.disk && IsSql(f) && InRange(p.full, f)
        ensures f in Names(p.full.entries)
      {
        if InRange(Slice(p), f) {
          SliceInFull(p, f);
        } else {
          assert f in AfterFiles(BoundaryName(p), tree.disk);
          DeclaredInFull(p, f);
        }
      }
    }
    if RangeAgrees(p.full, tree.disk) {
      forall f | f in tree.disk && IsSql(f) && InRange(p.full, f)
        ensures InRange(Slice(p), f) || Less(BoundaryName(p), f)
      {
        AtMostTotal(f, BoundaryName(p));
        if !Less(BoundaryName(p), f) {
          AcceptedUpToBoundary(p, f);
        }
      }
    }
  }

  lemma AcceptedUpToBoundary(p: Pin, f: string)
    requires Pinned(p) && f in Names(p.full.entries) && AtMost(f, BoundaryName(p))
    ensures InRange(Slice(p), f)
  {
    EndIsLast(p.full, f);
    FirstPartEnds(p.full, p.slices);
    BetweenIsInRange(Slice(p), f);
  }

  lemma AppendCompletes(before: seq<Entry>, rest: seq<Entry>, offset: nat, slice: seq<Entry>)
    requires ManifestAgrees(before, offset, slice) && |before| == offset + |slice|
    ensures ManifestAgrees(before + rest, offset, slice + rest)
  {
    var full := slice + rest;
    forall i | 0 <= i < |full|
      ensures (before + rest)[offset + i] == full[i]
    {
      if i < |slice| {
        var e := slice[i];
        assert before[offset + i] == e;
      }
    }
  }

  lemma NextRecord(after: seq<Entry>, offset: nat, slice: seq<Entry>, rest: seq<Entry>, i: nat)
    requires ManifestAgrees(after, offset, slice + rest) && i < |rest|
    ensures offset + |slice| + i < |after| && after[offset + |slice| + i] == rest[i]
  {
    var e := (slice + rest)[|slice| + i];
    assert after[offset + (|slice| + i)] == e;
  }

  lemma NameListed(entries: seq<Entry>, k: nat)
    requires k < |entries|
    ensures entries[k].name in Names(entries)
  {
    assert Names(entries)[k] == entries[k].name;
  }

  lemma AddedAreTheRest(before: seq<Entry>, added: seq<Entry>, offset: nat, slice: seq<Entry>, rest: seq<Entry>)
    requires |before| == offset + |slice| && |added| == |rest|
    requires ManifestAgrees(before + added, offset, slice + rest)
    ensures added == rest
  {
    forall i | 0 <= i < |rest|
      ensures added[i] == rest[i]
    {
      NextRecord(before + added, offset, slice, rest, i);
    }
  }

  lemma NotYetListed(before: seq<Entry>, at: nat, name: string)
    requires (at < |before| ==> before[at].name == name) && name !in Names(before)
    ensures |before| <= at
  {
    if at < |before| {
      NameListed(before, at);
      assert false;
    }
  }

  lemma NothingYetListed(before: seq<Entry>, after: seq<Entry>, offset: nat, full: seq<Entry>, k: nat)
    requires ManifestAgrees(after, offset, full) && k < |full|
    requires before <= after && full[k].name !in Names(before)
    ensures |before| <= offset + k
  {
    var e := full[k];
    assert after[offset + k] == e;
    NotYetListed(before, offset + k, e.name);
  }

  lemma CompletedByAppend(before: seq<Entry>, added: seq<Entry>, offset: nat, slice: seq<Entry>, rest: seq<Entry>)
    requires ManifestAgrees(before, offset, slice) && slice != [] && rest != []
    requires |added| == |rest| && rest[0].name !in Names(before)
    requires ManifestAgrees(before + added, offset, slice + rest)
    ensures |before| == offset + |slice| && added == rest
  {
    assert (slice + rest)[|slice|] == rest[0];
    NothingYetListed(before, before + added, offset, slice + rest, |slice|);
    AddedAreTheRest(before, added, offset, slice, rest);
  }

  lemma RecordsAreAccepted(names: seq<string>, disk: map<string, string>, rest: seq<Entry>)
    requires names == Names(rest) && forall f | f in names :: f in disk
    ensures EntriesOf(names, disk) == rest <==> DiskAgrees(disk, rest)
  {
    var added := EntriesOf(names, disk);
    forall i | 0 <= i < |rest|
      ensures rest[i].name in disk && added[i] == Entry(rest[i].name, disk[rest[i].name])
    {
      assert names[i] == rest[i].name;
    }
    if DiskAgrees(disk, rest) {
      assert forall i | 0 <= i < |rest| :: added[i] == rest[i];
    }
  }

  lemma FrozenManifestAgrees(p: Pin, before: seq<Entry>, disk: map<string, string>)
    requires Pinned(p) && forall f | f in Declared(p) :: f in disk
    requires ManifestAgrees(before, p.full.offset, p.full.entries[..p.slices])
    requires Corrective(p)[0].name !in Names(before)
    ensures ManifestAgrees(before + EntriesOf(Declared(p), disk), p.full.offset, p.full.entries)
       <==> |before| == p.full.offset + p.slices && DiskAgrees(disk, Corrective(p))
  {
    var slice, rest := p.full.entries[..p.slices], Corrective(p);
    assert p.full.entries == slice + rest;
    RecordsAreAccepted(Declared(p), disk, rest);
    AppendCompletesIff(before, EntriesOf(Declared(p), disk), p.full.offset, slice, rest);
  }

  lemma CandidateManifest(p: Pin, tree: Tree)
    requires Pinned(p) && Candidate(p, tree)
    ensures forall f | f in Declared(p) :: f in tree.disk
    ensures ManifestAgrees(tree.manifest.migrations, p.full.offset, p.full.entries[..p.slices])
    ensures Corrective(p) != [] && Corrective(p)[0].name !in Names(tree.manifest.migrations)
  {
    DeclaredAreThere(p, tree);
    assert Corrective(p)[0].name == Declared(p)[0];
  }

  /** The frozen manifest continues the slices with the corrective entries exactly when it held
      nothing after the slices and the disk digests are the accepted ones. */
  lemma FullManifestAgrees(p: Pin, tree: Tree)
    requires Pinned(p) && Candidate(p, tree)
    ensures ManifestAgrees(CorrectiveFreeze(p, tree).manifest.migrations, p.full.offset, p.full.entries)
       <==> |tree.manifest.migrations| == p.full.offset + p.slices && DiskAgrees(tree.disk, Corrective(p))
  {
    CandidateManifest(p, tree);
    FrozenManifestAgrees(p, tree.manifest.migrations, tree.disk);
  }

  lemma AppendCompletesIff(before: seq<Entry>, added: seq<Entry>, offset: nat, slice: seq<Entry>, rest: seq<Entry>)
    requires ManifestAgrees(before, offset, slice) && slice != [] && rest != []
    requires |added| == |rest| && rest[0].name !in Names(before)
    ensures ManifestAgrees(before + added, offset, slice + rest) <==> |before| == offset + |slice| && added == rest
  {
    if ManifestAgrees(before + added, offset, slice + rest) {
      CompletedByAppend(before, added, offset, slice, rest);
    }
    if |before| == offset + |slice| && added == rest {
      AppendCompletes(before, rest, offset, slice);
    }
  }

  /** Freezing a candidate yields a tree that passes the accepted tense exactly when the manifest held
      nothing after the slices, the corrective files hash to the accepted digests, and no file carries
      a corrective number without sorting after the boundary. */
  lemma FreezePassesIff(p: Pin, tree: Tree)
    requires Pinned(p) && Candidate(p, tree)
    ensures ProblemsOf(p, CorrectiveFreeze(p, tree), Corrective(p)) == [] <==>
            && |tree.manifest.migrations| == p.full.offset + p.slices
            && DiskAgrees(tree.disk, Corrective(p))
            && NoOddNumbers(p, tree.disk)
  {
    var after := CorrectiveFreeze(p, tree);
    AcceptedTenseIsPrefixCheck(p, after);
    PassesIffAccepts(p.full, after);
    FullAgrees(p, tree.disk);
    FullRangeAgrees(p, tree);
    FullManifestAgrees(p, tree);
    if |tree.manifest.migrations| == p.full.offset + p.slices {
      NothingAfterFreeze(p, tree);
    }
  }

  lemma NothingAfterFreeze(p: Pin, tree: Tree)
    requires Pinned(p) && Candidate(p, tree) && |tree.manifest.migrations| == p.full.offset + p.slices
    ensures NoStragglers(p.full, CorrectiveFreeze(p, tree).manifest.migrations)
  {
  }

  /** With four-digit names only, no file has an odd number. */
  lemma FourDigitNamesAreNotOdd(p: Pin, disk: map<string, string>)
    requires Pinned(p) && forall f | f in disk && IsSql(f) :: FourDigit(f)
    ensures NoOddNumbers(p, disk)
  {
    forall f | f in disk && IsSql(f) && InRange(p.full, f)
      ensures InRange(Slice(p), f) || Less(BoundaryName(p), f)
    {
      FourDigitPlaced(p, f);
    }
  }

  lemma FourDigitPlaced(p: Pin, f: string)
    requires Pinned(p) && FourDigit(f) && InRange(p.full, f)
    ensures InRange(Slice(p), f) || Less(BoundaryName(p), f)
  {
    FourDigitNumber(f);
    AtMostTotal(f, BoundaryName(p));
    if Head(f) > Head(BoundaryName(p)) {
      FourDigitOrder(BoundaryName(p), f);
    } else if Head(f) < Head(Start(p.full)) {
      FourDigitOrder(f, Start(p.full));
      AtMostTotal(Start(p.full), f);
    }
  }

  // ---- later migrations ------------------------------------------------------------------------

  /** A migration is added after everything frozen, or every file after the frozen end is frozen in
      name order. */
  datatype Step = Add(name: string, digest: string) | Freeze

  ghost function Unfrozen(tree: Tree): (names: seq<string>)
    ensures forall f | f in names :: f in tree.disk
  {
    SortedNames(AfterFiles(tree.manifest.frozenThrough, tree.disk))
  }

  ghost predicate Enabled(tree: Tree, step: Step) {
    match step
    case Add(name, _) => name !in tree.disk && IsSql(name) && FourDigit(name) && Less(tree.manifest.frozenThrough, name)
    case Freeze => Unfrozen(tree) != []
  }

  ghost function Took(tree: Tree, step: Step): Tree
    requires Enabled(tree, step)
  {
    match step
    case Add(name, digest) => tree.(disk := tree.disk[name := digest])
    case Freeze => var names := Unfrozen(tree); Frozen(tree, names, names[|names| - 1])
  }

  /** A tree every guard accepts: both prefixes and the manifest guard. */
  ghost predicate Healthy(first: Literal, full: Literal, tree: Tree)
    requires Numbered(first) && Numbered(full)
  {
    Accepts(first, tree) && Accepts(full, tree) && Intact(tree)
  }

  /** The literals follow one another in the manifest as they do in numbers. */
  ghost predicate History(first: Literal, full: Literal) {
    Follows(first, full) && first.offset == 0 && full.offset == |first.entries|
  }

  lemma LaterOutside(l: Literal, name: string)
    requires Numbered(l) && FourDigit(name) && Head(name) > Head(End(l))
    ensures !InRange(l, name)
  {
    FourDigitNumber(name);
    FourDigitOrder(End(l), name);
    AtMostTotal(name, End(l));
  }

  lemma AddKeepsAccepts(l: Literal, tree: Tree, name: string, digest: string)
    requires Numbered(l) && Accepts(l, tree) && name !in tree.disk && !InRange(l, name)
    ensures Accepts(l, tree.(disk := tree.disk[name := digest]))
  {
    LiteralSorted(l);
  }

  lemma NumberInside(l: Literal, name: string)
    requires Numbered(l) && !l.open && FourDigit(name) && Head(name) == Head(End(l))
    ensures InRange(l, name)
  {
    FourDigitNumber(name);
  }

  /** Adding a later four-digit migration keeps a healthy tree healthy exactly when its number is past
      the accepted history: a second `0073_` file is refused. */
  lemma AddKeepsHealthyIff(first: Literal, full: Literal, tree: Tree, step: Step)
    requires History(first, full) && Healthy(first, full, tree)
    requires step.Add? && Enabled(tree, step)
    ensures Healthy(first, full, Took(tree, step)) <==> Head(step.name) > Head(End(full))
  {
    AtMostTransitive(End(full), tree.manifest.frozenThrough, step.name);
    if Head(step.name) < Head(End(full)) {
      FourDigitOrder(step.name, End(full));
      LessTrichotomy(step.name, End(full));
      assert false;
    }
    if Head(step.name) == Head(End(full)) {
      NumberInside(full, step.name);
      AcceptedOnDisk(full, tree, step.name);
    } else {
      EndsInOrder(first, full);
      LaterOutside(first, step.name);
      LaterOutside(full, step.name);
      AddKeepsAccepts(first, tree, step.name, step.digest);
      AddKeepsAccepts(full, tree, step.name, step.digest);
      AddKeepsIntact(tree, step.name, step.digest);
    }
  }

  lemma EndsInOrder(first: Literal, full: Literal)
    requires History(first, full)
    ensures Head(End(first)) < Head(End(full))
  {
    assert Head(End(full)) == Head(Start(full)) + (|full.entries| - 1);
  }

  lemma AcceptedOnDisk(l: Literal, tree: Tree, name: string)
    requires Numbered(l) && Accepts(l, tree)
    ensures name in Names(l.entries) ==> name in tree.disk
  {
    if name in Names(l.entries) {
      var i := NameIndex(l.entries, name);
      assert l.entries[i].name in tree.disk;
    }
  }

  lemma AddKeepsIntact(tree: Tree, name: string, digest: string)
    requires Intact(tree) && name !in tree.disk && Less(tree.manifest.frozenThrough, name)
    ensures Intact(tree.(disk := tree.disk[name := digest]))
  {
    AtMostTotal(name, tree.manifest.frozenThrough);
  }

  lemma UnfrozenAreLater(tree: Tree)
    requires Unfrozen(tree) != []
    ensures var names := Unfrozen(tree);
            && StrictlySorted(names)
            && (forall f :: f in names <==> f in tree.disk && IsSql(f) && Less(tree.manifest.frozenThrough, f))
            && Less(tree.manifest.frozenThrough, names[|names| - 1])
            && (forall f | f in names :: AtMost(f, names[|names| - 1]))
  {
    var names := Unfrozen(tree);
    assert names[|names| - 1] in names;
  }

  /** Freezing files outside its range touches nothing a literal speaks about. */
  lemma FrozenKeepsAccepts(l: Literal, tree: Tree, names: seq<string>, through: string)
    requires Numbered(l) && Accepts(l, tree) && AtMost(tree.manifest.frozenThrough, through)
    requires forall f | f in names :: f in tree.disk && !InRange(l, f)
    ensures Accepts(l, Frozen(tree, names, through))
  {
    AtMostTransitive(End(l), tree.manifest.frozenThrough, through);
    AppendOutside(l, tree.manifest.migrations, EntriesOf(names, tree.disk));
  }

  lemma FreezeKeepsAccepts(l: Literal, tree: Tree)
    requires Numbered(l) && Accepts(l, tree) && Unfrozen(tree) != []
    ensures Accepts(l, Took(tree, Freeze))
  {
    var names := Unfrozen(tree);
    assert names[|names| - 1] in names;
    forall f | f in names
      ensures f in tree.disk && !InRange(l, f)
    {
      LaterFileOutside(l, tree, f);
    }
    FrozenKeepsAccepts(l, tree, names, names[|names| - 1]);
  }

  lemma RangeEndsAtEnd(l: Literal, disk: map<string, string>, f: string)
    requires Numbered(l) && RangeAgrees(l, disk)
    requires f in disk && IsSql(f) && InRange(l, f)
    ensures AtMost(f, End(l))
  {
    EndIsLast(l, f);
  }

  lemma LaterFileOutside(l: Literal, tree: Tree, f: string)
    requires Numbered(l) && Accepts(l, tree)
    requires f in tree.disk && IsSql(f) && Less(tree.manifest.frozenThrough, f)
    ensures !InRange(l, f)
  {
    if InRange(l, f) {
      RangeEndsAtEnd(l, tree.disk, f);
      AtMostTransitive(f, End(l), tree.manifest.frozenThrough);
      AtMostTotal(f, tree.manifest.frozenThrough);
      assert false;
    }
  }

  lemma FreezeKeepsIntact(tree: Tree, names: seq<string>, through: string)
    requires Intact(tree) && forall f | f in names :: f in tree.disk && IsSql(f)
    requires forall f | f in tree.disk && IsSql(f) && AtMost(f, through) :: AtMost(f, tree.manifest.frozenThrough) || f in names
    ensures Intact(Frozen(tree, names, through))
  {
    var before, added := tree.manifest.migrations, EntriesOf(names, tree.disk);
    forall e: Entry | e in before + added
      ensures e.name in tree.disk && IsSql(e.name) && tree.disk[e.name] == e.sha256
    {
      if e !in before {
        var i :| 0 <= i < |added| && added[i] == e;
        assert names[i] in names;
      }
    }
    NamesOfBoth(before, added);
    assert Names(added) == names;
  }

  lemma FreezeKeepsHealthy(first: Literal, full: Literal, tree: Tree)
    requires History(first, full) && Healthy(first, full, tree) && Unfrozen(tree) != []
    ensures Healthy(first, full, Took(tree, Freeze))
  {
    var names := Unfrozen(tree);
    FreezeKeepsAccepts(first, tree);
    FreezeKeepsAccepts(full, tree);
    UnfrozenAreLater(tree);
    forall f | f in tree.disk && IsSql(f)
      ensures AtMost(f, tree.manifest.frozenThrough) || f in names
    {
      AtMostTotal(f, tree.manifest.frozenThrough);
    }
    FreezeKeepsIntact(tree, names, names[|names| - 1]);
  }

  /** A run of later migrations and freezes, each added migration numbered past the accepted end. */
  ghost predicate Run(full: Literal, tree: Tree, steps: seq<Step>, last: Tree)
    requires Numbered(full)
    decreases |steps|
  {
    if steps == [] then tree == last
    else Allowed(full, tree, steps[0]) && Run(full, Took(tree, steps[0]), steps[1..], last)
  }

  ghost predicate Allowed(full: Literal, tree: Tree, step: Step)
    requires Numbered(full)
  {
    Enabled(tree, step) && (step.Add? ==> Head(step.name) > Head(End(full)))
  }

  lemma StepKeepsHealthy(first: Literal, full: Literal, tree: Tree, step: Step)
    requires History(first, full) && Healthy(first, full, tree) && Allowed(full, tree, step)
    ensures Healthy(first, full, Took(tree, step))
  {
    if step.Add? {
      AddKeepsHealthyIff(first, full, tree, step);
    } else {
      FreezeKeepsHealthy(first, full, tree);
    }
  }

  /** Forward evolution never turns an accepted tree red. */
  lemma {:induction false} EvolutionKeepsHealthy(first: Literal, full: Literal, tree: Tree, steps: seq<Step>, last: Tree)
    requires History(first, full) && Healthy(first, full, tree) && Run(full, tree, steps, last)
    ensures Healthy(first, full, last)
    decreases |steps|
  {
    if steps != [] {
      StepKeepsHealthy(first, full, tree, steps[0]);
      EvolutionKeepsHealthy(first, full, Took(tree, steps[0]), steps[1..], last);
    }
  }

  lemma CorrectiveFreezeKeepsIntact(p: Pin, tree: Tree)
    requires Pinned(p) && Candidate(p, tree) && Intact(tree)
    ensures Intact(CorrectiveFreeze(p, tree))
  {
    DeclaredAreThere(p, tree);
    DeclaredSorted(p);
    forall f | f in tree.disk && IsSql(f) && AtMost(f, End(p.full))
      ensures AtMost(f, tree.manifest.frozenThrough) || f in Declared(p)
    {
      AtMostTotal(f, BoundaryName(p));
      assert Less(BoundaryName(p), f) ==> f in AfterFiles(BoundaryName(p), tree.disk);
    }
    FreezeKeepsIntact(tree, Declared(p), End(p.full));
  }

  /** Records appended to a manifest, none of them in a literal's range, leave the literal's part alone. */
  lemma AppendOutside(l: Literal, before: seq<Entry>, added: seq<Entry>)
    requires Numbered(l) && ManifestAgrees(before, l.offset, l.entries) && NoStragglers(l, before)
    requires forall i | 0 <= i < |added| :: !InRange(l, added[i].name)
    ensures ManifestAgrees(before + added, l.offset, l.entries) && NoStragglers(l, before + added)
  {
    forall i | 0 <= i < |l.entries|
      ensures (before + added)[l.offset + i] == l.entries[i]
    {
      var e := l.entries[i];
      assert before[l.offset + i] == e;
    }
  }

  lemma DeclaredOutsideFirst(first: Literal, p: Pin, f: string)
    requires Pinned(p) && History(first, p.full) && f in Declared(p)
    ensures !InRange(first, f)
  {
    var i := NameIndex(Corrective(p), f);
    assert f == p.full.entries[p.slices + i].name;
    LaterOutside(first, f);
  }

  lemma CorrectiveFreezeKeepsFirst(first: Literal, p: Pin, tree: Tree)
    requires Pinned(p) && History(first, p.full) && Candidate(p, tree) && Accepts(first, tree)
    ensures Accepts(first, CorrectiveFreeze(p, tree))
  {
    DeclaredAreThere(p, tree);
    BoundaryBeforeEnd(p);
    forall f | f in Declared(p)
      ensures f in tree.disk && !InRange(first, f)
    {
      DeclaredOutsideFirst(first, p, f);
    }
    FrozenKeepsAccepts(first, tree, Declared(p), End(p.full));
  }
}
