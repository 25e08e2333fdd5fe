/** The migration manifest guard: frozen files are untouched, and the frozen history has no hole. */
module ManifestCheck {
  import opened Text
  import opened Migrations
  import opened Prefix

  datatype Violation =
    | NoManifest
    | Deleted(name: string)
    | Modified(name: string, expected: string, found: string)
    | Hole(name: string)

  /** What the guard promises: every frozen entry is on disk at its digest, and every `.sql` file at
      or before the frozen end is an entry. */
  ghost predicate Intact(tree: Tree) {
    && tree.manifest.migrations != []
    && (forall e | e in tree.manifest.migrations :: e.name in tree.disk && IsSql(e.name) && tree.disk[e.name] == e.sha256)
    && (forall f | f in tree.disk && IsSql(f) && AtMost(f, tree.manifest.frozenThrough) :: f in Names(tree.manifest.migrations))
  }

  ghost predicate IsHole(tree: Tree, f: string) {
    f in tree.disk && IsSql(f) && AtMost(f, tree.manifest.frozenThrough) && f !in Names(tree.manifest.migrations)
  }

  lemma EntryNames(migrations: seq<Entry>)
    ensures forall f :: f in Names(migrations) <==> exists e :: e in migrations && e.name == f
  {
    forall f
      ensures f in Names(migrations) <==> exists e :: e in migrations && e.name == f
    {
      if f in Names(migrations) {
        var i :| 0 <= i < |migrations| && Names(migrations)[i] == f;
        assert migrations[i] in migrations;
      }
      if e :| e in migrations && e.name == f {
        var i :| 0 <= i < |migrations| && migrations[i] == e;
        assert Names(migrations)[i] == f;
      }
    }
  }

  /** A frozen entry's violation, if its file is deleted or its bytes have changed. */
  ghost predicate EntryDue(disk: map<string, string>, entries: seq<Entry>, v: Violation) {
    match v
    case Deleted(name) => !(name in disk && IsSql(name)) && exists e :: e in entries && e.name == name
    case Modified(name, expected, found) => name in disk && IsSql(name) && disk[name] == found != expected && Entry(name, expected) in entries
    case _ => false
  }

  ghost predicate Untouched(disk: map<string, string>, entries: seq<Entry>) {
    forall e | e in entries :: e.name in disk && IsSql(e.name) && disk[e.name] == e.sha256
  }

  /** When each violation is due; holes are looked for only in an untouched history. */
  ghost predicate Due(tree: Tree, v: Violation) {
    match v
    case NoManifest => tree.manifest.migrations == []
    case Hole(name) => tree.manifest.migrations != [] && Untouched(tree.disk, tree.manifest.migrations) && IsHole(tree, name)
    case _ => EntryDue(tree.disk, tree.manifest.migrations, v)
  }

  /** The script: it stops after the frozen entries if any was violated, and looks for holes only
      then. It exits with success exactly when it found nothing. */
  method CheckManifest(tree: Tree, listing: seq<string>) returns (violations: seq<Violation>)
    requires Lists(listing, tree.disk)
    ensures violations == [] <==> Intact(tree)
    ensures forall v :: v in violations <==> Due(tree, v)
  {
    var migrations := tree.manifest.migrations;
    if migrations == [] {
      return [NoManifest];
    }
    violations := CheckEntries(tree.disk, migrations);
    UntouchedIff(tree.disk, migrations, violations);
    if violations == [] {
      violations := FindHoles(tree, listing);
      NoHolesIff(tree);
      assert violations == [] <==> forall f :: !IsHole(tree, f) by {
        if violations != [] {
          assert violations[0] in violations;
        }
        if f :| IsHole(tree, f) {
          assert Hole(f) in violations;
        }
      }
    }
  }

  lemma UntouchedIff(disk: map<string, string>, entries: seq<Entry>, violations: seq<Violation>)
    requires forall v :: v in violations <==> EntryDue(disk, entries, v)
    ensures violations == [] <==> Untouched(disk, entries)
  {
    if violations != [] {
      assert violations[0] in violations && EntryDue(disk, entries, violations[0]);
    }
    if e :| e in entries && !(e.name in disk && IsSql(e.name) && disk[e.name] == e.sha256) {
      var v := if e.name in disk && IsSql(e.name) then Modified(e.name, e.sha256, disk[e.name]) else Deleted(e.name);
      assert EntryDue(disk, entries, v);
    }
  }

  lemma NoHolesIff(tree: Tree)
    ensures (forall f :: !IsHole(tree, f)) <==>
            forall f | f in tree.disk && IsSql(f) && AtMost(f, tree.manifest.frozenThrough) :: f in Names(tree.manifest.migrations)
  {
    if forall f :: !IsHole(tree, f) {
      forall f | f in tree.disk && IsSql(f) && AtMost(f, tree.manifest.frozenThrough)
        ensures f in Names(tree.manifest.migrations)
      {
        assert !IsHole(tree, f);
      }
    }
  }

  method FindHoles(tree: Tree, listing: seq<string>) returns (violations: seq<Violation>)
    requires Lists(listing, tree.disk)
    ensures forall v :: v in violations <==> v.Hole? && IsHole(tree, v.name)
  {
    violations := [];
    var files, migrations := Sort(listing), tree.manifest.migrations;
    SortSorts(listing);
    EntryNames(migrations);
    for i := 0 to |files|
      invariant forall v :: v in violations <==> v.Hole? && v.name in files[..i] && IsHole(tree, v.name)
    {
      var f := files[i];
      assert files[..i + 1] == files[..i] + [f];
      if IsSql(f) && AtMost(f, tree.manifest.frozenThrough) && !(exists e :: e in migrations && e.name == f) {
        violations := violations + [Hole(f)];
      }
    }
    assert files[..|files|] == files;
  }

  lemma NextEntryDue(disk: map<string, string>, entries: seq<Entry>, e: Entry, v: Violation)
    ensures EntryDue(disk, entries + [e], v)
       <==> || EntryDue(disk, entries, v)
            || (!(e.name in disk && IsSql(e.name)) && v == Deleted(e.name))
            || (e.name in disk && IsSql(e.name) && disk[e.name] != e.sha256 && v == Modified(e.name, e.sha256, disk[e.name]))
  {
    assert e in entries + [e];
  }

  method CheckEntries(disk: map<string, string>, migrations: seq<Entry>) returns (violations: seq<Violation>)
    ensures forall v :: v in violations <==> EntryDue(disk, migrations, v)
  {
    violations := [];
    for i := 0 to |migrations|
      invariant forall v :: v in violations <==> EntryDue(disk, migrations[..i], v)
    {
      var entry := migrations[i];
      assert migrations[..i + 1] == migrations[..i] + [entry];
      forall v
        ensures EntryDue(disk, migrations[..i + 1], v)
           <==> || EntryDue(disk, migrations[..i], v)
                || (!(entry.name in disk && IsSql(entry.name)) && v == Deleted(entry.name))
                || (entry.name in disk && IsSql(entry.name) && disk[entry.name] != entry.sha256 && v == Modified(entry.name, entry.sha256, disk[entry.name]))
      {
        NextEntryDue(disk, migrations[..i], entry, v);
      }
      if entry.name !in disk || !IsSql(entry.name) {
        violations := violations + [Deleted(entry.name)];
      } else if disk[entry.name] != entry.sha256 {
        violations := violations + [Modified(entry.name, entry.sha256, disk[entry.name])];
      }
    }
    assert migrations[..|migrations|] == migrations;
  }
}
