/** What a library build order is, over the directories it is read from: which directories it lists, which
    stand before which, and when a cycle is reported. */
module Library {
  import opened Options
  import opened Text
  import opened BuildOrder

  /** One directory under `packages/`: its manifest's name, whether it has a `build` script, and
      every dependency it declares (dependencies, then peer, then dev dependencies). */
  datatype Entry = Entry(dir: string, name: Option<string>, build: bool, declared: seq<string>)

  /** A directory lists each of its entries once. */
  ghost predicate DistinctDirs(entries: seq<Entry>) {
    forall i, j | 0 <= i < j < |entries| :: entries[i].dir != entries[j].dir
  }

  /** An entry with a name and a build script; the Phase 1 gate takes the empty name too. */
  ghost predicate IsLibrary(e: Entry, emptyToo: bool) {
    e.build && e.name.Some? && (emptyToo || e.name.value != "")
  }

  ghost predicate DistinctLibraryNames(entries: seq<Entry>, emptyToo: bool) {
    forall i, j | 0 <= i < j < |entries| && IsLibrary(entries[i], emptyToo) && IsLibrary(entries[j], emptyToo) ::
      entries[i].name != entries[j].name
  }

  /** `e` declares `f` by name, in the workspace's own scope. */
  ghost predicate Needs(e: Entry, f: Entry) {
    f.name.Some? && f.name.value in e.declared && "@daftar/" <= f.name.value
  }

  /** Library entries, each needing the next, from one back to itself. */
  ghost predicate EntryCycle(entries: seq<Entry>, emptyToo: bool, w: seq<Entry>) {
    && |w| >= 2 && w[0] == w[|w| - 1]
    && (forall i | 0 <= i < |w| :: w[i] in entries && IsLibrary(w[i], emptyToo))
    && (forall i | 0 <= i < |w| - 1 :: Needs(w[i], w[i + 1]))
  }

  ghost predicate StandsBefore(order: seq<string>, a: string, b: string) {
    exists i, j :: 0 <= i < j < |order| && order[i] == a && order[j] == b
  }

  /** The order lists exactly the library entries' directories, each once; unless something is reported,
      what an entry needs stands before it; and something is reported exactly when they need each other in
      a cycle. */
  ghost predicate OrderMeans(entries: seq<Entry>, emptyToo: bool, order: seq<string>, reported: bool) {
    && Distinct(order)
    && (forall d :: d in order <==> exists e :: e in entries && IsLibrary(e, emptyToo) && e.dir == d)
    && (forall e, f | e in entries && f in entries && IsLibrary(e, emptyToo) && IsLibrary(f, emptyToo) && Needs(e, f) && !reported ::
          StandsBefore(order, f.dir, e.dir))
    && (reported <==> exists w :: EntryCycle(entries, emptyToo, w))
  }

  // ---- the packages selected -------------------------------------------------------------------

  function Dirs(order: seq<Package>): (r: seq<string>)
    ensures |r| == |order|
    ensures forall i | 0 <= i < |r| :: r[i] == order[i].dir
  {
    if order == [] then [] else [order[0].dir] + Dirs(order[1..])
  }

  /** A package holds its entry's dependencies in the workspace's scope, sorted. */
  ghost predicate PackageFor(p: Package, e: Entry) {
    && e.name == Some(p.name) && e.dir == p.dir
    && StrictlySorted(p.deps) && forall d :: d in p.deps <==> d in e.declared && "@daftar/" <= d
  }

  /** The library entries' packages, in order. */
  ghost predicate Selects(packages: seq<Package>, entries: seq<Entry>, emptyToo: bool) {
    if entries == [] then packages == []
    else if IsLibrary(entries[0], emptyToo) then
      packages != [] && PackageFor(packages[0], entries[0]) && Selects(packages[1..], entries[1..], emptyToo)
    else Selects(packages, entries[1..], emptyToo)
  }

  lemma {:induction false} SelectedIsEntry(packages: seq<Package>, entries: seq<Entry>, emptyToo: bool, p: Package) returns (e: Entry)
    requires Selects(packages, entries, emptyToo) && p in packages
    ensures e in entries && IsLibrary(e, emptyToo) && PackageFor(p, e)
  {
    if IsLibrary(entries[0], emptyToo) {
      if p == packages[0] {
        e := entries[0];
      } else {
        e := SelectedIsEntry(packages[1..], entries[1..], emptyToo, p);
      }
    } else {
      e := SelectedIsEntry(packages, entries[1..], emptyToo, p);
    }
  }

  lemma {:induction false} EntryIsSelected(packages: seq<Package>, entries: seq<Entry>, emptyToo: bool, e: Entry) returns (p: Package)
    requires Selects(packages, entries, emptyToo) && e in entries && IsLibrary(e, emptyToo)
    ensures p in packages && PackageFor(p, e)
  {
    if e == entries[0] {
      p := packages[0];
    } else if IsLibrary(entries[0], emptyToo) {
      p := EntryIsSelected(packages[1..], entries[1..], emptyToo, e);
    } else {
      p := EntryIsSelected(packages, entries[1..], emptyToo, e);
    }
  }

  lemma {:induction false} SelectedNamesDistinct(packages: seq<Package>, entries: seq<Entry>, emptyToo: bool)
    requires Selects(packages, entries, emptyToo) && DistinctLibraryNames(entries, emptyToo)
    ensures DistinctNames(packages)
  {
    if entries != [] {
      var rest := entries[1..];
      assert DistinctLibraryNames(rest, emptyToo) by {
        assert forall i | 0 <= i < |rest| :: rest[i] == entries[i + 1];
      }
      if IsLibrary(entries[0], emptyToo) {
        SelectedNamesDistinct(packages[1..], rest, emptyToo);
        forall j | 0 < j < |packages|
          ensures packages[j].name != packages[0].name
        {
          var e := SelectedIsEntry(packages[1..], rest, emptyToo, packages[1..][j - 1]);
          var k :| 0 <= k < |rest| && rest[k] == e;
          assert entries[k + 1] == e;
        }
        FirstNameDistinct(packages);
      } else {
        SelectedNamesDistinct(packages, rest, emptyToo);
      }
    }
  }

  lemma FirstNameDistinct(packages: seq<Package>)
    requires packages != [] && DistinctNames(packages[1..])
    requires forall j | 0 < j < |packages| :: packages[j].name != packages[0].name
    ensures DistinctNames(packages)
  {
    forall i, j | 0 <= i < j < |packages|
      ensures Names(packages)[i] != Names(packages)[j]
    {
      if i > 0 {
        assert Names(packages[1..])[i - 1] == packages[i].name && Names(packages[1..])[j - 1] == packages[j].name;
      }
    }
  }

  lemma OneEntryADir(entries: seq<Entry>, e: Entry, f: Entry)
    requires DistinctDirs(entries) && e in entries && f in entries && e.dir == f.dir
    ensures e == f
  {
    var i :| 0 <= i < |entries| && entries[i] == e;
    var j :| 0 <= j < |entries| && entries[j] == f;
  }

  // ---- the order -------------------------------------------------------------------------------

  /** A name stands for one library entry. */
  lemma OneEntryAName(packages: seq<Package>, entries: seq<Entry>, emptyToo: bool, e: Entry) returns (p: Package)
    requires Selects(packages, entries, emptyToo) && DistinctNames(packages)
    requires e in entries && IsLibrary(e, emptyToo)
    ensures PackageFor(p, e) && p in packages && p.name in ByName(packages) && ByName(packages)[p.name] == p
  {
    p := EntryIsSelected(packages, entries, emptyToo, e);
    ByNameDistinct(packages);
  }

  lemma OrderIsPlaced(packages: seq<Package>)
    requires DistinctNames(packages)
    ensures var order := BuildOrderOf(packages).order;
            AllPlaced(ByName(packages), order) && forall p :: p in order <==> p in packages
  {
    SearchEnds(packages);
    OrderListsEveryPackageOnce(packages);
    PermutationMembers(BuildOrderOf(packages).order, packages);
  }

  lemma PermutationMembers(a: seq<Package>, b: seq<Package>)
    requires multiset(a) == multiset(b)
    ensures forall p :: p in a <==> p in b
  {
    assert forall p :: p in a <==> p in multiset(a);
  }

  lemma DirDecidesName(packages: seq<Package>, entries: seq<Entry>, emptyToo: bool, p: Package, q: Package)
    requires Selects(packages, entries, emptyToo) && DistinctDirs(entries)
    requires p in packages && q in packages && p.name != q.name
    ensures p.dir != q.dir
  {
    var e := SelectedIsEntry(packages, entries, emptyToo, p);
    var f := SelectedIsEntry(packages, entries, emptyToo, q);
    if e.dir == f.dir {
      OneEntryADir(entries, e, f);
    }
  }

  lemma OrderDirsDistinct(packages: seq<Package>, entries: seq<Entry>, emptyToo: bool, order: seq<Package>)
    requires Selects(packages, entries, emptyToo) && DistinctDirs(entries)
    requires DistinctNames(order) && forall p :: p in order <==> p in packages
    ensures Distinct(Dirs(order))
  {
    forall i, j | 0 <= i < j < |order|
      ensures Dirs(order)[i] != Dirs(order)[j]
    {
      assert order[i] in order && order[j] in order;
      assert Names(order)[i] != Names(order)[j];
      DirDecidesName(packages, entries, emptyToo, order[i], order[j]);
    }
  }

  lemma OrderListsDirs(packages: seq<Package>, entries: seq<Entry>, emptyToo: bool, order: seq<Package>, d: string)
    requires Selects(packages, entries, emptyToo) && forall p :: p in order <==> p in packages
    ensures d in Dirs(order) <==> exists e :: e in entries && IsLibrary(e, emptyToo) && e.dir == d
  {
    if d in Dirs(order) {
      var i :| 0 <= i < |order| && Dirs(order)[i] == d;
      assert order[i] in packages;
      var e := SelectedIsEntry(packages, entries, emptyToo, order[i]);
    }
    if e :| e in entries && IsLibrary(e, emptyToo) && e.dir == d {
      var p := EntryIsSelected(packages, entries, emptyToo, e);
      assert p in order;
      var i :| 0 <= i < |order| && order[i] == p;
      assert Dirs(order)[i] == d;
    }
  }

  lemma NeedIsEdge(packages: seq<Package>, entries: seq<Entry>, emptyToo: bool, e: Entry, f: Entry)
    requires Selects(packages, entries, emptyToo) && DistinctNames(packages)
    requires e in entries && f in entries && IsLibrary(e, emptyToo) && IsLibrary(f, emptyToo)
    ensures Needs(e, f) <==> Edge(ByName(packages), e.name.value, f.name.value)
  {
    var p := OneEntryAName(packages, entries, emptyToo, e);
    var q := OneEntryAName(packages, entries, emptyToo, f);
  }

  lemma PlacedAt(known: map<string, Package>, order: seq<Package>, p: Package)
    requires AllPlaced(known, order) && p.name in known && known[p.name] == p
    ensures p.name in Names(order) && order[Position(order, p.name)] == p
  {
    assert order[Position(order, p.name)] in order;
  }

  lemma NeededStandsBefore(packages: seq<Package>, entries: seq<Entry>, emptyToo: bool, e: Entry, f: Entry)
    requires Selects(packages, entries, emptyToo) && DistinctNames(packages) && BuildOrderOf(packages).problems == []
    requires e in entries && f in entries && IsLibrary(e, emptyToo) && IsLibrary(f, emptyToo) && Needs(e, f)
    ensures StandsBefore(Dirs(BuildOrderOf(packages).order), f.dir, e.dir)
  {
    var order := BuildOrderOf(packages).order;
    var p := OneEntryAName(packages, entries, emptyToo, e);
    var q := OneEntryAName(packages, entries, emptyToo, f);
    NeedIsEdge(packages, entries, emptyToo, e, f);
    NoReportMeansDependenciesFirst(packages, p.name, q.name);
    OrderIsPlaced(packages);
    PlacedAt(ByName(packages), order, p);
    PlacedAt(ByName(packages), order, q);
    assert Dirs(order)[Position(order, q.name)] == f.dir && Dirs(order)[Position(order, p.name)] == e.dir;
  }

  // ---- the cycles ------------------------------------------------------------------------------

  /** The library entry of a package's name. */
  ghost function EntryNamed(packages: seq<Package>, entries: seq<Entry>, emptyToo: bool, n: string): Entry
    requires Selects(packages, entries, emptyToo) && n in ByName(packages)
  {
    assert exists e :: e in entries && IsLibrary(e, emptyToo) && e.name == Some(n) by {
      var j :| 0 <= j < |packages| && Names(packages)[j] == n;
      var e := SelectedIsEntry(packages, entries, emptyToo, packages[j]);
    }
    var e :| e in entries && IsLibrary(e, emptyToo) && e.name == Some(n);
    e
  }

  lemma CycleOfEntries(packages: seq<Package>, entries: seq<Entry>, emptyToo: bool, w: seq<string>) returns (es: seq<Entry>)
    requires Selects(packages, entries, emptyToo) && DistinctNames(packages) && Cycle(ByName(packages), w)
    ensures EntryCycle(entries, emptyToo, es)
  {
    forall n | n in w
      ensures n in ByName(packages)
    {
      var i :| 0 <= i < |w| && w[i] == n;
      assert i > 0 ==> Edge(ByName(packages), w[i - 1], w[i - 1 + 1]);
      assert i == 0 ==> Edge(ByName(packages), w[0], w[0 + 1]);
    }
    es := seq(|w|, i requires 0 <= i < |w| => EntryNamed(packages, entries, emptyToo, w[i]));
    forall i | 0 <= i < |es| - 1
      ensures Needs(es[i], es[i + 1])
    {
      assert Edge(ByName(packages), w[i], w[i + 1]);
      NeedIsEdge(packages, entries, emptyToo, es[i], es[i + 1]);
    }
  }

  lemma CycleOfNames(packages: seq<Package>, entries: seq<Entry>, emptyToo: bool, es: seq<Entry>) returns (w: seq<string>)
    requires Selects(packages, entries, emptyToo) && DistinctNames(packages) && EntryCycle(entries, emptyToo, es)
    ensures Cycle(ByName(packages), w)
  {
    w := seq(|es|, i requires 0 <= i < |es| => es[i].name.value);
    forall i | 0 <= i < |w| - 1
      ensures Edge(ByName(packages), w[i], w[i + 1])
    {
      NeedIsEdge(packages, entries, emptyToo, es[i], es[i + 1]);
    }
  }

  lemma ReportsIffEntryCycle(packages: seq<Package>, entries: seq<Entry>, emptyToo: bool)
    requires Selects(packages, entries, emptyToo) && DistinctNames(packages)
    ensures BuildOrderOf(packages).problems != [] <==> exists w :: EntryCycle(entries, emptyToo, w)
  {
    ReportsIffCycle(packages);
    if BuildOrderOf(packages).problems != [] {
      var w :| Cycle(ByName(packages), w);
      var es := CycleOfEntries(packages, entries, emptyToo, w);
    } else if es :| EntryCycle(entries, emptyToo, es) {
      var w := CycleOfNames(packages, entries, emptyToo, es);
      assert exists v :: Cycle(ByName(packages), v);
    }
  }

  /** What the search makes of a directory's library packages. */
  lemma SearchMeansOrder(packages: seq<Package>, entries: seq<Entry>, emptyToo: bool)
    requires Selects(packages, entries, emptyToo) && DistinctDirs(entries) && DistinctLibraryNames(entries, emptyToo)
    ensures OrderMeans(entries, emptyToo, Dirs(BuildOrderOf(packages).order), BuildOrderOf(packages).problems != [])
  {
    var order := BuildOrderOf(packages).order;
    SelectedNamesDistinct(packages, entries, emptyToo);
    OrderIsPlaced(packages);
    OrderDirsDistinct(packages, entries, emptyToo, order);
    forall d
      ensures d in Dirs(order) <==> exists e :: e in entries && IsLibrary(e, emptyToo) && e.dir == d
    {
      OrderListsDirs(packages, entries, emptyToo, order, d);
    }
    if BuildOrderOf(packages).problems == [] {
      forall e, f | e in entries && f in entries && IsLibrary(e, emptyToo) && IsLibrary(f, emptyToo) && Needs(e, f)
        ensures StandsBefore(Dirs(order), f.dir, e.dir)
      {
        NeededStandsBefore(packages, entries, emptyToo, e, f);
      }
    }
    ReportsIffEntryCycle(packages, entries, emptyToo);
  }
}
