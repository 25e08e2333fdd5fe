/** When the two release gates build the library packages alike, package names shared or not. */
module GatesAgreement {
  import opened Options
  import opened Text
  import opened BuildOrder
  import opened Library
  import opened NamedSearch
  import opened Phase1BuildOrder

  /** A walk along dependency edges leads from one name to the other, or they are one. */
  ghost predicate Leads(known: map<string, Package>, a: string, b: string) {
    exists w :: LeadsAlong(known, w, a, b)
  }

  ghost predicate LeadsAlong(known: map<string, Package>, w: seq<string>, a: string, b: string) {
    w != [] && Walk(known, w) && w[0] == a && w[|w| - 1] == b
  }

  /** One of the first `i` packages leads to the name. */
  ghost predicate ReachedBefore(known: map<string, Package>, packages: seq<Package>, i: nat, n: string)
    requires i <= |packages|
  {
    exists j :: 0 <= j < i && Leads(known, packages[j].name, n)
  }

  /** The package is the last of its name, or the search has its name before it gets to it. */
  ghost predicate NotShadowed(known: map<string, Package>, packages: seq<Package>, i: nat)
    requires i < |packages|
  {
    var pkg := packages[i];
    (pkg.name in known && known[pkg.name] == pkg) || ReachedBefore(known, packages, i, pkg.name)
  }

  /** Of packages that share a name, only the last is ever built first. */
  ghost predicate NoShadowedRoot(packages: seq<Package>) {
    forall i | 0 <= i < |packages| :: NotShadowed(ByName(packages), packages, i)
  }

  // ---- what every visit does, whichever package it is given ------------------------------------------

  ghost predicate BuiltListed(s: Search<Package>) {
    forall n | n in s.state && s.state[n] == Built :: n in Names(s.order)
  }

  /** The order grows by packages of the map or the one visited. */
  ghost predicate ListsOnly(known: map<string, Package>, s: Search<Package>, r: Search<Package>, pkg: Package) {
    forall p | p in r.order :: p in s.order || p == pkg || (p.name in known && known[p.name] == p)
  }

  lemma {:induction false} AnyVisit(known: map<string, Package>, s: Search<Package>, pkg: Package, trail: seq<string>)
    requires Named(known) && pkg.name in known && BuiltListed(s)
    ensures var r := Visited(known, s, pkg, trail);
            Extends(s, r) && BuiltListed(r) && pkg.name in r.state && ListsOnly(known, s, r, pkg)
    decreases known.Keys - s.state.Keys, 0
  {
    if pkg.name !in s.state {
      var marked := s.(state := s.state[pkg.name := Visiting]);
      assert pkg.name in known.Keys - s.state.Keys && pkg.name !in known.Keys - marked.state.Keys;
      AnyVisits(known, marked, pkg.deps, trail + [pkg.name], pkg);
      var walked := VisitedDeps(known, marked, pkg.deps, trail + [pkg.name]);
      NamesAppend(walked.order, pkg);
      FinishExtends(s, marked, walked, pkg);
    }
  }

  lemma {:induction false} AnyVisits(known: map<string, Package>, s: Search<Package>, deps: seq<string>, trail: seq<string>, pkg: Package)
    requires Named(known) && BuiltListed(s)
    ensures var r := VisitedDeps(known, s, deps, trail);
            Extends(s, r) && BuiltListed(r) && ListsOnly(known, s, r, pkg)
    decreases known.Keys - s.state.Keys, |deps|
  {
    if deps != [] {
      var next := s;
      if deps[0] in known {
        next := Visited(known, s, known[deps[0]], trail);
        AnyVisit(known, s, known[deps[0]], trail);
      }
      AnyVisits(known, next, deps[1..], trail, pkg);
      ExtendsTransitive(s, next, VisitedDeps(known, next, deps[1..], trail));
    }
  }

  lemma {:induction false} AnyVisitsAll(known: map<string, Package>, s: Search<Package>, packages: seq<Package>)
    requires Named(known) && BuiltListed(s) && forall pkg | pkg in packages :: pkg.name in known
    ensures var r := VisitedAll(known, s, packages);
            && Extends(s, r) && BuiltListed(r)
            && (forall pkg | pkg in packages :: pkg.name in r.state)
            && forall p | p in r.order :: p in s.order || p in packages || (p.name in known && known[p.name] == p)
    decreases |packages|
  {
    if packages != [] {
      assert packages[0] in packages && forall p | p in packages[1..] :: p in packages;
      var next := Visited(known, s, packages[0], []);
      AnyVisit(known, s, packages[0], []);
      AnyVisitsAll(known, next, packages[1..]);
      ExtendsTransitive(s, next, VisitedAll(known, next, packages[1..]));
      assert forall p | p in packages :: p == packages[0] || p in packages[1..];
    }
  }

  // ---- the marks are the names reached ---------------------------------------------------------------

  /** Every marked name outside `open` has its known dependencies marked. */
  ghost predicate ClosedBut(known: map<string, Package>, s: Search<Package>, open: set<string>) {
    forall a, b | Edge(known, a, b) && a in s.state && a !in open :: b in s.state
  }

  lemma {:induction false} VisitCloses(known: map<string, Package>, s: Search<Package>, n: string, trail: seq<string>, open: set<string>)
    requires Named(known) && n in known && ClosedBut(known, s, open)
    ensures var r := Visited(known, s, known[n], trail); n in r.state && ClosedBut(known, r, open)
    decreases known.Keys - s.state.Keys, 0
  {
    if n !in s.state {
      var marked := s.(state := s.state[n := Visiting]);
      assert n in known.Keys - s.state.Keys && n !in known.Keys - marked.state.Keys;
      VisitsClose(known, marked, known[n].deps, trail + [n], open + {n});
    }
  }

  lemma {:induction false} VisitsClose(known: map<string, Package>, s: Search<Package>, deps: seq<string>, trail: seq<string>, open: set<string>)
    requires Named(known) && ClosedBut(known, s, open)
    ensures var r := VisitedDeps(known, s, deps, trail);
            ClosedBut(known, r, open) && forall d | d in deps && d in known :: d in r.state
    decreases known.Keys - s.state.Keys, |deps|
  {
    if deps != [] {
      var next := s;
      if deps[0] in known {
        next := Visited(known, s, known[deps[0]], trail);
        VisitCloses(known, s, deps[0], trail, open);
      }
      VisitsClose(known, next, deps[1..], trail, open);
    }
  }

  lemma LeadsItself(known: map<string, Package>, a: string)
    ensures Leads(known, a, a)
  {
    assert LeadsAlong(known, [a], a, a);
  }

  lemma LeadsOn(known: map<string, Package>, a: string, d: string, b: string)
    requires Edge(known, a, d) && Leads(known, d, b)
    ensures Leads(known, a, b)
  {
    var w :| LeadsAlong(known, w, d, b);
    var longer := [a] + w;
    forall i | 0 <= i < |longer| - 1
      ensures Edge(known, longer[i], longer[i + 1])
    {
      assert i > 0 ==> longer[i] == w[i - 1] && longer[i + 1] == w[i - 1 + 1];
    }
    assert LeadsAlong(known, longer, a, b);
  }

  lemma {:induction false} VisitReaches(known: map<string, Package>, s: Search<Package>, n: string, trail: seq<string>)
    requires Named(known) && n in known
    ensures var r := Visited(known, s, known[n], trail); forall m | m in r.state && m !in s.state :: Leads(known, n, m)
    decreases known.Keys - s.state.Keys, 0
  {
    if n !in s.state {
      var marked := s.(state := s.state[n := Visiting]);
      assert n in known.Keys - s.state.Keys && n !in known.Keys - marked.state.Keys;
      VisitsReach(known, marked, n, known[n].deps, trail + [n]);
      LeadsItself(known, n);
    }
  }

  lemma {:induction false} VisitsReach(known: map<string, Package>, s: Search<Package>, n: string, deps: seq<string>, trail: seq<string>)
    requires Named(known) && n in known && forall d | d in deps :: d in known[n].deps
    ensures var r := VisitedDeps(known, s, deps, trail); forall m | m in r.state && m !in s.state :: Leads(known, n, m)
    decreases known.Keys - s.state.Keys, |deps|
  {
    if deps != [] {
      assert forall d | d in deps[1..] :: d in deps;
      var next := s;
      if deps[0] in known {
        next := Visited(known, s, known[deps[0]], trail);
        VisitReaches(known, s, deps[0], trail);
        forall m | m in next.state && m !in s.state
          ensures Leads(known, n, m)
        {
          LeadsOn(known, n, deps[0], m);
        }
      }
      VisitsReach(known, next, n, deps[1..], trail);
    }
  }

  lemma {:induction false} ClosedHoldsWalk(known: map<string, Package>, s: Search<Package>, w: seq<string>, k: nat)
    requires ClosedBut(known, s, {}) && Walk(known, w) && k < |w| && w[0] in s.state
    ensures w[k] in s.state
  {
    if k > 0 {
      ClosedHoldsWalk(known, s, w, k - 1);
      assert Edge(known, w[k - 1], w[k - 1 + 1]);
    }
  }

  // ---- the two searches, root by root ----------------------------------------------------------------

  /** The first search after its first `i` roots. */
  function Before(known: map<string, Package>, packages: seq<Package>, i: nat): Search<Package>
    requires Named(known) && i <= |packages| && forall pkg | pkg in packages :: pkg.name in known
  {
    VisitedAll(known, Start(), packages[..i])
  }

  lemma {:induction false} OneRootMore(known: map<string, Package>, s: Search<Package>, roots: seq<Package>, pkg: Package)
    requires Named(known) && pkg.name in known && forall p | p in roots :: p.name in known
    ensures forall p | p in roots + [pkg] :: p.name in known
    ensures VisitedAll(known, s, roots + [pkg]) == Visited(known, VisitedAll(known, s, roots), pkg, [])
    decreases |roots|
  {
    if roots == [] {
      assert roots + [pkg] == [pkg] && [pkg][1..] == [];
    } else {
      assert (roots + [pkg])[1..] == roots[1..] + [pkg];
      OneRootMore(known, Visited(known, s, roots[0], []), roots[1..], pkg);
    }
  }

  lemma {:induction false} OneNameMore(named: map<string, Package>, s: Search<string>, names: seq<string>, n: string)
    requires Named(named)
    ensures VisitedNames(named, s, names + [n], []) == VisitedName(named, VisitedNames(named, s, names, []), n, [])
    decreases |names|
  {
    if names == [] {
      assert names + [n] == [n] && [n][1..] == [];
    } else {
      assert (names + [n])[1..] == names[1..] + [n];
      OneNameMore(named, VisitedName(named, s, names[0], []), names[1..], n);
    }
  }

  /** All marks are built, and are what the first `i` roots reach. */
  ghost predicate MarksReached(known: map<string, Package>, packages: seq<Package>, i: nat, s: Search<Package>)
    requires i <= |packages|
  {
    && ClosedBut(known, s, {})
    && (forall n | n in s.state :: s.state[n] == Built)
    && (forall j | 0 <= j < i :: packages[j].name in s.state)
    && (forall n | n in s.state :: ReachedBefore(known, packages, i, n))
  }

  lemma ReachedIsMarked(known: map<string, Package>, packages: seq<Package>, i: nat, s: Search<Package>, n: string)
    requires i <= |packages| && MarksReached(known, packages, i, s)
    ensures n in s.state <==> ReachedBefore(known, packages, i, n)
  {
    if ReachedBefore(known, packages, i, n) {
      var j :| 0 <= j < i && Leads(known, packages[j].name, n);
      var w :| LeadsAlong(known, w, packages[j].name, n);
      ClosedHoldsWalk(known, s, w, |w| - 1);
    }
  }

  /** A root that is not shadowed is visited as its name is. */
  lemma RootAsName(known: map<string, Package>, packages: seq<Package>, i: nat, s: Search<Package>)
    requires Named(known) && i < |packages| && packages[i].name in known
    requires MarksReached(known, packages, i, s) && NotShadowed(known, packages, i)
    ensures Visited(known, s, packages[i], []) == Visited(known, s, known[packages[i].name], [])
  {
    ReachedIsMarked(known, packages, i, s, packages[i].name);
  }

  lemma ReachedLater(known: map<string, Package>, packages: seq<Package>, i: nat, n: string)
    requires i < |packages|
    ensures ReachedBefore(known, packages, i, n) ==> ReachedBefore(known, packages, i + 1, n)
    ensures Leads(known, packages[i].name, n) ==> ReachedBefore(known, packages, i + 1, n)
  {
    if ReachedBefore(known, packages, i, n) {
      var j :| 0 <= j < i && Leads(known, packages[j].name, n);
    }
  }

  lemma StepKeepsMarks(known: map<string, Package>, packages: seq<Package>, i: nat, s: Search<Package>)
    requires Named(known) && i < |packages| && packages[i].name in known
    requires BuiltListed(s) && MarksReached(known, packages, i, s)
    ensures MarksReached(known, packages, i + 1, Visited(known, s, known[packages[i].name], []))
  {
    var n := packages[i].name;
    var r := Visited(known, s, known[n], []);
    AnyVisit(known, s, known[n], []);
    VisitCloses(known, s, n, [], {});
    VisitReaches(known, s, n, []);
    forall m | m in r.state
      ensures ReachedBefore(known, packages, i + 1, m)
    {
      ReachedLater(known, packages, i, m);
    }
  }

  /** The first search's state after `i` roots, with the second gone the same way. */
  ghost predicate InStep(known: map<string, Package>, named: map<string, Package>, packages: seq<Package>, i: nat, s: Search<Package>)
    requires Named(named) && i <= |packages|
  {
    && BuiltListed(s) && MarksReached(known, packages, i, s)
    && AsDirs(s) == VisitedNames(named, Start(), Names(packages)[..i], [])
  }

  lemma NameMore(known: map<string, Package>, named: map<string, Package>, names: seq<string>, n: string, s: Search<Package>)
    requires SameGraph(known, named) && n in known && AsDirs(s) == VisitedNames(named, Start(), names, [])
    ensures AsDirs(Visited(known, s, known[n], [])) == VisitedNames(named, Start(), names + [n], [])
  {
    VisitsAgree(known, named, s, n, []);
    OneNameMore(named, Start(), names, n);
  }

  lemma NextName(known: map<string, Package>, named: map<string, Package>, packages: seq<Package>, i: nat, s: Search<Package>)
    requires SameGraph(known, named) && i < |packages| && packages[i].name in known
    requires AsDirs(s) == VisitedNames(named, Start(), Names(packages)[..i], [])
    ensures AsDirs(Visited(known, s, known[packages[i].name], [])) == VisitedNames(named, Start(), Names(packages)[..i + 1], [])
  {
    var n := packages[i].name;
    assert Names(packages)[..i + 1] == Names(packages)[..i] + [n];
    NameMore(known, named, Names(packages)[..i], n, s);
  }

  lemma StepStaysInStep(known: map<string, Package>, named: map<string, Package>, packages: seq<Package>, i: nat, s: Search<Package>)
    requires SameGraph(known, named) && i < |packages| && packages[i].name in known
    requires InStep(known, named, packages, i, s) && NotShadowed(known, packages, i)
    ensures InStep(known, named, packages, i + 1, Visited(known, s, packages[i], []))
  {
    RootAsName(known, packages, i, s);
    AnyVisit(known, s, known[packages[i].name], []);
    StepKeepsMarks(known, packages, i, s);
    NextName(known, named, packages, i, s);
  }

  lemma NextRoot(known: map<string, Package>, packages: seq<Package>, i: nat)
    requires Named(known) && i < |packages| && forall pkg | pkg in packages :: pkg.name in known
    ensures packages[i].name in known
    ensures Before(known, packages, i + 1) == Visited(known, Before(known, packages, i), packages[i], [])
  {
    assert packages[i] in packages && packages[..i + 1] == packages[..i] + [packages[i]];
    OneRootMore(known, Start(), packages[..i], packages[i]);
  }

  lemma BothStart(known: map<string, Package>, named: map<string, Package>, packages: seq<Package>)
    requires SameGraph(known, named) && forall pkg | pkg in packages :: pkg.name in known
    ensures InStep(known, named, packages, 0, Before(known, packages, 0))
  {
    assert Names(packages)[..0] == [] && AsDirs(Start()) == Start();
  }

  lemma {:induction false} SearchesStayInStep(known: map<string, Package>, named: map<string, Package>, packages: seq<Package>, i: nat)
    requires SameGraph(known, named) && i <= |packages| && forall pkg | pkg in packages :: pkg.name in known
    requires forall j | 0 <= j < i :: NotShadowed(known, packages, j)
    ensures InStep(known, named, packages, i, Before(known, packages, i))
  {
    if i == 0 {
      BothStart(known, named, packages);
    } else {
      SearchesStayInStep(known, named, packages, i - 1);
      NextRoot(known, packages, i - 1);
      StepStaysInStep(known, named, packages, i - 1, Before(known, packages, i - 1));
    }
  }

  // ---- a shadowed root divides them ------------------------------------------------------------------

  /** The second search lists directories of its own map only. */
  lemma {:induction false} ListsNamedDirs(named: map<string, Package>, s: Search<string>, names: seq<string>, trail: seq<string>)
    requires Named(named)
    ensures forall d | d in VisitedNames(named, s, names, trail).order :: d in s.order || exists n :: n in named && named[n].dir == d
    decreases named.Keys - s.state.Keys, |names|
  {
    if names != [] {
      var n := names[0];
      var next := VisitedName(named, s, n, trail);
      if n in named && n !in s.state {
        var marked := s.(state := s.state[n := Visiting]);
        assert n in named.Keys - s.state.Keys && n !in named.Keys - marked.state.Keys;
        ListsNamedDirs(named, marked, VisitOrder(named[n]), trail + [n]);
      }
      assert forall d | d in next.order :: d in s.order || exists m :: m in named && named[m].dir == d;
      ListsNamedDirs(named, next, names[1..], trail);
    }
  }

  lemma {:induction false} ByNameHoldsPackages(packages: seq<Package>)
    ensures forall n | n in ByName(packages) :: ByName(packages)[n] in packages
  {
    if packages != [] {
      ByNameHoldsPackages(packages[..|packages| - 1]);
    }
  }

  function PackageOf(entry: Entry): Package
    requires entry.name.Some?
  {
    Package(entry.name.value, entry.dir, Sort(InScope(Dedup(entry.declared))))
  }

  lemma {:induction false} PackagesAreEntries(entries: seq<Entry>)
    ensures forall p | p in LibraryPackages(entries) :: exists e :: e in entries && e.name.Some? && p == PackageOf(e)
    ensures forall q | q in NamedPackages(entries) :: q.name != "" && exists e :: e in entries && e.name == Some(q.name) && e.dir == q.dir
  {
    if entries != [] {
      PackagesAreEntries(entries[1..]);
      assert entries[0] in entries && forall e | e in entries[1..] :: e in entries;
    }
  }

  lemma DirDecidesPackage(entries: seq<Entry>, p: Package, q: Package)
    requires DistinctDirs(entries) && p in LibraryPackages(entries) && q in LibraryPackages(entries) && p.dir == q.dir
    ensures p == q
  {
    PackagesAreEntries(entries);
    var e :| e in entries && e.name.Some? && p == PackageOf(e);
    var f :| f in entries && f.name.Some? && q == PackageOf(f);
    OneEntryADir(entries, e, f);
  }

  /** A package the second search cannot list: shadowed in its map, or of the empty name. */
  lemma NotListedBySecond(entries: seq<Entry>, p: Package)
    requires DistinctDirs(entries) && p in LibraryPackages(entries)
    requires p.name == "" || ("" !in Names(LibraryPackages(entries)) && p.name in ByName(LibraryPackages(entries)) && ByName(LibraryPackages(entries))[p.name] != p)
    ensures p.dir !in SearchOf(entries).order
  {
    var packages, second := LibraryPackages(entries), NamedPackages(entries);
    ListsNamedDirs(ByName(second), Start(), Names(second), []);
    if p.dir in SearchOf(entries).order {
      var n :| n in ByName(second) && ByName(second)[n].dir == p.dir;
      ByNameHoldsPackages(second);
      if p.name == "" {
        EmptyNameHasItsOwnDir(entries, p, ByName(second)[n]);
      } else {
        SelectionsAgree(entries);
        GraphsAgree(packages, second);
        assert SamePackage(ByName(packages)[n], ByName(second)[n]);
        ByNameHoldsPackages(packages);
        DirDecidesPackage(entries, ByName(packages)[n], p);
      }
    }
  }

  lemma EmptyNameHasItsOwnDir(entries: seq<Entry>, p: Package, q: Package)
    requires DistinctDirs(entries) && p in LibraryPackages(entries) && p.name == "" && q in NamedPackages(entries)
    ensures p.dir != q.dir
  {
    PackagesAreEntries(entries);
    var e :| e in entries && e.name.Some? && p == PackageOf(e);
    var f :| f in entries && f.name == Some(q.name) && f.dir == q.dir;
    if p.dir == q.dir {
      OneEntryADir(entries, e, f);
    }
  }

  lemma ListedDivides(entries: seq<Entry>, p: Package)
    requires p in BuildOrderOf(LibraryPackages(entries)).order && p.dir !in SearchOf(entries).order
    ensures !GatesAgree(entries)
  {
    var order := BuildOrderOf(LibraryPackages(entries)).order;
    var i :| 0 <= i < |order| && order[i] == p;
    assert Dirs(order)[i] == p.dir;
  }

  lemma PackagesAreKnown(packages: seq<Package>)
    ensures forall pkg | pkg in packages :: pkg.name in ByName(packages)
  {
    forall pkg | pkg in packages
      ensures pkg.name in ByName(packages)
    {
      NameInNames(packages, pkg);
    }
  }

  lemma EmptyNameDivides(entries: seq<Entry>)
    requires DistinctDirs(entries) && "" in Names(LibraryPackages(entries))
    ensures !GatesAgree(entries)
  {
    var packages := LibraryPackages(entries);
    var known, r := ByName(packages), BuildOrderOf(packages);
    PackagesAreKnown(packages);
    AnyVisitsAll(known, Start(), packages);
    ByNameHoldsPackages(packages);
    var i :| 0 <= i < |packages| && Names(packages)[i] == "";
    assert packages[i] in packages && "" in Names(r.order);
    var k :| 0 <= k < |r.order| && Names(r.order)[k] == "";
    assert r.order[k] in packages;
    NotListedBySecond(entries, r.order[k]);
    ListedDivides(entries, r.order[k]);
  }

  lemma {:induction false} FirstShadowed(known: map<string, Package>, packages: seq<Package>, n: nat) returns (k: nat)
    requires n < |packages| && !NotShadowed(known, packages, n)
    ensures k <= n && !NotShadowed(known, packages, k) && forall j | 0 <= j < k :: NotShadowed(known, packages, j)
  {
    if j: nat :| j < n && !NotShadowed(known, packages, j) {
      k := FirstShadowed(known, packages, j);
    } else {
      k := n;
    }
  }

  lemma {:induction false} RootsInTwo(known: map<string, Package>, s: Search<Package>, a: seq<Package>, b: seq<Package>)
    requires Named(known) && forall p | p in a + b :: p.name in known
    ensures (forall p | p in a :: p.name in known) && forall p | p in b :: p.name in known
    ensures VisitedAll(known, s, a + b) == VisitedAll(known, VisitedAll(known, s, a), b)
    decreases |a|
  {
    assert forall p | p in a || p in b :: p in a + b;
    if a == [] {
      assert a + b == b;
    } else {
      assert a[0] in a && (a + b)[0] == a[0] && (a + b)[1..] == a[1..] + b;
      assert forall p | p in a[1..] + b :: p in a + b;
      RootsInTwo(known, Visited(known, s, a[0], []), a[1..], b);
    }
  }

  lemma UnmarkedIsListed(known: map<string, Package>, s: Search<Package>, pkg: Package)
    requires Named(known) && pkg.name in known && pkg.name !in s.state
    ensures pkg in Visited(known, s, pkg, []).order
  {
    var order := Visited(known, s, pkg, []).order;
    assert order[|order| - 1] == pkg;
  }

  lemma LaterRootsKeepOrder(known: map<string, Package>, packages: seq<Package>, i: nat)
    requires Named(known) && i <= |packages| && forall pkg | pkg in packages :: pkg.name in known
    requires BuiltListed(Before(known, packages, i))
    ensures Before(known, packages, i).order <= VisitedAll(known, Start(), packages).order
  {
    assert packages == packages[..i] + packages[i..];
    RootsInTwo(known, Start(), packages[..i], packages[i..]);
    AnyVisitsAll(known, Before(known, packages, i), packages[i..]);
  }

  /** The first shadowed root is built by the first search itself. */
  lemma ShadowedIsListed(known: map<string, Package>, named: map<string, Package>, packages: seq<Package>, k: nat)
    requires SameGraph(known, named) && k < |packages| && forall pkg | pkg in packages :: pkg.name in known
    requires !NotShadowed(known, packages, k) && forall j | 0 <= j < k :: NotShadowed(known, packages, j)
    ensures packages[k] in VisitedAll(known, Start(), packages).order
  {
    var s := Before(known, packages, k);
    SearchesStayInStep(known, named, packages, k);
    ReachedIsMarked(known, packages, k, s, packages[k].name);
    NextRoot(known, packages, k);
    UnmarkedIsListed(known, s, packages[k]);
    AnyVisit(known, s, packages[k], []);
    LaterRootsKeepOrder(known, packages, k + 1);
  }

  lemma ShadowedRootDivides(entries: seq<Entry>, n: nat)
    requires DistinctDirs(entries) && "" !in Names(LibraryPackages(entries)) && n < |LibraryPackages(entries)|
    requires !NotShadowed(ByName(LibraryPackages(entries)), LibraryPackages(entries), n)
    ensures !GatesAgree(entries)
  {
    var packages := LibraryPackages(entries);
    var known := ByName(packages);
    var k := FirstShadowed(known, packages, n);
    SelectionsAgree(entries);
    GraphsAgree(packages, NamedPackages(entries));
    PackagesAreKnown(packages);
    ShadowedIsListed(known, ByName(NamedPackages(entries)), packages, k);
    assert packages[k] in packages;
    NotListedBySecond(entries, packages[k]);
    ListedDivides(entries, packages[k]);
  }

  lemma SameNames(p: seq<Package>, q: seq<Package>)
    requires |p| == |q| && forall i | 0 <= i < |p| :: SamePackage(p[i], q[i])
    ensures Names(p) == Names(q)
  {
    forall i | 0 <= i < |p|
      ensures Names(p)[i] == Names(q)[i]
    {
      assert SamePackage(p[i], q[i]);
    }
  }

  lemma SearchesAgreeAlong(known: map<string, Package>, named: map<string, Package>, packages: seq<Package>)
    requires SameGraph(known, named) && forall pkg | pkg in packages :: pkg.name in known
    requires forall i | 0 <= i < |packages| :: NotShadowed(known, packages, i)
    ensures VisitedNames(named, Start(), Names(packages), []) == AsDirs(VisitedAll(known, Start(), packages))
  {
    SearchesStayInStep(known, named, packages, |packages|);
    assert packages[..|packages|] == packages && Names(packages)[..|packages|] == Names(packages);
  }

  lemma UnshadowedSearchesAgree(packages: seq<Package>, second: seq<Package>)
    requires |packages| == |second| && forall i | 0 <= i < |packages| :: SamePackage(packages[i], second[i])
    requires NoShadowedRoot(packages)
    ensures VisitedNames(ByName(second), Start(), Names(second), []) == AsDirs(BuildOrderOf(packages))
  {
    GraphsAgree(packages, second);
    PackagesAreKnown(packages);
    SearchesAgreeAlong(ByName(packages), ByName(second), packages);
    SameNames(packages, second);
  }

  lemma SomethingIsBuilt(packages: seq<Package>)
    requires packages != []
    ensures BuildOrderOf(packages).order != []
  {
    PackagesAreKnown(packages);
    AnyVisitsAll(ByName(packages), Start(), packages);
    assert packages[0] in packages && packages[0].name in Names(BuildOrderOf(packages).order);
  }

  lemma UnshadowedAgree(entries: seq<Entry>)
    requires LibraryPackages(entries) != [] && "" !in Names(LibraryPackages(entries)) && NoShadowedRoot(LibraryPackages(entries))
    ensures SearchOf(entries) == AsDirs(BuildOrderOf(LibraryPackages(entries))) && GatesAgree(entries)
  {
    SelectionsAgree(entries);
    UnshadowedSearchesAgree(LibraryPackages(entries), NamedPackages(entries));
    SomethingIsBuilt(LibraryPackages(entries));
  }

  /** For whatever packages a directory holds, names shared or not: the two gates build in the same order
      and report the same cycles in the same sequence exactly when there is a package to build, none has
      the empty name, and no package that shares its name with a later one is built before that name is
      reached. */
  lemma GatesAgreeIff(entries: seq<Entry>)
    requires DistinctDirs(entries)
    ensures var packages := LibraryPackages(entries);
            GatesAgree(entries) <==> packages != [] && "" !in Names(packages) && NoShadowedRoot(packages)
  {
    var packages := LibraryPackages(entries);
    if "" in Names(packages) {
      EmptyNameDivides(entries);
    } else if n: nat :| n < |packages| && !NotShadowed(ByName(packages), packages, n) {
      ShadowedRootDivides(entries, n);
    } else if packages != [] {
      UnshadowedAgree(entries);
    }
  }

  /** Distinct names shadow nothing. */
  lemma DistinctNamesAreNotShadowed(packages: seq<Package>)
    requires DistinctNames(packages)
    ensures NoShadowedRoot(packages)
  {
    ByNameDistinct(packages);
    forall i | 0 <= i < |packages|
      ensures NotShadowed(ByName(packages), packages, i)
    {
      assert packages[i] in packages;
    }
  }

  /** For distinctly and non-emptily named packages the second search is the first, with packages replaced
      by their directories. */
  lemma NamedSearchesAgree(entries: seq<Entry>)
    requires DistinctNames(LibraryPackages(entries)) && "" !in Names(LibraryPackages(entries))
    ensures SearchOf(entries) == AsDirs(BuildOrderOf(LibraryPackages(entries)))
  {
    DistinctNamesAreNotShadowed(LibraryPackages(entries));
    SelectionsAgree(entries);
    UnshadowedSearchesAgree(LibraryPackages(entries), NamedPackages(entries));
  }

  /** Two directories with one package name and no dependencies divide the gates. */
  lemma SharedNameDivides(name: string, a: string, b: string)
    requires a != b
    ensures !GatesAgree([Entry(a, Some(name), true, []), Entry(b, Some(name), true, [])])
  {
    var entries := [Entry(a, Some(name), true, []), Entry(b, Some(name), true, [])];
    var packages := LibraryPackages(entries);
    assert entries[1..] == [entries[1]] && entries[1..][1..] == [];
    assert LibraryPackages(entries[1..]) == [PackageOf(entries[1])];
    assert packages == [PackageOf(entries[0])] + [PackageOf(entries[1])];
    assert packages[..|packages| - 1] == [packages[0]];
    assert ByName(packages)[name] == packages[1];
    assert !NotShadowed(ByName(packages), packages, 0);
    GatesAgreeIff(entries);
  }
}
