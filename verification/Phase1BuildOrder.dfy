/** `libraryPackages` and `libraryBuildOrder` of the Phase 1 release gate. */
module Phase1BuildOrder {
  import opened Options
  import opened Text
  import opened BuildOrder
  import opened Library

  const SCOPE := "@daftar/"

  /** The first occurrence of each element, in order. */
  function Dedup(xs: seq<string>): (r: seq<string>)
    ensures Distinct(r)
    ensures forall x :: x in r <==> x in xs
  {
    if xs == [] then []
    else
      var front, last := xs[..|xs| - 1], xs[|xs| - 1];
      assert xs == front + [last];
      if last in front then Dedup(front) else Dedup(front) + [last]
  }

  /** The dependencies in the workspace's own scope, in order. */
  function InScope(xs: seq<string>): (r: seq<string>)
    ensures forall x :: x in r <==> x in xs && SCOPE <= x
  {
    if xs == [] then []
    else
      var front, last := xs[..|xs| - 1], xs[|xs| - 1];
      assert xs == front + [last];
      InScope(front) + if SCOPE <= last then [last] else []
  }

  /** The entries arrive in the order the gate's `localeCompare` sort gives them. */
  function LibraryPackages(entries: seq<Entry>): seq<Package> {
    if entries == [] then []
    else
      var entry := entries[0];
      (if entry.name.Some? && entry.build
       then [Package(entry.name.value, entry.dir, Sort(InScope(Dedup(entry.declared))))] else [])
      + LibraryPackages(entries[1..])
  }

  lemma DependenciesSorted(declared: seq<string>)
    ensures StrictlySorted(Sort(InScope(Dedup(declared))))
    ensures forall d :: d in Sort(InScope(Dedup(declared))) <==> d in declared && "@daftar/" <= d
  {
    InScopeDistinct(Dedup(declared));
    SortDistinct(InScope(Dedup(declared)));
    SortSorts(InScope(Dedup(declared)));
  }

  lemma {:induction false} InScopeDistinct(xs: seq<string>)
    requires Distinct(xs)
    ensures Distinct(InScope(xs))
  {
    if xs != [] {
      var front, last := xs[..|xs| - 1], xs[|xs| - 1];
      InScopeDistinct(front);
      assert last !in InScope(front);
    }
  }

  /** The packages are those of the entries with a name and a build script, in the entries' order. */
  lemma {:induction false} PackagesSelected(entries: seq<Entry>)
    ensures Selects(LibraryPackages(entries), entries, true)
  {
    if entries != [] {
      var entry, rest, all := entries[0], LibraryPackages(entries[1..]), LibraryPackages(entries);
      PackagesSelected(entries[1..]);
      if IsLibrary(entry, true) {
        DependenciesSorted(entry.declared);
        assert all[1..] == rest;
      } else {
        assert all == rest;
      }
    }
  }

  class LibrarySearch {
    const byName: map<string, Package>
    var state: map<string, Color>
    var order: seq<Package>
    var problems: seq<seq<string>>

    constructor (packages: seq<Package>)
      ensures byName == ByName(packages)
      ensures Variables() == Start()
    {
      byName := ByName(packages);
      state, order, problems := map[], [], [];
    }

    ghost function Variables(): Search<Package>
      reads this
    {
      Search(state, order, problems)
    }

    method Visit(pkg: Package, trail: seq<string>)
      requires Named(byName) && pkg.name in byName
      modifies this
      ensures Variables() == Visited(byName, old(Variables()), pkg, trail)
      decreases byName.Keys - state.Keys
    {
      if pkg.name in state && state[pkg.name] == Built {
        return;
      }
      if pkg.name in state && state[pkg.name] == Visiting {
        problems := problems + [trail + [pkg.name]];
        return;
      }
      assert pkg.name in byName.Keys - state.Keys;
      state := state[pkg.name := Visiting];
      ghost var marked := Variables();
      assert byName.Keys - state.Keys < byName.Keys - old(state.Keys);
      var i := 0;
      while i < |pkg.deps|
        invariant 0 <= i <= |pkg.deps|
        invariant marked.state.Keys <= state.Keys
        invariant VisitedDeps(byName, Variables(), pkg.deps[i..], trail + [pkg.name])
               == VisitedDeps(byName, marked, pkg.deps, trail + [pkg.name])
      {
        var dep := pkg.deps[i];
        assert pkg.deps[i..][0] == dep && pkg.deps[i..][1..] == pkg.deps[i + 1..];
        if dep in byName {
          Visit(byName[dep], trail + [pkg.name]);
        }
        i := i + 1;
      }
      state := state[pkg.name := Built];
      order := order + [pkg];
    }
  }

  method LibraryBuildOrder(entries: seq<Entry>) returns (order: seq<Package>, problems: seq<seq<string>>)
    ensures order == BuildOrderOf(LibraryPackages(entries)).order
    ensures problems == BuildOrderOf(LibraryPackages(entries)).problems
    ensures DistinctDirs(entries) && DistinctLibraryNames(entries, true) ==> OrderMeans(entries, true, Dirs(order), problems != [])
  {
    var packages := LibraryPackages(entries);
    var search := new LibrarySearch(packages);
    var i := 0;
    while i < |packages|
      invariant 0 <= i <= |packages|
      invariant forall pkg | pkg in packages[i..] :: pkg.name in search.byName
      invariant VisitedAll(search.byName, search.Variables(), packages[i..]) == BuildOrderOf(packages)
    {
      assert packages[i..][0] == packages[i] && packages[i..][1..] == packages[i + 1..];
      search.Visit(packages[i], []);
      i := i + 1;
    }
    order, problems := search.order, search.problems;
    PackagesSelected(entries);
    if DistinctDirs(entries) && DistinctLibraryNames(entries, true) {
      SearchMeansOrder(packages, entries, true);
    }
  }
}
