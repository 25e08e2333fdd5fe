/** The Phase 3 release gate's own `libraryBuildOrder`, keyed by name and returning directories. */
module Phase3BuildOrder {
  import opened Options
  import opened Text
  import opened BuildOrder
  import opened Library
  import opened Phase1BuildOrder
  import opened NamedSearch
  import opened GatesAgreement

  class NameSearch {
    const byName: map<string, Package>
    var state: map<string, Color>
    var order: seq<string>
    var problems: seq<Problem>
    ghost var trails: seq<seq<string>>

    constructor (packages: seq<Package>)
      ensures byName == ByName(packages)
      ensures Valid() && Variables() == Start()
    {
      byName := ByName(packages);
      state, order, problems, trails := map[], [], [], [];
    }

    ghost predicate Valid()
      reads this
    {
      Named(byName) && problems == Reports(trails)
    }

    ghost function Variables(): Search<string>
      reads this
    {
      Search(state, order, trails)
    }

    method Visit(name: string, trail: seq<string>)
      requires Valid()
      modifies this
      ensures Valid() && Variables() == VisitedName(byName, old(Variables()), name, trail)
      decreases byName.Keys - state.Keys
    {
      if name !in byName {
        return;
      }
      if name in state && state[name] == Built {
        return;
      }
      if name in state && state[name] == Visiting {
        problems := problems + [DependencyCycle(trail + [name])];
        trails := trails + [trail + [name]];
        return;
      }
      assert name in byName.Keys - state.Keys;
      state := state[name := Visiting];
      ghost var marked := Variables();
      assert byName.Keys - state.Keys < byName.Keys - old(state.Keys);
      var names := VisitOrder(byName[name]);
      var i := 0;
      while i < |names|
        invariant 0 <= i <= |names| && Valid()
        invariant marked.state.Keys <= state.Keys
        invariant VisitedNames(byName, Variables(), names[i..], trail + [name])
               == VisitedNames(byName, marked, names, trail + [name])
      {
        NamesFrom(byName, Variables(), names, i, trail + [name]);
        Visit(names[i], trail + [name]);
        i := i + 1;
      }
      state := state[name := Built];
      order := order + [byName[name].dir];
    }
  }

  /** The packages with their dependencies as this gate visits them. */
  function Resolved(packages: seq<Package>): (r: seq<Package>)
    ensures |r| == |packages| && forall i | 0 <= i < |r| :: SamePackage(r[i], packages[i])
  {
    if packages == [] then []
    else [Package(packages[0].name, packages[0].dir, VisitOrder(packages[0]))] + Resolved(packages[1..])
  }

  /** The packages are those of the entries with a non-empty name and a build script, in the entries'
      order. */
  lemma {:induction false} NamedPackagesSelected(entries: seq<Entry>)
    ensures Selects(Resolved(NamedPackages(entries)), entries, false)
  {
    if entries != [] {
      var entry, rest, all := entries[0], NamedPackages(entries[1..]), NamedPackages(entries);
      NamedPackagesSelected(entries[1..]);
      if IsLibrary(entry, false) {
        DependencyListsAgree(entry.declared);
        DependenciesSorted(entry.declared);
        assert all[1..] == rest && Resolved(all)[1..] == Resolved(rest);
      } else {
        assert all == rest;
      }
    }
  }

  ghost predicate SomeCycle(problems: seq<Problem>) {
    exists trail :: DependencyCycle(trail) in problems
  }

  lemma CycleReportedIff(entries: seq<Entry>)
    ensures SomeCycle(ProblemsOf(entries)) <==> SearchOf(entries).problems != []
    ensures NoLibraryPackage in ProblemsOf(entries) <==> SearchOf(entries).order == []
  {
    var trails := SearchOf(entries).problems;
    if trails != [] {
      assert Reports(trails)[0] in ProblemsOf(entries);
    }
  }

  lemma NamedSearchMeansOrder(entries: seq<Entry>)
    requires DistinctDirs(entries) && DistinctLibraryNames(entries, false)
    ensures OrderMeans(entries, false, SearchOf(entries).order, SomeCycle(ProblemsOf(entries)))
  {
    var named := NamedPackages(entries);
    var packages := Resolved(named);
    NamedPackagesSelected(entries);
    SelectedNamesDistinct(packages, entries, false);
    DistinctNamesAreNotShadowed(packages);
    UnshadowedSearchesAgree(packages, named);
    SearchMeansOrder(packages, entries, false);
    CycleReportedIff(entries);
  }

  lemma {:induction false} OrderGrows(known: map<string, Package>, s: Search<string>, names: seq<string>, trail: seq<string>)
    requires Named(known)
    ensures |s.order| <= |VisitedNames(known, s, names, trail).order|
    decreases known.Keys - s.state.Keys, |names|
  {
    if names != [] {
      var n := names[0];
      if n in known && n !in s.state {
        var marked := s.(state := s.state[n := Visiting]);
        assert n in known.Keys - s.state.Keys && n !in known.Keys - marked.state.Keys;
        OrderGrows(known, marked, VisitOrder(known[n]), trail + [n]);
      }
      OrderGrows(known, VisitedName(known, s, n, trail), names[1..], trail);
    }
  }

  /** Names shared or not, some directory is listed as soon as there is a package. */
  lemma SomethingListed(packages: seq<Package>)
    requires packages != []
    ensures VisitedNames(ByName(packages), Start(), Names(packages), []).order != []
  {
    var known, n := ByName(packages), Names(packages)[0];
    assert n in known;
    var first := VisitedName(known, Start(), n, []);
    assert |first.order| > 0;
    OrderGrows(known, first, Names(packages)[1..], []);
  }

  lemma NothingSelectedIff(entries: seq<Entry>)
    ensures NoLibraryPackage in ProblemsOf(entries) <==> forall e | e in entries :: !IsLibrary(e, false)
  {
    var named := NamedPackages(entries);
    var packages := Resolved(named);
    CycleReportedIff(entries);
    NamedPackagesSelected(entries);
    if named != [] {
      SomethingListed(named);
      var e := SelectedIsEntry(packages, entries, false, packages[0]);
    } else if e :| e in entries && IsLibrary(e, false) {
      var p := EntryIsSelected(packages, entries, false, e);
      assert false;
    }
  }

  method LibraryBuildOrder(entries: seq<Entry>) returns (order: seq<string>, problems: seq<Problem>)
    ensures order == SearchOf(entries).order
    ensures problems == ProblemsOf(entries)
    ensures DistinctDirs(entries) && DistinctLibraryNames(entries, false) ==> OrderMeans(entries, false, order, SomeCycle(problems))
    ensures NoLibraryPackage in problems <==> forall e | e in entries :: !IsLibrary(e, false)
  {
    var packages := NamedPackages(entries);
    var search := new NameSearch(packages);
    var names := Names(packages);
    var i := 0;
    while i < |names|
      invariant 0 <= i <= |names| && search.Valid()
      invariant VisitedNames(search.byName, search.Variables(), names[i..], []) == SearchOf(entries)
    {
      NamesFrom(search.byName, search.Variables(), names, i, []);
      search.Visit(names[i], []);
      i := i + 1;
    }
    order, problems := search.order, search.problems;
    if |order| == 0 {
      problems := problems + [NoLibraryPackage];
    }
    NothingSelectedIff(entries);
    if DistinctDirs(entries) && DistinctLibraryNames(entries, false) {
      NamedSearchMeansOrder(entries);
    }
  }
}
