/** The search of the Phase 3 release gate's own `libraryBuildOrder`, keyed by name and returning
    directories, and its agreement with the Phase 1 gate's visit by visit. */
module NamedSearch {
  import opened Options
  import opened Text
  import opened BuildOrder
  import opened Library
  import opened Phase1BuildOrder

  datatype Problem = DependencyCycle(trail: seq<string>) | NoLibraryPackage

  /** This gate keeps the declared order in the package and sorts at the visit. */
  function NamedPackages(entries: seq<Entry>): seq<Package> {
    if entries == [] then []
    else
      var entry := entries[0];
      var name := if entry.name.Some? then entry.name.value else "";
      (if name != "" && entry.build then [Package(name, entry.dir, InScope(entry.declared))] else [])
      + NamedPackages(entries[1..])
  }

  function VisitOrder(pkg: Package): seq<string> { Sort(Dedup(pkg.deps)) }

  function VisitedName(known: map<string, Package>, s: Search<string>, name: string, trail: seq<string>): (r: Search<string>)
    requires Named(known)
    ensures s.state.Keys <= r.state.Keys
    decreases known.Keys - s.state.Keys, 0
  {
    if name !in known then s
    else if name in s.state then
      if s.state[name] == Built then s else s.(problems := s.problems + [trail + [name]])
    else
      var marked := s.(state := s.state[name := Visiting]);
      assert name in known.Keys - s.state.Keys && name !in known.Keys - marked.state.Keys;
      var walked := VisitedNames(known, marked, VisitOrder(known[name]), trail + [name]);
      Search(walked.state[name := Built], walked.order + [known[name].dir], walked.problems)
  }

  function VisitedNames(known: map<string, Package>, s: Search<string>, names: seq<string>, trail: seq<string>): (r: Search<string>)
    requires Named(known)
    ensures s.state.Keys <= r.state.Keys
    decreases known.Keys - s.state.Keys, |names|
  {
    if names == [] then s
    else VisitedNames(known, VisitedName(known, s, names[0], trail), names[1..], trail)
  }

  lemma NamesFrom(known: map<string, Package>, s: Search<string>, names: seq<string>, i: nat, trail: seq<string>)
    requires Named(known) && i < |names|
    ensures VisitedNames(known, s, names[i..], trail) == VisitedNames(known, VisitedName(known, s, names[i], trail), names[i + 1..], trail)
  {
    assert names[i..][0] == names[i] && names[i..][1..] == names[i + 1..];
  }

  function Reports(trails: seq<seq<string>>): (r: seq<Problem>)
    ensures |r| == |trails|
    ensures forall i | 0 <= i < |r| :: r[i] == DependencyCycle(trails[i])
  {
    if trails == [] then [] else [DependencyCycle(trails[0])] + Reports(trails[1..])
  }

  function SearchOf(entries: seq<Entry>): Search<string> {
    var packages := NamedPackages(entries);
    VisitedNames(ByName(packages), Start(), Names(packages), [])
  }

  function ProblemsOf(entries: seq<Entry>): seq<Problem> {
    var s := SearchOf(entries);
    Reports(s.problems) + if |s.order| == 0 then [NoLibraryPackage] else []
  }

  // ---- agreement -------------------------------------------------------------------------------

  function AsDirs(s: Search<Package>): Search<string> {
    Search(s.state, Dirs(s.order), s.problems)
  }

  /** The two gates read the same packages; only where the dependencies are sorted differs. */
  ghost predicate SamePackage(p: Package, q: Package) {
    p.name == q.name && p.dir == q.dir && p.deps == VisitOrder(q)
  }

  ghost predicate SameGraph(known: map<string, Package>, named: map<string, Package>) {
    && Named(known) && Named(named)
    && known.Keys == named.Keys
    && forall n | n in known :: SamePackage(known[n], named[n])
  }

  /** Scoping then deduplicating, and deduplicating then scoping, sort to the same names. */
  lemma DependencyListsAgree(declared: seq<string>)
    ensures Sort(InScope(Dedup(declared))) == Sort(Dedup(InScope(declared)))
  {
    var a, b := InScope(Dedup(declared)), Dedup(InScope(declared));
    InScopeDistinct(Dedup(declared));
    SortDistinct(b);
    SortSorts(b);
    SortToStrict(a, Sort(b));
  }

  lemma {:induction false} VisitsAgree(known: map<string, Package>, named: map<string, Package>, s: Search<Package>, name: string, trail: seq<string>)
    requires SameGraph(known, named) && name in known
    ensures AsDirs(Visited(known, s, known[name], trail)) == VisitedName(named, AsDirs(s), name, trail)
    decreases known.Keys - s.state.Keys, 0
  {
    assert SamePackage(known[name], named[name]);
    if name !in s.state {
      var marked := s.(state := s.state[name := Visiting]);
      assert name in known.Keys - s.state.Keys && name !in known.Keys - marked.state.Keys;
      VisitListsAgree(known, named, marked, known[name].deps, trail + [name]);
      var walked := VisitedDeps(known, marked, known[name].deps, trail + [name]);
      assert Dirs(walked.order + [known[name]]) == Dirs(walked.order) + [known[name].dir];
    }
  }

  lemma {:induction false} VisitListsAgree(known: map<string, Package>, named: map<string, Package>, s: Search<Package>, deps: seq<string>, trail: seq<string>)
    requires SameGraph(known, named)
    ensures AsDirs(VisitedDeps(known, s, deps, trail)) == VisitedNames(named, AsDirs(s), deps, trail)
    decreases known.Keys - s.state.Keys, |deps|
  {
    if deps != [] {
      var next := s;
      if deps[0] in known {
        VisitsAgree(known, named, s, deps[0], trail);
        next := Visited(known, s, known[deps[0]], trail);
      }
      VisitListsAgree(known, named, next, deps[1..], trail);
    }
  }

  lemma {:induction false} SelectionsAgree(entries: seq<Entry>)
    requires "" !in Names(LibraryPackages(entries))
    ensures var p, q := LibraryPackages(entries), NamedPackages(entries);
            |p| == |q| && forall i | 0 <= i < |p| :: SamePackage(p[i], q[i])
  {
    if entries != [] {
      var entry := entries[0];
      var rest := LibraryPackages(entries[1..]);
      var all := LibraryPackages(entries);
      if entry.name.Some? && entry.build {
        assert all[1..] == rest;
        assert Names(all)[0] == entry.name.value;
        assert Names(all) == [entry.name.value] + Names(rest);
        DependencyListsAgree(entry.declared);
      } else {
        assert all == rest;
      }
      SelectionsAgree(entries[1..]);
    }
  }

  lemma {:induction false} GraphsAgree(p: seq<Package>, q: seq<Package>)
    requires |p| == |q| && forall i | 0 <= i < |p| :: SamePackage(p[i], q[i])
    ensures SameGraph(ByName(p), ByName(q))
  {
    if p != [] {
      GraphsAgree(p[..|p| - 1], q[..|q| - 1]);
    }
  }

  ghost predicate GatesAgree(entries: seq<Entry>) {
    var phase1 := BuildOrderOf(LibraryPackages(entries));
    SearchOf(entries).order == Dirs(phase1.order) && ProblemsOf(entries) == Reports(phase1.problems)
  }
}
