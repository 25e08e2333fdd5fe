/** The library build order of the release gates: a three-colour depth-first search over the
    workspace packages, as the Phase 1 gate runs it, and what its result means for the graph. */
module BuildOrder {
  import opened Text

  datatype Package = Package(name: string, dir: string, deps: seq<string>)

  datatype Color = Visiting | Built

  /** The search's variables; a problem is the trail of names the cycle report prints. */
  datatype Search<T> = Search(state: map<string, Color>, order: seq<T>, problems: seq<seq<string>>)

  /** The package of each name; the last package of a name wins. */
  function ByName(packages: seq<Package>): (known: map<string, Package>)
    ensures Named(known)
    ensures forall n :: n in known <==> n in Names(packages)
  {
    if packages == [] then map[]
    else
      var last := packages[|packages| - 1];
      assert packages == packages[..|packages| - 1] + [last];
      NamesAppend(packages[..|packages| - 1], last);
      ByName(packages[..|packages| - 1])[last.name := last]
  }

  /** A name stands for the last package that has it. */
  lemma {:induction false} LastOfNameIsKnown(packages: seq<Package>, i: nat)
    requires i < |packages| && forall j | i < j < |packages| :: packages[j].name != packages[i].name
    ensures packages[i].name in ByName(packages) && ByName(packages)[packages[i].name] == packages[i]
  {
    if i < |packages| - 1 {
      LastOfNameIsKnown(packages[..|packages| - 1], i);
    }
  }

  ghost predicate Named(known: map<string, Package>) {
    forall n | n in known :: known[n].name == n
  }

  function Names(packages: seq<Package>): (names: seq<string>)
    ensures |names| == |packages|
    ensures forall i | 0 <= i < |names| :: names[i] == packages[i].name
  {
    if packages == [] then [] else [packages[0].name] + Names(packages[1..])
  }

  lemma NamesAppend(order: seq<Package>, pkg: Package)
    ensures Names(order + [pkg]) == Names(order) + [pkg.name]
  {
  }

  lemma NameInNames(packages: seq<Package>, pkg: Package)
    requires pkg in packages
    ensures pkg.name in Names(packages)
  {
    var i :| 0 <= i < |packages| && packages[i] == pkg;
    assert Names(packages)[i] == pkg.name;
  }

  // ---- the search as a function of its variables -----------------------------------------------

  function Visited(known: map<string, Package>, s: Search<Package>, pkg: Package, trail: seq<string>): (r: Search<Package>)
    requires Named(known) && pkg.name in known
    ensures s.state.Keys <= r.state.Keys
    decreases known.Keys - s.state.Keys, 0
  {
    if pkg.name in s.state then
      if s.state[pkg.name] == Built then s else s.(problems := s.problems + [trail + [pkg.name]])
    else
      var marked := s.(state := s.state[pkg.name := Visiting]);
      assert pkg.name in known.Keys - s.state.Keys && pkg.name !in known.Keys - marked.state.Keys;
      var walked := VisitedDeps(known, marked, pkg.deps, trail + [pkg.name]);
      Search(walked.state[pkg.name := Built], walked.order + [pkg], walked.problems)
  }

  function VisitedDeps(known: map<string, Package>, s: Search<Package>, deps: seq<string>, trail: seq<string>): (r: Search<Package>)
    requires Named(known)
    ensures s.state.Keys <= r.state.Keys
    decreases known.Keys - s.state.Keys, |deps|
  {
    if deps == [] then s
    else
      var next := if deps[0] in known then Visited(known, s, known[deps[0]], trail) else s;
      VisitedDeps(known, next, deps[1..], trail)
  }

  function VisitedAll(known: map<string, Package>, s: Search<Package>, packages: seq<Package>): Search<Package>
    requires Named(known)
    requires forall pkg | pkg in packages :: pkg.name in known
    decreases |packages|
  {
    if packages == [] then s
    else VisitedAll(known, Visited(known, s, packages[0], []), packages[1..])
  }

  function Start<T>(): Search<T> { Search(map[], [], []) }

  function BuildOrderOf(packages: seq<Package>): Search<Package> {
    assert forall pkg | pkg in packages :: pkg.name in ByName(packages) by {
      forall pkg | pkg in packages ensures pkg.name in ByName(packages) { NameInNames(packages, pkg); }
    }
    VisitedAll(ByName(packages), Start(), packages)
  }

  // ---- the graph -------------------------------------------------------------------------------

  /** `b` is a known dependency of the known package `a`. */
  predicate Edge(known: map<string, Package>, a: string, b: string) {
    a in known && b in known && b in known[a].deps
  }

  ghost predicate Walk(known: map<string, Package>, w: seq<string>) {
    forall i | 0 <= i < |w| - 1 :: Edge(known, w[i], w[i + 1])
  }

  ghost predicate Cycle(known: map<string, Package>, w: seq<string>) {
    |w| >= 2 && w[0] == w[|w| - 1] && Walk(known, w)
  }

  /** A report is a walk along dependency edges whose last name already stands on it. */
  ghost predicate CycleReport(known: map<string, Package>, p: seq<string>) {
    |p| >= 2 && Walk(known, p) && p[|p| - 1] in p[..|p| - 1]
  }

  ghost predicate DistinctNames(packages: seq<Package>) {
    Distinct(Names(packages))
  }

  /** Every known dependency of `order[i]` stands before it. */
  ghost predicate DepsBefore(known: map<string, Package>, order: seq<Package>, i: nat)
    requires i < |order|
  {
    forall dep | dep in order[i].deps && dep in known :: dep in Names(order[..i])
  }

  ghost predicate Topological(known: map<string, Package>, order: seq<Package>) {
    forall i | 0 <= i < |order| :: DepsBefore(known, order, i)
  }

  // ---- what the search keeps at every step -----------------------------------------------------

  /** The trail is duplicate-free, follows dependency edges, and is the set marked visiting. */
  ghost predicate TrailInv(known: map<string, Package>, s: Search<Package>, trail: seq<string>) {
    && s.state.Keys <= known.Keys
    && Distinct(trail)
    && Walk(known, trail)
    && (forall n :: n in trail <==> n in s.state && s.state[n] == Visiting)
  }

  /** The order lists exactly the built packages, each once. */
  ghost predicate OrderInv(known: map<string, Package>, s: Search<Package>) {
    && DistinctNames(s.order)
    && (forall p | p in s.order :: p.name in known && known[p.name] == p)
    && (forall n :: n in Names(s.order) <==> n in s.state && s.state[n] == Built)
  }

  ghost predicate ReportInv(known: map<string, Package>, s: Search<Package>) {
    && (forall p | p in s.problems :: CycleReport(known, p))
    && (s.problems == [] ==> Topological(known, s.order))
  }

  ghost predicate Inv(known: map<string, Package>, s: Search<Package>, trail: seq<string>) {
    TrailInv(known, s, trail) && OrderInv(known, s) && ReportInv(known, s)
  }

  /** A visit leaves every mark alone that was set before it, and finishes what it starts. */
  ghost predicate Extends(s: Search<Package>, r: Search<Package>) {
    && s.order <= r.order
    && s.problems <= r.problems
    && (forall n | n in s.state :: n in r.state && r.state[n] == s.state[n])
    && (forall n | n in r.state && n !in s.state :: r.state[n] == Built)
  }

  ghost predicate Done(r: Search<Package>, name: string) {
    name in r.state && (r.problems == [] ==> r.state[name] == Built)
  }

  lemma ExtendsTransitive(a: Search<Package>, b: Search<Package>, c: Search<Package>)
    requires Extends(a, b) && Extends(b, c)
    ensures Extends(a, c)
  {
  }

  lemma WalkAppend(known: map<string, Package>, w: seq<string>, n: string)
    requires Walk(known, w)
    requires w != [] ==> Edge(known, w[|w| - 1], n)
    ensures Walk(known, w + [n])
  {
  }

  lemma {:induction false} TopologicalAppend(known: map<string, Package>, order: seq<Package>, pkg: Package)
    requires Topological(known, order)
    requires forall dep | dep in pkg.deps && dep in known :: dep in Names(order)
    ensures Topological(known, order + [pkg])
  {
    var longer := order + [pkg];
    forall i | 0 <= i < |longer|
      ensures DepsBefore(known, longer, i)
    {
      assert longer[..i] == order[..i];
      if i < |order| {
        assert DepsBefore(known, order, i);
      } else {
        assert order[..i] == order;
      }
    }
  }

  /** Marking a package visiting and putting it on the trail keeps the invariant. */
  lemma MarkKeepsInv(known: map<string, Package>, s: Search<Package>, pkg: Package, trail: seq<string>)
    requires Inv(known, s, trail)
    requires pkg.name in known && pkg.name !in s.state
    requires trail != [] ==> Edge(known, trail[|trail| - 1], pkg.name)
    ensures Inv(known, s.(state := s.state[pkg.name := Visiting]), trail + [pkg.name])
  {
    WalkAppend(known, trail, pkg.name);
  }

  lemma PopTrail(known: map<string, Package>, walked: Search<Package>, name: string, trail: seq<string>)
    requires TrailInv(known, walked, trail + [name]) && name in known
    ensures TrailInv(known, walked.(state := walked.state[name := Built]), trail)
  {
    var long := trail + [name];
    assert long[|trail|] == name;
    assert Distinct(trail) && name !in trail by {
      assert forall i | 0 <= i < |trail| :: long[i] == trail[i] && long[i] != name;
    }
    assert Walk(known, trail) by {
      forall i | 0 <= i < |trail| - 1
        ensures Edge(known, trail[i], trail[i + 1])
      {
        assert Edge(known, long[i], long[i + 1]);
      }
    }
    forall n
      ensures n in trail <==> n in walked.state && n != name && walked.state[n] == Visiting
    {
      assert n in long <==> n in trail || n == name;
    }
  }

  lemma AppendOrder(known: map<string, Package>, walked: Search<Package>, pkg: Package)
    requires OrderInv(known, walked)
    requires pkg.name in known && known[pkg.name] == pkg
    requires pkg.name in walked.state && walked.state[pkg.name] == Visiting
    ensures OrderInv(known, Search(walked.state[pkg.name := Built], walked.order + [pkg], walked.problems))
  {
    NamesAppend(walked.order, pkg);
    assert pkg.name !in Names(walked.order);
  }

  /** Taking a package off the trail and appending it to the order keeps the invariant. */
  lemma FinishKeepsInv(known: map<string, Package>, walked: Search<Package>, pkg: Package, trail: seq<string>)
    requires Inv(known, walked, trail + [pkg.name])
    requires pkg.name in known && known[pkg.name] == pkg
    requires forall dep | dep in pkg.deps && dep in known :: Done(walked, dep)
    ensures Inv(known, Search(walked.state[pkg.name := Built], walked.order + [pkg], walked.problems), trail)
  {
    PopTrail(known, walked, pkg.name, trail);
    assert (trail + [pkg.name])[|trail|] == pkg.name;
    AppendOrder(known, walked, pkg);
    if walked.problems == [] {
      TopologicalAppend(known, walked.order, pkg);
    }
  }

  lemma {:induction false} VisitedKeepsInv(known: map<string, Package>, s: Search<Package>, pkg: Package, trail: seq<string>)
    requires Named(known) && Inv(known, s, trail)
    requires pkg.name in known && known[pkg.name] == pkg
    requires trail != [] ==> Edge(known, trail[|trail| - 1], pkg.name)
    ensures var r := Visited(known, s, pkg, trail);
            Inv(known, r, trail) && Extends(s, r) && Done(r, pkg.name)
    decreases known.Keys - s.state.Keys, 0
  {
    if pkg.name in s.state {
      if s.state[pkg.name] == Visiting {
        var report := trail + [pkg.name];
        WalkAppend(known, trail, pkg.name);
        assert report[..|report| - 1] == trail;
        assert CycleReport(known, report);
      }
    } else {
      var marked := s.(state := s.state[pkg.name := Visiting]);
      MarkKeepsInv(known, s, pkg, trail);
      var walked := VisitedDeps(known, marked, pkg.deps, trail + [pkg.name]);
      VisitedDepsKeepsInv(known, marked, pkg.deps, trail + [pkg.name]);
      FinishKeepsInv(known, walked, pkg, trail);
      FinishExtends(s, marked, walked, pkg);
    }
  }

  lemma FinishExtends(s: Search<Package>, marked: Search<Package>, walked: Search<Package>, pkg: Package)
    requires pkg.name !in s.state && marked == s.(state := s.state[pkg.name := Visiting])
    requires Extends(marked, walked)
    ensures Extends(s, Search(walked.state[pkg.name := Built], walked.order + [pkg], walked.problems))
  {
  }

  lemma {:induction false} VisitedDepsKeepsInv(known: map<string, Package>, s: Search<Package>, deps: seq<string>, trail: seq<string>)
    requires Named(known) && Inv(known, s, trail) && trail != []
    requires trail[|trail| - 1] in known
    requires forall dep | dep in deps :: dep in known[trail[|trail| - 1]].deps
    ensures var r := VisitedDeps(known, s, deps, trail);
            && Inv(known, r, trail) && Extends(s, r)
            && forall dep | dep in deps && dep in known :: Done(r, dep)
    decreases known.Keys - s.state.Keys, |deps|
  {
    if deps != [] {
      var next := s;
      assert deps[0] in deps;
      if deps[0] in known {
        next := Visited(known, s, known[deps[0]], trail);
        VisitedKeepsInv(known, s, known[deps[0]], trail);
      }
      assert forall dep | dep in deps[1..] :: dep in deps;
      VisitedDepsKeepsInv(known, next, deps[1..], trail);
      ExtendsTransitive(s, next, VisitedDeps(known, next, deps[1..], trail));
    }
  }

  lemma {:induction false} VisitedAllKeepsInv(known: map<string, Package>, s: Search<Package>, packages: seq<Package>)
    requires Named(known) && Inv(known, s, [])
    requires forall pkg | pkg in packages :: pkg.name in known && known[pkg.name] == pkg
    ensures var r := VisitedAll(known, s, packages);
            && Inv(known, r, []) && Extends(s, r)
            && forall pkg | pkg in packages :: Done(r, pkg.name)
    decreases |packages|
  {
    if packages != [] {
      assert packages[0] in packages && forall pkg | pkg in packages[1..] :: pkg in packages;
      var next := Visited(known, s, packages[0], []);
      VisitedKeepsInv(known, s, packages[0], []);
      VisitedAllKeepsInv(known, next, packages[1..]);
      ExtendsTransitive(s, next, VisitedAll(known, next, packages[1..]));
    }
  }

  lemma ByNameDistinct(packages: seq<Package>)
    requires DistinctNames(packages)
    ensures forall pkg | pkg in packages :: pkg.name in ByName(packages) && ByName(packages)[pkg.name] == pkg
  {
    forall pkg | pkg in packages
      ensures pkg.name in ByName(packages) && ByName(packages)[pkg.name] == pkg
    {
      var i :| 0 <= i < |packages| && packages[i] == pkg;
      assert forall j | i < j < |packages| :: Names(packages)[j] != Names(packages)[i];
      LastOfNameIsKnown(packages, i);
    }
  }

  /** The search leaves no package unvisited and no name on the trail. */
  lemma SearchEnds(packages: seq<Package>)
    requires DistinctNames(packages)
    ensures var known, r := ByName(packages), BuildOrderOf(packages);
            && Inv(known, r, []) && forall n | n in known :: n in Names(r.order)
  {
    var known, r := ByName(packages), BuildOrderOf(packages);
    ByNameDistinct(packages);
    VisitedAllKeepsInv(known, Start(), packages);
    forall n | n in known
      ensures n in Names(r.order)
    {
      var i :| 0 <= i < |packages| && Names(packages)[i] == n;
      assert Done(r, packages[i].name);
    }
  }

  lemma DistinctNamesDistinct(packages: seq<Package>)
    requires DistinctNames(packages)
    ensures Distinct(packages)
  {
    assert forall i | 0 <= i < |packages| :: Names(packages)[i] == packages[i].name;
  }

  /** Two lists that hold each known name once are permutations of each other. */
  lemma SamePackages(known: map<string, Package>, packages: seq<Package>, order: seq<Package>)
    requires AllPlaced(known, packages) && AllPlaced(known, order)
    ensures multiset(order) == multiset(packages) && |order| == |packages|
  {
    DistinctNamesDistinct(packages);
    DistinctNamesDistinct(order);
    forall pkg
      ensures pkg in order <==> pkg in packages
    {
      if pkg in packages {
        PlacedIsListed(known, order, pkg);
      }
      if pkg in order {
        PlacedIsListed(known, packages, pkg);
      }
    }
    DistinctSameMembers(order, packages);
  }

  lemma PlacedIsListed(known: map<string, Package>, order: seq<Package>, pkg: Package)
    requires AllPlaced(known, order) && pkg.name in known && known[pkg.name] == pkg
    ensures pkg in order
  {
    var i :| 0 <= i < |order| && Names(order)[i] == pkg.name;
    assert order[i] in order && order[i] == known[pkg.name];
  }

  /** With or without cycles, the order lists every package exactly once. */
  lemma OrderListsEveryPackageOnce(packages: seq<Package>)
    requires DistinctNames(packages)
    ensures multiset(BuildOrderOf(packages).order) == multiset(packages)
    ensures |BuildOrderOf(packages).order| == |packages|
  {
    var known, r := ByName(packages), BuildOrderOf(packages);
    SearchEnds(packages);
    ByNameDistinct(packages);
    SamePackages(known, packages, r.order);
  }

  /** Every report is a genuine walk along dependency edges back to a name already on it. */
  lemma ReportsAreGenuine(packages: seq<Package>)
    requires DistinctNames(packages)
    ensures forall p | p in BuildOrderOf(packages).problems :: CycleReport(ByName(packages), p)
  {
    SearchEnds(packages);
  }

  ghost function Position(order: seq<Package>, n: string): nat
    requires n in Names(order)
  {
    var i :| 0 <= i < |order| && Names(order)[i] == n;
    i
  }

  ghost predicate AllPlaced(known: map<string, Package>, order: seq<Package>) {
    && DistinctNames(order)
    && (forall p | p in order :: p.name in known && known[p.name] == p)
    && (forall n | n in known :: n in Names(order))
  }

  lemma OnePosition(order: seq<Package>, k: nat, j: nat)
    requires DistinctNames(order) && k < |order| && j < |order| && order[k].name == order[j].name
    ensures k == j
  {
    assert Names(order)[k] == Names(order)[j];
  }

  lemma EdgeDescends(known: map<string, Package>, order: seq<Package>, a: string, b: string)
    requires AllPlaced(known, order) && Topological(known, order) && Edge(known, a, b)
    ensures Position(order, b) < Position(order, a)
  {
    var i, j := Position(order, a), Position(order, b);
    assert DepsBefore(known, order, i);
    assert order[i] in order && order[i] == known[a];
    var k :| 0 <= k < i && Names(order[..i])[k] == b;
    OnePosition(order, k, j);
  }

  lemma {:induction false} WalkDescends(known: map<string, Package>, order: seq<Package>, w: seq<string>, k: nat)
    requires AllPlaced(known, order) && Topological(known, order) && Walk(known, w) && 0 < k < |w|
    ensures w[0] in known && w[k] in known
    ensures Position(order, w[k]) < Position(order, w[0])
  {
    assert Edge(known, w[k - 1], w[k - 1 + 1]);
    EdgeDescends(known, order, w[k - 1], w[k]);
    if k > 1 {
      WalkDescends(known, order, w, k - 1);
    }
  }

  lemma ReportHoldsCycle(known: map<string, Package>, p: seq<string>) returns (w: seq<string>)
    requires CycleReport(known, p)
    ensures Cycle(known, w)
  {
    var i :| 0 <= i < |p| - 1 && p[i] == p[|p| - 1];
    w := p[i..];
    forall k | 0 <= k < |w| - 1
      ensures Edge(known, w[k], w[k + 1])
    {
      assert Edge(known, p[i + k], p[i + k + 1]);
    }
  }

  /** A problem is reported exactly when the known packages depend on each other in a cycle. */
  lemma ReportsIffCycle(packages: seq<Package>)
    requires DistinctNames(packages)
    ensures BuildOrderOf(packages).problems != [] <==> exists w :: Cycle(ByName(packages), w)
  {
    var known, r := ByName(packages), BuildOrderOf(packages);
    SearchEnds(packages);
    if r.problems != [] {
      assert r.problems[0] in r.problems;
      var w := ReportHoldsCycle(known, r.problems[0]);
    } else if w :| Cycle(known, w) {
      WalkDescends(known, r.order, w, |w| - 1);
      assert false;
    }
  }

  /** When nothing is reported, every known dependency is built strictly before what needs it. */
  lemma NoReportMeansDependenciesFirst(packages: seq<Package>, a: string, b: string)
    requires DistinctNames(packages) && BuildOrderOf(packages).problems == []
    requires Edge(ByName(packages), a, b)
    ensures var order := BuildOrderOf(packages).order;
            a in Names(order) && b in Names(order) && Position(order, b) < Position(order, a)
  {
    SearchEnds(packages);
    EdgeDescends(ByName(packages), BuildOrderOf(packages).order, a, b);
  }
}
