/** The build order without the search: every package's dependencies written out before it, again and
    again, and only the first mention of each kept. */
module UnfoldedOrder {
  import opened Text
  import opened BuildOrder

  /** Every package ranks above what it depends on. */
  ghost predicate Ranked(known: map<string, Package>, rank: map<string, nat>) {
    && known.Keys <= rank.Keys
    && forall a, b | Edge(known, a, b) :: rank[b] < rank[a]
  }

  /** What has to be built for one package, itself last, nothing remembered. */
  ghost function Unfolded(known: map<string, Package>, rank: map<string, nat>, n: string): seq<string>
    requires Ranked(known, rank) && n in known
    decreases rank[n], 1, 0
  {
    assert forall d | d in known[n].deps && d in known :: Edge(known, n, d);
    UnfoldedAll(known, rank, rank[n], known[n].deps) + [n]
  }

  ghost function UnfoldedAll(known: map<string, Package>, rank: map<string, nat>, bound: nat, names: seq<string>): seq<string>
    requires Ranked(known, rank) && forall d | d in names && d in known :: rank[d] < bound
    decreases bound, 0, |names|
  {
    if names == [] then []
    else (if names[0] in known then Unfolded(known, rank, names[0]) else []) + UnfoldedAll(known, rank, bound, names[1..])
  }

  /** `acc`, then each of `xs` at its first mention. */
  function Onto(acc: seq<string>, xs: seq<string>): seq<string>
    decreases |xs|
  {
    if xs == [] then acc
    else Onto(if xs[0] in acc then acc else acc + [xs[0]], xs[1..])
  }

  lemma {:induction false} OntoAppend(acc: seq<string>, xs: seq<string>, ys: seq<string>)
    ensures Onto(acc, xs + ys) == Onto(Onto(acc, xs), ys)
    decreases |xs|
  {
    if xs == [] {
      assert xs + ys == ys;
    } else {
      assert (xs + ys)[1..] == xs[1..] + ys;
      OntoAppend(if xs[0] in acc then acc else acc + [xs[0]], xs[1..], ys);
    }
  }

  lemma {:induction false} OntoMembers(acc: seq<string>, xs: seq<string>, x: string)
    ensures x in Onto(acc, xs) <==> x in acc || x in xs
    decreases |xs|
  {
    if xs != [] {
      assert x in xs <==> x == xs[0] || x in xs[1..];
      OntoMembers(if xs[0] in acc then acc else acc + [xs[0]], xs[1..], x);
    }
  }

  lemma {:induction false} OntoNothingNew(acc: seq<string>, xs: seq<string>)
    requires forall x | x in xs :: x in acc
    ensures Onto(acc, xs) == acc
    decreases |xs|
  {
    if xs != [] {
      assert xs[0] in xs && forall x | x in xs[1..] :: x in xs;
      OntoNothingNew(acc, xs[1..]);
    }
  }

  // ---- the search unfolds ----------------------------------------------------------------------

  /** What a built package unfolds to is built, and only what is built is listed. */
  ghost predicate Settled(known: map<string, Package>, rank: map<string, nat>, s: Search<Package>)
    requires Ranked(known, rank)
  {
    && (forall m | m in s.state :: m in known)
    && (forall m | m in Names(s.order) :: m in s.state && s.state[m] == Built)
    && (forall m, x | m in s.state && s.state[m] == Built && x in Unfolded(known, rank, m) :: x in Names(s.order))
  }

  /** What is being visited ranks at or above `bound`. */
  ghost predicate OpenAbove(rank: map<string, nat>, s: Search<Package>, bound: nat) {
    forall m | m in s.state && s.state[m] == Visiting :: m in rank && rank[m] >= bound
  }

  ghost predicate SameOpen(s: Search<Package>, r: Search<Package>) {
    forall m :: m in s.state && s.state[m] == Visiting <==> m in r.state && r.state[m] == Visiting
  }

  lemma {:induction false} VisitUnfolds(known: map<string, Package>, rank: map<string, nat>, s: Search<Package>, n: string, trail: seq<string>)
    requires Named(known) && Ranked(known, rank) && n in known
    requires Settled(known, rank, s) && OpenAbove(rank, s, rank[n] + 1)
    ensures var r := Visited(known, s, known[n], trail);
            Settled(known, rank, r) && SameOpen(s, r) && Names(r.order) == Onto(Names(s.order), Unfolded(known, rank, n))
    decreases known.Keys - s.state.Keys, 0
  {
    if n in s.state {
      OntoNothingNew(Names(s.order), Unfolded(known, rank, n));
    } else {
      var marked := s.(state := s.state[n := Visiting]);
      assert n in known.Keys - s.state.Keys && n !in known.Keys - marked.state.Keys;
      assert forall d | d in known[n].deps && d in known :: Edge(known, n, d);
      VisitsUnfold(known, rank, marked, rank[n], known[n].deps, trail + [n]);
      var walked := VisitedDeps(known, marked, known[n].deps, trail + [n]);
      FinishUnfolds(known, rank, s, walked, n);
    }
  }

  lemma FinishUnfolds(known: map<string, Package>, rank: map<string, nat>, s: Search<Package>, walked: Search<Package>, n: string)
    requires Named(known) && Ranked(known, rank) && n in known && n !in s.state
    requires Settled(known, rank, walked) && SameOpen(s.(state := s.state[n := Visiting]), walked)
    requires forall d | d in known[n].deps && d in known :: rank[d] < rank[n]
    requires Names(walked.order) == Onto(Names(s.order), UnfoldedAll(known, rank, rank[n], known[n].deps))
    ensures var r := Search(walked.state[n := Built], walked.order + [known[n]], walked.problems);
            Settled(known, rank, r) && SameOpen(s, r) && Names(r.order) == Onto(Names(s.order), Unfolded(known, rank, n))
  {
    var before, deps := Names(s.order), UnfoldedAll(known, rank, rank[n], known[n].deps);
    var r := Search(walked.state[n := Built], walked.order + [known[n]], walked.problems);
    NamesAppend(walked.order, known[n]);
    assert s.(state := s.state[n := Visiting]).state[n] == Visiting;
    assert n !in Names(walked.order);
    OntoAppend(before, deps, [n]);
    assert Onto(Names(walked.order), [n]) == Names(walked.order) + [n];
    forall x | x in Unfolded(known, rank, n)
      ensures x in Names(r.order)
    {
      OntoMembers(before, deps + [n], x);
    }
  }

  lemma {:induction false} VisitsUnfold(known: map<string, Package>, rank: map<string, nat>, s: Search<Package>, bound: nat, deps: seq<string>, trail: seq<string>)
    requires Named(known) && Ranked(known, rank) && forall d | d in deps && d in known :: rank[d] < bound
    requires Settled(known, rank, s) && OpenAbove(rank, s, bound)
    ensures var r := VisitedDeps(known, s, deps, trail);
            Settled(known, rank, r) && SameOpen(s, r) && Names(r.order) == Onto(Names(s.order), UnfoldedAll(known, rank, bound, deps))
    decreases known.Keys - s.state.Keys, |deps|
  {
    if deps != [] {
      var next, first := s, [];
      if deps[0] in known {
        VisitUnfolds(known, rank, s, deps[0], trail);
        next, first := Visited(known, s, known[deps[0]], trail), Unfolded(known, rank, deps[0]);
      }
      assert forall d | d in deps[1..] :: d in deps;
      VisitsUnfold(known, rank, next, bound, deps[1..], trail);
      OntoAppend(Names(s.order), first, UnfoldedAll(known, rank, bound, deps[1..]));
    }
  }

  lemma {:induction false} RootsUnfold(known: map<string, Package>, rank: map<string, nat>, s: Search<Package>, bound: nat, packages: seq<Package>)
    requires Named(known) && Ranked(known, rank)
    requires forall p | p in packages :: p.name in known && known[p.name] == p
    requires forall n | n in known :: rank[n] < bound
    requires Settled(known, rank, s) && forall n | n in s.state :: s.state[n] == Built
    ensures Names(VisitedAll(known, s, packages).order) == Onto(Names(s.order), UnfoldedAll(known, rank, bound, Names(packages)))
    decreases |packages|
  {
    if packages != [] {
      var n := packages[0].name;
      assert packages[0] in packages && forall p | p in packages[1..] :: p in packages;
      VisitUnfolds(known, rank, s, n, []);
      var next := Visited(known, s, packages[0], []);
      forall m | m in next.state
        ensures next.state[m] == Built
      {
      }
      RootsUnfold(known, rank, next, bound, packages[1..]);
      assert Names(packages)[0] == n && Names(packages)[1..] == Names(packages[1..]);
      OntoAppend(Names(s.order), Unfolded(known, rank, n), UnfoldedAll(known, rank, bound, Names(packages[1..])));
    }
  }

  /** However the names are ranked, the order is what the packages unfold to, in their own order and with
      each package's dependencies in theirs, every name kept where it is first mentioned. */
  lemma OrderIsUnfolding(packages: seq<Package>, rank: map<string, nat>, bound: nat)
    requires DistinctNames(packages) && Ranked(ByName(packages), rank)
    requires forall n | n in ByName(packages) :: rank[n] < bound
    ensures Names(BuildOrderOf(packages).order) == Onto([], UnfoldedAll(ByName(packages), rank, bound, Names(packages)))
  {
    ByNameDistinct(packages);
    RootsUnfold(ByName(packages), rank, Start(), bound, packages);
  }

  // ---- when the packages can be ranked ---------------------------------------------------------

  lemma {:induction false} RankDescends(known: map<string, Package>, rank: map<string, nat>, w: seq<string>, k: nat)
    requires Ranked(known, rank) && Walk(known, w) && 0 < k < |w|
    ensures w[0] in rank && w[k] in rank && rank[w[k]] < rank[w[0]]
  {
    assert Edge(known, w[k - 1], w[k - 1 + 1]);
    if k > 1 {
      RankDescends(known, rank, w, k - 1);
    }
  }

  /** Nothing is reported exactly when the packages can be ranked, so that the unfolding ends. */
  lemma NoReportIffRanked(packages: seq<Package>)
    requires DistinctNames(packages)
    ensures BuildOrderOf(packages).problems == [] <==> exists rank: map<string, nat> :: Ranked(ByName(packages), rank)
  {
    var known, order := ByName(packages), BuildOrderOf(packages).order;
    ReportsIffCycle(packages);
    SearchEnds(packages);
    if BuildOrderOf(packages).problems == [] {
      var rank: map<string, nat> := map n | n in known :: Position(order, n);
      forall a, b | Edge(known, a, b)
        ensures rank[b] < rank[a]
      {
        EdgeDescends(known, order, a, b);
      }
      assert Ranked(known, rank);
    } else if rank: map<string, nat> :| Ranked(known, rank) {
      var w :| Cycle(known, w);
      RankDescends(known, rank, w, |w| - 1);
      assert false;
    }
  }
}
