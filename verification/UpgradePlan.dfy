/** Case H's plan: a database carried from one accepted head to the next. */
module UpgradePlan {
  import opened Options
  import opened Text

  datatype Step = Step(slice: string, through: Option<string>, expected: seq<string>)

  datatype Problem =
    | BaseMissing(base: string)
    | HeadMissing(slice: string, head: string)
    | NotAfterBase(slice: string, head: string)
    | Backwards(slice: string, head: string, previous: string)

  datatype Plan = Plan(base: seq<string>, steps: seq<Step>, problems: seq<Problem>)

  const LATER := "every later migration"

  /** The files up to and including the bound. */
  function UpTo(xs: seq<string>, bound: string): seq<string> {
    if xs == [] then [] else (if AtMost(xs[0], bound) then [xs[0]] else []) + UpTo(xs[1..], bound)
  }

  /** The files after one boundary, up to and including the next. */
  function Between(xs: seq<string>, from: string, bound: string): seq<string> {
    if xs == [] then [] else (if Less(from, xs[0]) && AtMost(xs[0], bound) then [xs[0]] else []) + Between(xs[1..], from, bound)
  }

  /** The files after the boundary. */
  function After(xs: seq<string>, from: string): seq<string> {
    if xs == [] then [] else (if Less(from, xs[0]) then [xs[0]] else []) + After(xs[1..], from)
  }

  /** The later of the two boundaries. */
  function Further(previous: string, head: string): string {
    if Less(previous, head) then head else previous
  }

  function HeadProblems(sorted: seq<string>, base: string, previous: string, slice: string, head: string): seq<Problem> {
    (if head !in sorted then [HeadMissing(slice, head)] else [])
    + (if AtMost(head, base) then [NotAfterBase(slice, head)] else [])
    + (if Less(head, previous) then [Backwards(slice, head, previous)] else [])
  }

  function PlanSteps(sorted: seq<string>, previous: string, heads: seq<(string, string)>): seq<Step>
    decreases |heads|
  {
    if heads == [] then [Step(LATER, None, After(sorted, previous))]
    else
      var (slice, head) := heads[0];
      [Step(slice, Some(head), Between(sorted, previous, head))] + PlanSteps(sorted, Further(previous, head), heads[1..])
  }

  function PlanProblems(sorted: seq<string>, base: string, previous: string, heads: seq<(string, string)>): seq<Problem>
    decreases |heads|
  {
    if heads == [] then []
    else
      var (slice, head) := heads[0];
      HeadProblems(sorted, base, previous, slice, head) + PlanProblems(sorted, base, Further(previous, head), heads[1..])
  }

  function SliceUpgradePlan(files: seq<string>, base: string, heads: seq<(string, string)>): Plan {
    var sorted := Sort(files);
    Plan(UpTo(sorted, base),
         PlanSteps(sorted, base, heads),
         (if base !in sorted then [BaseMissing(base)] else []) + PlanProblems(sorted, base, base, heads))
  }

  lemma NextPlanProblems(found: seq<Problem>, sorted: seq<string>, base: string, previous: string, heads: seq<(string, string)>, i: nat)
    requires i < |heads|
    ensures found + PlanProblems(sorted, base, previous, heads[i..])
         == (found + HeadProblems(sorted, base, previous, heads[i].0, heads[i].1))
            + PlanProblems(sorted, base, Further(previous, heads[i].1), heads[i + 1..])
  {
    assert heads[i..][0] == heads[i] && heads[i..][1..] == heads[i + 1..];
    Reassociate(found, HeadProblems(sorted, base, previous, heads[i].0, heads[i].1),
                PlanProblems(sorted, base, Further(previous, heads[i].1), heads[i + 1..]));
  }

  lemma NextPlanStep(made: seq<Step>, sorted: seq<string>, previous: string, heads: seq<(string, string)>, i: nat)
    requires i < |heads|
    ensures made + PlanSteps(sorted, previous, heads[i..])
         == (made + [Step(heads[i].0, Some(heads[i].1), Between(sorted, previous, heads[i].1))])
            + PlanSteps(sorted, Further(previous, heads[i].1), heads[i + 1..])
  {
    assert heads[i..][0] == heads[i] && heads[i..][1..] == heads[i + 1..];
    Reassociate(made, [Step(heads[i].0, Some(heads[i].1), Between(sorted, previous, heads[i].1))],
                PlanSteps(sorted, Further(previous, heads[i].1), heads[i + 1..]));
  }

  method MakePlan(files: seq<string>, base: string, heads: seq<(string, string)>) returns (plan: Plan)
    ensures plan == SliceUpgradePlan(files, base, heads)
  {
    var sorted := Sort(files);
    var problems := [];
    if base !in sorted {
      problems := [BaseMissing(base)];
    }
    ghost var found := problems;
    var steps := [];
    var previous := base;
    for i := 0 to |heads|
      invariant problems + PlanProblems(sorted, base, previous, heads[i..]) == found + PlanProblems(sorted, base, base, heads)
      invariant steps + PlanSteps(sorted, previous, heads[i..]) == PlanSteps(sorted, base, heads)
    {
      var (slice, head) := heads[i];
      NextPlanProblems(problems, sorted, base, previous, heads, i);
      NextPlanStep(steps, sorted, previous, heads, i);
      problems := CheckHead(sorted, base, previous, slice, head, problems);
      steps := steps + [Step(slice, Some(head), Between(sorted, previous, head))];
      if Less(previous, head) {
        previous := head;
      }
    }
    steps := steps + [Step(LATER, None, After(sorted, previous))];
    plan := Plan(UpTo(sorted, base), steps, problems);
  }

  method CheckHead(sorted: seq<string>, base: string, previous: string, slice: string, head: string, found: seq<Problem>)
      returns (problems: seq<Problem>)
    ensures problems == found + HeadProblems(sorted, base, previous, slice, head)
  {
    problems := found;
    if head !in sorted {
      problems := problems + [HeadMissing(slice, head)];
    }
    if AtMost(head, base) {
      problems := problems + [NotAfterBase(slice, head)];
    }
    if Less(head, previous) {
      problems := problems + [Backwards(slice, head, previous)];
    }
  }

  // ---- what the plan says --------------------------------------------------------------------------

  /** The boundary the walk has come to before head `i`: the furthest of the base and the heads before. */
  ghost predicate BoundaryAt(base: string, heads: seq<(string, string)>, i: nat, boundary: string)
    requires i <= |heads|
  {
    && (boundary == base || exists j :: 0 <= j < i && heads[j].1 == boundary)
    && AtMost(base, boundary) && forall j | 0 <= j < i :: AtMost(heads[j].1, boundary)
  }

  lemma OneBoundary(base: string, heads: seq<(string, string)>, i: nat, a: string, b: string)
    requires i <= |heads| && BoundaryAt(base, heads, i, a) && BoundaryAt(base, heads, i, b)
    ensures a == b
  {
    AtMostTotal(a, b);
  }

  lemma NextBoundary(base: string, heads: seq<(string, string)>, i: nat, boundary: string)
    requires i < |heads| && BoundaryAt(base, heads, i, boundary)
    ensures BoundaryAt(base, heads, i + 1, Further(boundary, heads[i].1))
  {
    var next := Further(boundary, heads[i].1);
    AtMostTotal(heads[i].1, boundary);
    AtMostTransitive(base, boundary, next);
    forall j | 0 <= j < i + 1
      ensures AtMost(heads[j].1, next)
    {
      if j < i {
        AtMostTransitive(heads[j].1, boundary, next);
      }
    }
    if boundary != base {
      var j :| 0 <= j < i && heads[j].1 == boundary;
    }
  }

  /** The strictly sorted files after one boundary, up to and including another if there is one. */
  ghost predicate FilesBetween(files: seq<string>, from: string, through: Option<string>, expected: seq<string>) {
    StrictlySorted(expected) && forall f :: f in expected <==> f in files && Less(from, f) && (through.None? || AtMost(f, through.value))
  }

  lemma {:induction false} BetweenIs(xs: seq<string>, from: string, bound: string)
    requires StrictlySorted(xs)
    ensures FilesBetween(xs, from, Some(bound), Between(xs, from, bound)) && FilesBetween(xs, from, None, After(xs, from))
  {
    if xs != [] {
      BetweenIs(xs[1..], from, bound);
      assert xs == [xs[0]] + xs[1..];
      HeadKeepsSorted(xs, Between(xs[1..], from, bound));
      HeadKeepsSorted(xs, After(xs[1..], from));
    }
  }

  lemma HeadKeepsSorted(xs: seq<string>, rest: seq<string>)
    requires StrictlySorted(xs) && xs != [] && StrictlySorted(rest) && forall f | f in rest :: f in xs[1..]
    ensures StrictlySorted([xs[0]] + rest) && [] + rest == rest
  {
    forall i | 0 <= i < |rest|
      ensures Less(xs[0], rest[i])
    {
      assert rest[i] in xs[1..];
    }
  }

  /** Step `i` of the plan, for distinct files: it is called after its slice, goes through its head, and
      expects exactly the files after the boundary so far and up to that head, in name order; the last
      step goes through to every later file. */
  ghost predicate StepMeans(files: seq<string>, base: string, heads: seq<(string, string)>, i: nat, step: Step)
    requires i <= |heads|
  {
    && (step.slice == if i < |heads| then heads[i].0 else "every later migration")
    && (step.through == if i < |heads| then Some(heads[i].1) else None)
    && exists boundary :: BoundaryAt(base, heads, i, boundary) && FilesBetween(files, boundary, step.through, step.expected)
  }

  lemma FirstStepMeans(sorted: seq<string>, base: string, previous: string, heads: seq<(string, string)>, i: nat)
    requires StrictlySorted(sorted) && i <= |heads| && BoundaryAt(base, heads, i, previous)
    ensures |PlanSteps(sorted, previous, heads[i..])| > 0
    ensures StepMeans(sorted, base, heads, i, PlanSteps(sorted, previous, heads[i..])[0])
  {
    BetweenIs(sorted, previous, if i < |heads| then heads[i].1 else "");
    var step := PlanSteps(sorted, previous, heads[i..])[0];
    assert i < |heads| ==> heads[i..][0] == heads[i];
    assert FilesBetween(sorted, previous, step.through, step.expected);
  }

  lemma LaterSteps(sorted: seq<string>, previous: string, heads: seq<(string, string)>, from: nat)
    requires from < |heads|
    ensures var later := PlanSteps(sorted, Further(previous, heads[from].1), heads[from + 1..]);
            var all := PlanSteps(sorted, previous, heads[from..]);
            |all| == |later| + 1 && forall k | 0 < k < |all| :: all[k] == later[k - 1]
  {
    assert heads[from..][0] == heads[from] && heads[from..][1..] == heads[from + 1..];
  }

  lemma {:induction false} StepsMean(sorted: seq<string>, base: string, previous: string, heads: seq<(string, string)>, from: nat, i: nat)
    requires StrictlySorted(sorted) && from <= i <= |heads| && BoundaryAt(base, heads, from, previous)
    ensures |PlanSteps(sorted, previous, heads[from..])| == |heads| - from + 1
    ensures StepMeans(sorted, base, heads, i, PlanSteps(sorted, previous, heads[from..])[i - from])
    decreases |heads| - from
  {
    FirstStepMeans(sorted, base, previous, heads, from);
    if from < |heads| {
      NextBoundary(base, heads, from, previous);
      LaterSteps(sorted, previous, heads, from);
      StepsMean(sorted, base, Further(previous, heads[from].1), heads, from + 1, if i > from then i else from + 1);
    }
  }

  lemma PlanMeans(files: seq<string>, base: string, heads: seq<(string, string)>)
    requires Distinct(files)
    ensures var plan := SliceUpgradePlan(files, base, heads);
            && |plan.steps| == |heads| + 1
            && forall i | 0 <= i <= |heads| :: StepMeans(files, base, heads, i, plan.steps[i])
  {
    var sorted := Sort(files);
    SortDistinct(files);
    SortSorts(files);
    assert heads[0..] == heads;
    StepsMean(sorted, base, base, heads, 0, 0);
    forall i | 0 <= i <= |heads|
      ensures StepMeans(files, base, heads, i, SliceUpgradePlan(files, base, heads).steps[i])
    {
      StepsMean(sorted, base, base, heads, 0, i);
      var step := SliceUpgradePlan(files, base, heads).steps[i];
      var boundary :| BoundaryAt(base, heads, i, boundary) && FilesBetween(sorted, boundary, step.through, step.expected);
      assert FilesBetween(files, boundary, step.through, step.expected);
    }
  }

  /** When each problem is due: of the base, or of head `i` against the boundary it comes to. */
  ghost predicate HeadDue(files: seq<string>, base: string, heads: seq<(string, string)>, i: nat, problem: Problem)
    requires i < |heads|
  {
    match problem
    case HeadMissing(slice, head) => heads[i] == (slice, head) && head !in files
    case NotAfterBase(slice, head) => heads[i] == (slice, head) && AtMost(head, base)
    case Backwards(slice, head, previous) => heads[i] == (slice, head) && Less(head, previous) && BoundaryAt(base, heads, i, previous)
    case BaseMissing(_) => false
  }

  lemma HeadReportedIff(sorted: seq<string>, files: seq<string>, base: string, previous: string, heads: seq<(string, string)>, i: nat, problem: Problem)
    requires i < |heads| && BoundaryAt(base, heads, i, previous) && forall f :: f in sorted <==> f in files
    ensures problem in HeadProblems(sorted, base, previous, heads[i].0, heads[i].1) <==> HeadDue(files, base, heads, i, problem)
  {
    if problem.Backwards? && BoundaryAt(base, heads, i, problem.previous) {
      OneBoundary(base, heads, i, previous, problem.previous);
    }
  }

  lemma {:induction false} HeadsReportedIff(sorted: seq<string>, files: seq<string>, base: string, previous: string, heads: seq<(string, string)>, from: nat, problem: Problem)
    requires from <= |heads| && BoundaryAt(base, heads, from, previous) && forall f :: f in sorted <==> f in files
    ensures problem in PlanProblems(sorted, base, previous, heads[from..])
       <==> exists i :: from <= i < |heads| && HeadDue(files, base, heads, i, problem)
    decreases |heads| - from
  {
    if from < |heads| {
      assert heads[from..][0] == heads[from] && heads[from..][1..] == heads[from + 1..];
      NextBoundary(base, heads, from, previous);
      HeadReportedIff(sorted, files, base, previous, heads, from, problem);
      HeadsReportedIff(sorted, files, base, Further(previous, heads[from].1), heads, from + 1, problem);
    }
  }

  lemma ReportedIffDue(files: seq<string>, base: string, heads: seq<(string, string)>, problem: Problem)
    ensures problem in SliceUpgradePlan(files, base, heads).problems
       <==> if problem.BaseMissing? then problem.base == base && base !in files
            else exists i :: 0 <= i < |heads| && HeadDue(files, base, heads, i, problem)
  {
    SortSorts(files);
    assert heads[0..] == heads;
    HeadsReportedIff(Sort(files), files, base, base, heads, 0, problem);
  }

  // ---- nothing is lost or applied twice ---------------------------------------------------------

  function Expected(steps: seq<Step>): seq<string> {
    if steps == [] then [] else steps[0].expected + Expected(steps[1..])
  }

  lemma {:induction false} NoneUpTo(xs: seq<string>, bound: string)
    requires forall f | f in xs :: Less(bound, f)
    ensures UpTo(xs, bound) == []
  {
    if xs != [] {
      assert xs[0] in xs && forall f | f in xs[1..] :: f in xs;
      AtMostTotal(xs[0], bound);
      NoneUpTo(xs[1..], bound);
    }
  }

  lemma {:induction false} AllBetween(xs: seq<string>, from: string, bound: string)
    requires forall f | f in xs :: Less(from, f)
    ensures Between(xs, from, bound) == UpTo(xs, Further(from, bound))
    ensures After(xs, from) == xs
  {
    if xs != [] {
      assert xs[0] in xs && forall f | f in xs[1..] :: f in xs;
      AllBetween(xs[1..], from, bound);
      AtMostTotal(xs[0], from);
      AtMostTotal(xs[0], bound);
      AtMostTotal(bound, from);
      if AtMost(bound, from) && AtMost(xs[0], bound) {
        AtMostTransitive(xs[0], bound, from);
      }
    }
  }

  lemma SortedAfter(xs: seq<string>, from: string)
    requires Sorted(xs) && xs != [] && Less(from, xs[0])
    ensures forall f | f in xs :: Less(from, f)
  {
    forall f | f in xs
      ensures Less(from, f)
    {
      var i :| 0 <= i < |xs| && xs[i] == f;
      assert i > 0 ==> AtMost(Self(xs[0]), Self(xs[i]));
      AtMostTransitive(from, xs[0], f);
    }
  }

  lemma SortedTail(xs: seq<string>)
    requires Sorted(xs) && xs != []
    ensures Sorted(xs[1..])
  {
  }

  lemma BeforeFrom(x: string, from: string, bound: string)
    requires AtMost(x, from)
    ensures !Less(from, x) && AtMost(x, Further(from, bound))
  {
    AtMostTotal(x, from);
    if Less(from, bound) {
      AtMostTransitive(x, from, bound);
    }
  }

  lemma SplitHead(xs: seq<string>, from: string, bound: string)
    requires xs != [] && AtMost(xs[0], from)
    ensures UpTo(xs, from) == [xs[0]] + UpTo(xs[1..], from)
    ensures Between(xs, from, bound) == Between(xs[1..], from, bound)
    ensures After(xs, from) == After(xs[1..], from)
    ensures UpTo(xs, Further(from, bound)) == [xs[0]] + UpTo(xs[1..], Further(from, bound))
  {
    BeforeFrom(xs[0], from, bound);
  }

  /** The files up to one boundary followed by those up to the next are the files up to the further. */
  lemma {:induction false} UpToThenBetween(xs: seq<string>, from: string, bound: string)
    requires Sorted(xs)
    ensures UpTo(xs, from) + Between(xs, from, bound) == UpTo(xs, Further(from, bound))
  {
    if xs != [] {
      if AtMost(xs[0], from) {
        SortedTail(xs);
        UpToThenBetween(xs[1..], from, bound);
        SplitHead(xs, from, bound);
        Reassociate([xs[0]], UpTo(xs[1..], from), Between(xs[1..], from, bound));
      } else {
        AtMostTotal(xs[0], from);
        LaterThenBetween(xs, from, bound);
      }
    }
  }

  lemma LaterThenBetween(xs: seq<string>, from: string, bound: string)
    requires Sorted(xs) && xs != [] && Less(from, xs[0])
    ensures UpTo(xs, from) + Between(xs, from, bound) == UpTo(xs, Further(from, bound))
  {
    SortedAfter(xs, from);
    NoneUpTo(xs, from);
    AllBetween(xs, from, bound);
  }

  lemma LaterThenAfter(xs: seq<string>, from: string)
    requires Sorted(xs) && xs != [] && Less(from, xs[0])
    ensures UpTo(xs, from) + After(xs, from) == xs
  {
    SortedAfter(xs, from);
    NoneUpTo(xs, from);
    AllBetween(xs, from, from);
  }

  lemma {:induction false} UpToThenAfter(xs: seq<string>, from: string)
    requires Sorted(xs)
    ensures UpTo(xs, from) + After(xs, from) == xs
  {
    if xs != [] {
      AtMostTotal(xs[0], from);
      if AtMost(xs[0], from) {
        SortedTail(xs);
        UpToThenAfter(xs[1..], from);
        SplitHead(xs, from, from);
        Reassociate([xs[0]], UpTo(xs[1..], from), After(xs[1..], from));
      } else {
        LaterThenAfter(xs, from);
      }
    }
  }

  lemma ExpectedOfPlan(sorted: seq<string>, previous: string, heads: seq<(string, string)>)
    ensures Expected(PlanSteps(sorted, previous, heads))
         == if heads == [] then After(sorted, previous)
            else Between(sorted, previous, heads[0].1) + Expected(PlanSteps(sorted, Further(previous, heads[0].1), heads[1..]))
  {
    if heads == [] {
      assert PlanSteps(sorted, previous, heads)[1..] == [];
    } else {
      assert PlanSteps(sorted, previous, heads)[1..] == PlanSteps(sorted, Further(previous, heads[0].1), heads[1..]);
    }
  }

  lemma {:induction false} StepsCover(sorted: seq<string>, previous: string, heads: seq<(string, string)>)
    requires Sorted(sorted)
    ensures UpTo(sorted, previous) + Expected(PlanSteps(sorted, previous, heads)) == sorted
    decreases |heads|
  {
    ExpectedOfPlan(sorted, previous, heads);
    if heads == [] {
      UpToThenAfter(sorted, previous);
    } else {
      var head := heads[0].1;
      UpToThenBetween(sorted, previous, head);
      StepsCover(sorted, Further(previous, head), heads[1..]);
      Reassociate(UpTo(sorted, previous), Between(sorted, previous, head), Expected(PlanSteps(sorted, Further(previous, head), heads[1..])));
    }
  }

  /** Whatever the files, the base and the heads, good or bad, the base followed by every step is the
      sorted list of files: no migration is skipped and none is planned twice. */
  lemma PlanCoversEveryFile(files: seq<string>, base: string, heads: seq<(string, string)>)
    ensures var plan := SliceUpgradePlan(files, base, heads); plan.base + Expected(plan.steps) == Sort(files)
  {
    SortSorts(files);
    StepsCover(Sort(files), base, heads);
  }

  /** The plan has no problem exactly when the base and every head are files, and the heads come after
      the base without going backwards. */
  lemma NoProblemIffHeadsAscend(files: seq<string>, base: string, heads: seq<(string, string)>)
    ensures SliceUpgradePlan(files, base, heads).problems == [] <==>
            && base in files
            && (forall i | 0 <= i < |heads| :: heads[i].1 in files && Less(base, heads[i].1))
            && (forall i | 0 < i < |heads| :: AtMost(heads[i - 1].1, heads[i].1))
  {
    SortSorts(files);
    HeadsAscend(Sort(files), base, base, heads);
  }

  lemma {:induction false} HeadsAscend(sorted: seq<string>, base: string, previous: string, heads: seq<(string, string)>)
    requires AtMost(base, previous)
    ensures PlanProblems(sorted, base, previous, heads) == [] <==>
            && (forall i | 0 <= i < |heads| :: heads[i].1 in sorted && Less(base, heads[i].1))
            && (heads != [] ==> AtMost(previous, heads[0].1))
            && (forall i | 0 < i < |heads| :: AtMost(heads[i - 1].1, heads[i].1))
    decreases |heads|
  {
    if heads != [] {
      var head, rest := heads[0].1, heads[1..];
      AtMostTotal(head, base);
      AtMostTotal(previous, head);
      AtMostTotal(head, previous);
      AtMostTransitiveIf(base, previous, head);
      HeadsAscend(sorted, base, Further(previous, head), rest);
      assert forall i | 0 <= i < |rest| :: rest[i] == heads[i + 1];
      if PlanProblems(sorted, base, previous, heads) == [] {
        forall i | 0 <= i < |heads|
          ensures heads[i].1 in sorted && Less(base, heads[i].1)
        {
          assert i > 0 ==> heads[i] == rest[i - 1];
        }
        forall i | 0 < i < |heads|
          ensures AtMost(heads[i - 1].1, heads[i].1)
        {
          if i > 1 {
            assert rest[i - 2] == heads[i - 1] && rest[i - 1] == heads[i];
          }
        }
      }
    }
  }

  lemma AtMostTransitiveIf(a: string, b: string, c: string)
    ensures AtMost(a, b) && AtMost(b, c) ==> AtMost(a, c)
  {
    if AtMost(a, b) && AtMost(b, c) {
      AtMostTransitive(a, b, c);
    }
  }
}
