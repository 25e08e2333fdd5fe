/** The merge-train check: each named branch's head here against its head on origin. */
module TrainHeads {
  import opened Options

  datatype Verdict = Same | LocalBehind | LocalAhead | Diverged | UnknownOriginObject | AbsentOnOrigin | AbsentLocally

  datatype Failure = NotFullName(side: string, sha: string) | OriginUnreadable(branch: string)
  datatype Result<+T> = Ok(value: T) | Err(failure: Failure)

  /** "Is a an ancestor of b", or none when an object is missing. */
  type Ancestry = (string, string) -> Option<bool>

  predicate IsHex(c: char) { '0' <= c <= '9' || 'a' <= c <= 'f' }

  predicate FullName(sha: string) {
    (|sha| == 40 || |sha| == 64) && forall c | c in sha :: IsHex(c)
  }

  function Classify(local: Option<string>, origin: Option<string>, isAncestor: Ancestry): Result<Verdict> {
    if origin.None? then Ok(AbsentOnOrigin)
    else if local.None? then Ok(AbsentLocally)
    else if !FullName(local.value) then Err(NotFullName("local head", local.value))
    else if !FullName(origin.value) then Err(NotFullName("origin head", origin.value))
    else if local == origin then Ok(Same)
    else
      var localIsBehind := isAncestor(local.value, origin.value);
      if localIsBehind.None? then Ok(UnknownOriginObject)
      else if localIsBehind.value then Ok(LocalBehind)
      else
        var originIsBehind := isAncestor(origin.value, local.value);
        if originIsBehind.None? then Ok(UnknownOriginObject)
        else Ok(if originIsBehind.value then LocalAhead else Diverged)
  }

  // ---- the whole train ---------------------------------------------------------------------------

  datatype Row = Row(branch: string, local: Option<string>, origin: Option<string>, verdict: Verdict)

  /** Where the heads are read from. Reading origin can fail. */
  datatype Heads = Heads(local: string -> Option<string>, origin: string -> Result<Option<string>>, isAncestor: Ancestry)

  function RowOf(branch: string, heads: Heads): Result<Row> {
    match heads.origin(branch)
    case Err(e) => Err(e)
    case Ok(origin) =>
      match Classify(heads.local(branch), origin, heads.isAncestor)
      case Err(e) => Err(e)
      case Ok(verdict) => Ok(Row(branch, heads.local(branch), origin, verdict))
  }

  /** One row a branch, in order, or the first failure. */
  function CheckBranches(branches: seq<string>, heads: Heads): Result<seq<Row>> {
    if branches == [] then Ok([])
    else
      match RowOf(branches[0], heads)
      case Err(e) => Err(e)
      case Ok(row) =>
        match CheckBranches(branches[1..], heads)
        case Err(e) => Err(e)
        case Ok(rows) => Ok([row] + rows)
  }

  /** What a row says of its branch: both heads as they were read, and their verdict. */
  ghost predicate RowMeans(branch: string, heads: Heads, row: Row) {
    && row.branch == branch && row.local == heads.local(branch) && heads.origin(branch) == Ok(row.origin)
    && Classify(row.local, row.origin, heads.isAncestor) == Ok(row.verdict)
  }

  /** Why a branch has no row: its origin could not be read, or one of its names is malformed. */
  ghost predicate FailureMeans(branch: string, heads: Heads, failure: Failure) {
    match heads.origin(branch)
    case Err(e) => failure == e
    case Ok(origin) => Classify(heads.local(branch), origin, heads.isAncestor) == Err(failure)
  }

  /** The rows are the branches', in order; without them, some branch has failed and all before it have
      not, and its failure is the one given. */
  lemma {:induction false} RowsAreTheBranches(branches: seq<string>, heads: Heads)
    ensures match CheckBranches(branches, heads)
            case Ok(rows) => |rows| == |branches| && forall i | 0 <= i < |rows| :: RowMeans(branches[i], heads, rows[i])
            case Err(failure) => exists k :: 0 <= k < |branches| && FailsFirst(branches, heads, k, failure)
  {
    if branches != [] {
      RowsAreTheBranches(branches[1..], heads);
      match RowOf(branches[0], heads)
      case Err(e) =>
        assert FailsFirst(branches, heads, 0, e);
      case Ok(row) =>
        match CheckBranches(branches[1..], heads)
        case Ok(rows) =>
          assert RowMeans(branches[0], heads, row);
          assert forall i | 1 <= i < |branches| :: branches[i] == branches[1..][i - 1];
        case Err(failure) =>
          var k :| 0 <= k < |branches[1..]| && FailsFirst(branches[1..], heads, k, failure);
          assert forall i | 1 <= i < |branches| :: branches[i] == branches[1..][i - 1];
          assert FailsFirst(branches, heads, k + 1, failure);
    }
  }

  ghost predicate FailsFirst(branches: seq<string>, heads: Heads, k: nat, failure: Failure)
    requires k < |branches|
  {
    FailureMeans(branches[k], heads, failure) && forall j | 0 <= j < k :: RowOf(branches[j], heads).Ok?
  }

  function Bad(rows: seq<Row>): seq<Row> {
    if rows == [] then []
    else (if rows[0].verdict != Same then [rows[0]] else []) + Bad(rows[1..])
  }

  predicate IsOption(arg: string) { arg != "" && arg[0] == '-' }

  function UnknownOptions(argv: seq<string>): seq<string> {
    if argv == [] then [] else (if IsOption(argv[0]) then [argv[0]] else []) + UnknownOptions(argv[1..])
  }

  /** The exit status of `check:train-heads`. */
  method CheckTrain(argv: seq<string>, heads: Heads) returns (status: int)
    ensures status == 0 || status == 1
    ensures status == 0 <==> "--self-test" in argv || TrainAgrees(argv, heads)
  {
    if "--self-test" in argv {
      var problems := SelfTest();
      return if problems != [] then 1 else 0;
    }
    NoOptionIff(argv);
    if UnknownOptions(argv) != [] {
      return 1;
    }
    if argv == [] {
      return 1;
    }
    var rows := CheckBranches(argv, heads);
    if rows.Err? {
      AllSameIff(argv, heads);
      return 1;
    }
    AllSameIff(argv, heads);
    if Bad(rows.value) != [] {
      return 1;
    }
    return 0;
  }

  /** Both heads of the branch were read, under full names, and are the same object. */
  predicate Identical(branch: string, heads: Heads) {
    var origin := heads.origin(branch);
    && origin.Ok? && origin.value.Some? && heads.local(branch) == origin.value
    && var sha := origin.value.value; (|sha| == 40 || |sha| == 64) && forall c | c in sha :: '0' <= c <= '9' || 'a' <= c <= 'f'
  }

  /** A passing train: not empty, no unknown option, every pair identical. */
  predicate TrainAgrees(argv: seq<string>, heads: Heads) {
    argv != [] && forall branch | branch in argv :: !("-" <= branch) && Identical(branch, heads)
  }

  lemma {:induction false} NoOptionIff(argv: seq<string>)
    ensures UnknownOptions(argv) == [] <==> forall arg | arg in argv :: !IsOption(arg)
  {
    if argv != [] {
      NoOptionIff(argv[1..]);
      assert argv == [argv[0]] + argv[1..];
    }
  }

  lemma SameIffIdentical(branch: string, heads: Heads)
    ensures RowOf(branch, heads).Ok? && RowOf(branch, heads).value.verdict == Same <==> Identical(branch, heads)
  {
  }

  lemma {:induction false} AllSameIff(branches: seq<string>, heads: Heads)
    ensures var rows := CheckBranches(branches, heads);
            rows.Ok? && Bad(rows.value) == [] <==> forall branch | branch in branches :: Identical(branch, heads)
  {
    if branches != [] {
      AllSameIff(branches[1..], heads);
      SameIffIdentical(branches[0], heads);
      assert branches == [branches[0]] + branches[1..];
      var first, later := RowOf(branches[0], heads), CheckBranches(branches[1..], heads);
      if first.Ok? && later.Ok? {
        assert ([first.value] + later.value)[1..] == later.value;
      }
    }
  }

  // ---- the comparator's own controls -------------------------------------------------------------

  function Repeat(c: char, n: nat): string { seq(n, _ => c) }

  lemma RepeatIsFull(head: string, c: char, n: nat)
    requires |head| + n == 40 && IsHex(c) && forall d | d in head :: IsHex(d)
    ensures FullName(head + Repeat(c, n))
  {
  }

  /** The controls `--self-test` runs; all ten hold. */
  method SelfTest() returns (problems: seq<string>)
    ensures problems == []
  {
    var a, b := Repeat('a', 40), Repeat('b', 40);
    var p1, p2 := "1234567" + Repeat('a', 33), "1234567" + Repeat('b', 33);
    ControlNames(a, b, p1, p2);
    var anc := (x, y) => Some(x == y || (y == b && x == a));
    problems := [];
    if Classify(Some(a), Some(a), anc) != Ok(Same) { problems := problems + ["identical pair is same"]; }
    if Classify(Some(a), Some(b), anc) == Ok(Same) { problems := problems + ["different pair is not same"]; }
    if Classify(Some(p1), Some(p2), anc) == Ok(Same) { problems := problems + ["same prefix is NOT same"]; }
    if Classify(Some(a), Some(b), anc) != Ok(LocalBehind) { problems := problems + ["local ancestor is local-behind"]; }
    if Classify(Some(b), Some(a), anc) != Ok(LocalAhead) { problems := problems + ["origin ancestor is local-ahead"]; }
    if Classify(Some(p1), Some(p2), anc) != Ok(Diverged) { problems := problems + ["neither ancestor is diverged"]; }
    if Classify(Some(a), Some(b), (x, y) => None) != Ok(UnknownOriginObject) { problems := problems + ["missing object is unknown"]; }
    if Classify(Some(a), None, anc) != Ok(AbsentOnOrigin) { problems := problems + ["absent on origin"]; }
    if Classify(None, Some(a), anc) != Ok(AbsentLocally) { problems := problems + ["absent locally"]; }
    if !Classify(Some("abc1234"), Some("abc12345"), anc).Err? { problems := problems + ["abbreviated names are rejected"]; }
  }

  lemma ControlNames(a: string, b: string, p1: string, p2: string)
    requires a == Repeat('a', 40) && b == Repeat('b', 40)
    requires p1 == "1234567" + Repeat('a', 33) && p2 == "1234567" + Repeat('b', 33)
    ensures FullName(a) && FullName(b) && FullName(p1) && FullName(p2)
    ensures a != b && p1 != p2 && p1 != a && p1 != b && p2 != a && p2 != b
  {
    RepeatIsFull("", 'a', 40);
    RepeatIsFull("", 'b', 40);
    RepeatIsFull("1234567", 'a', 33);
    RepeatIsFull("1234567", 'b', 33);
    assert a == "" + a && b == "" + b;
    assert a[0] == 'a' && b[0] == 'b' && p1[0] == '1' && p2[0] == '1' && p1[7] == 'a' && p2[7] == 'b';
  }

  // ---- commit graphs -----------------------------------------------------------------------------

  /** The commits at hand, each with its parents. */
  type Graph = map<string, seq<string>>

  ghost predicate Path(g: Graph, p: seq<string>) {
    && p != []
    && (forall i | 0 <= i < |p| :: p[i] in g)
    && forall i | 0 <= i < |p| - 1 :: p[i + 1] in g[p[i]]
  }

  ghost predicate PathBetween(g: Graph, p: seq<string>, from: string, to: string) {
    Path(g, p) && p[0] == from && p[|p| - 1] == to
  }

  /** `to` is `from` or one of its ancestors. */
  ghost predicate Reaches(g: Graph, from: string, to: string) {
    exists p :: PathBetween(g, p, from, to)
  }

  ghost predicate Acyclic(g: Graph) {
    forall p | Path(g, p) && |p| > 1 :: p[0] != p[|p| - 1]
  }

  /** `git merge-base --is-ancestor` on this graph. */
  ghost function AncestryIn(g: Graph): Ancestry {
    (a, b) => if a in g && b in g then Some(Reaches(g, b, a)) else None
  }

  /** A commit and everything before it. */
  ghost function HistoryOf(g: Graph, head: string): set<string> {
    set c | c in g && Reaches(g, head, c)
  }

  lemma ReachesItself(g: Graph, a: string)
    requires a in g
    ensures Reaches(g, a, a)
  {
    assert PathBetween(g, [a], a, a);
  }

  lemma PathsChain(g: Graph, p: seq<string>, q: seq<string>, a: string, b: string, c: string)
    requires PathBetween(g, p, a, b) && PathBetween(g, q, b, c)
    ensures PathBetween(g, p + q[1..], a, c)
  {
    var r := p + q[1..];
    forall i | 0 <= i < |r| - 1
      ensures r[i + 1] in g[r[i]]
    {
      if i >= |p| - 1 {
        assert r[i + 1] == q[i + 2 - |p|] && r[i] == q[i + 1 - |p|];
      }
    }
  }

  lemma ReachesTransitive(g: Graph, a: string, b: string, c: string)
    requires Reaches(g, a, b) && Reaches(g, b, c)
    ensures Reaches(g, a, c)
  {
    var p :| PathBetween(g, p, a, b);
    var q :| PathBetween(g, q, b, c);
    PathsChain(g, p, q, a, b, c);
  }

  lemma LoopsAreTrivial(g: Graph, p: seq<string>, a: string)
    requires Acyclic(g) && PathBetween(g, p, a, a)
    ensures |p| == 1
  {
  }

  lemma ReachesAntisymmetric(g: Graph, a: string, b: string)
    requires Acyclic(g) && Reaches(g, a, b) && Reaches(g, b, a)
    ensures a == b
  {
    var p :| PathBetween(g, p, a, b);
    var q :| PathBetween(g, q, b, a);
    PathsChain(g, p, q, a, b, a);
    LoopsAreTrivial(g, p + q[1..], a);
  }

  lemma ReachesIffHistoryHeld(g: Graph, a: string, b: string)
    requires a in g && b in g
    ensures Reaches(g, a, b) <==> HistoryOf(g, b) <= HistoryOf(g, a)
  {
    ReachesItself(g, b);
    if Reaches(g, a, b) {
      forall c | c in HistoryOf(g, b)
        ensures c in HistoryOf(g, a)
      {
        ReachesTransitive(g, a, b, c);
      }
    } else {
      assert b in HistoryOf(g, b) && b !in HistoryOf(g, a);
    }
  }

  /** Over an acyclic graph that holds both heads, the verdict compares the two histories: the same,
      the smaller, the larger, or each holding commits the other lacks. */
  lemma VerdictComparesHistories(g: Graph, local: string, origin: string)
    requires Acyclic(g) && local in g && origin in g && FullName(local) && FullName(origin)
    ensures var verdict := Classify(Some(local), Some(origin), AncestryIn(g));
            var here, there := HistoryOf(g, local), HistoryOf(g, origin);
            && (verdict == Ok(Same) <==> here == there)
            && (verdict == Ok(LocalBehind) <==> here < there)
            && (verdict == Ok(LocalAhead) <==> there < here)
            && (verdict == Ok(Diverged) <==> !(here <= there) && !(there <= here))
            && verdict.Ok? && verdict.value in {Same, LocalBehind, LocalAhead, Diverged}
  {
    ReachesIffHistoryHeld(g, local, origin);
    ReachesIffHistoryHeld(g, origin, local);
    if Reaches(g, local, origin) && Reaches(g, origin, local) {
      ReachesAntisymmetric(g, local, origin);
    }
  }

  function Swapped(verdict: Verdict): Verdict {
    match verdict
    case LocalBehind => LocalAhead
    case LocalAhead => LocalBehind
    case AbsentOnOrigin => AbsentLocally
    case AbsentLocally => AbsentOnOrigin
    case _ => verdict
  }

  /** Swapping the sides swaps ahead and behind, and keeps every other verdict on two heads, missing
      objects included. */
  lemma SwappingSides(g: Graph, local: string, origin: string)
    requires Acyclic(g) && FullName(local) && FullName(origin)
    ensures var there, back := Classify(Some(local), Some(origin), AncestryIn(g)), Classify(Some(origin), Some(local), AncestryIn(g));
            there.Ok? && back == Ok(Swapped(there.value))
  {
    if local in g && origin in g && Reaches(g, local, origin) && Reaches(g, origin, local) {
      ReachesAntisymmetric(g, local, origin);
    }
  }

  /** A missing object is reported as unknown, and only that is. */
  lemma UnknownIffMissing(g: Graph, local: Option<string>, origin: Option<string>)
    ensures Classify(local, origin, AncestryIn(g)) == Ok(UnknownOriginObject)
            <==> && local.Some? && origin.Some? && FullName(local.value) && FullName(origin.value)
                 && local != origin && (local.value !in g || origin.value !in g)
  {
  }

  /** A branch absent on origin is called that, whether or not it is here; one that is there and not here
      is absent locally; and nothing else is called either. */
  lemma AbsenceIsNamed(local: Option<string>, origin: Option<string>, isAncestor: Ancestry)
    ensures Classify(local, origin, isAncestor) == Ok(AbsentOnOrigin) <==> origin.None?
    ensures Classify(local, origin, isAncestor) == Ok(AbsentLocally) <==> local.None? && origin.Some?
  {
  }

  /** A full object name: forty or sixty-four lower-case hexadecimal digits. */
  lemma FullNameIff(sha: string)
    ensures FullName(sha) <==> (|sha| == 40 || |sha| == 64) && forall i | 0 <= i < |sha| :: sha[i] in "0123456789abcdef"
  {
    forall c
      ensures IsHex(c) <==> c in "0123456789abcdef"
    {
      HexDigit(c);
    }
    if FullName(sha) {
      assert forall i | 0 <= i < |sha| :: sha[i] in sha;
    }
  }

  lemma HexDigit(c: char)
    ensures IsHex(c) <==> c in "0123456789abcdef"
  {
    var digits := "0123456789abcdef";
    if '0' <= c <= '9' {
      assert digits[c as int - '0' as int] == c;
    } else if 'a' <= c <= 'f' {
      assert digits[10 + (c as int - 'a' as int)] == c;
    }
  }

  /** A malformed name is an error that says which side's it is, the local head's first. */
  lemma MalformedNameIsNamed(local: string, origin: string, isAncestor: Ancestry)
    ensures Classify(Some(local), Some(origin), isAncestor) == Err(NotFullName("local head", local)) <==> !FullName(local)
    ensures Classify(Some(local), Some(origin), isAncestor) == Err(NotFullName("origin head", origin)) <==> FullName(local) && !FullName(origin)
  {
  }

  /** Whatever the ancestry answers, heads are called the same exactly when they are one full name. */
  lemma SameOnFullNamesOnly(local: Option<string>, origin: Option<string>, isAncestor: Ancestry)
    ensures Classify(local, origin, isAncestor) == Ok(Same) <==> local == origin && local.Some? && FullName(local.value)
    ensures Classify(local, origin, isAncestor).Err? <==> local.Some? && origin.Some? && !(FullName(local.value) && FullName(origin.value))
  {
  }
}
