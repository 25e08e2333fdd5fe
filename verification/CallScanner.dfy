/** The call-argument scanner: the text of every `hmacKeysEquivalent(` call, up to its matching closing
    parenthesis. */
module CallScanner {
  import opened Options
  import opened Text

  const MARKER := "hmacKeysEquivalent("

  // ---- balanced text, as a grammar ---------------------------------------------------------------

  /** Text in which every parenthesis has its partner. */
  datatype Balanced = Done | Plain(c: char, rest: Balanced) | Group(inner: Balanced, rest: Balanced)

  function Render(b: Balanced): string {
    match b
    case Done => ""
    case Plain(c, rest) => [c] + Render(rest)
    case Group(inner, rest) => "(" + Render(inner) + ")" + Render(rest)
  }

  predicate NoLooseParenthesis(b: Balanced) {
    match b
    case Done => true
    case Plain(c, rest) => c != '(' && c != ')' && NoLooseParenthesis(rest)
    case Group(inner, rest) => NoLooseParenthesis(inner) && NoLooseParenthesis(rest)
  }

  ghost predicate IsBalanced(text: string) {
    exists b :: NoLooseParenthesis(b) && Render(b) == text
  }

  /** The parenthesis at `e` closes the one just before `start`. */
  ghost predicate Closes(source: string, start: nat, e: nat) {
    start <= e < |source| && source[e] == ')' && IsBalanced(source[start..e])
  }

  // ---- the scan --------------------------------------------------------------------------------

  /** Where the depth, now `depth`, comes down to zero. */
  function CloseFrom(source: string, at: nat, depth: nat): (e: Option<nat>)
    requires depth > 0
    ensures e.Some? ==> at <= e.value < |source| && source[e.value] == ')'
    decreases |source| - at
  {
    if at >= |source| then None
    else if source[at] == '(' then CloseFrom(source, at + 1, depth + 1)
    else if source[at] != ')' then CloseFrom(source, at + 1, depth)
    else if depth == 1 then Some(at)
    else CloseFrom(source, at + 1, depth - 1)
  }

  /** The text up to the closing parenthesis, if there is one. */
  function ArgumentAt(source: string, start: nat): Option<string> {
    match CloseFrom(source, start, 1)
    case None => None
    case Some(e) => Some(source[start..e])
  }

  /** The arguments of the calls from `from` on. */
  function Arguments(source: string, from: nat): seq<string>
    decreases |source| - from
  {
    var at := IndexFrom(source, MARKER, from);
    if at.None? then []
    else
      var start := at.value + |MARKER|;
      var argument := ArgumentAt(source, start);
      if argument.Some? then [argument.value] + Arguments(source, start) else Arguments(source, start)
  }

  /** The inner loop: reads on until the depth, one at `start`, is zero or the source ends. */
  method ReadArgument(source: string, start: nat) returns (argument: Option<string>)
    requires start <= |source|
    ensures argument == ArgumentAt(source, start)
  {
    var depth, end := 1, start;
    while end < |source| && depth > 0
      invariant start <= end <= |source| && depth >= 0
      invariant depth > 0 ==> CloseFrom(source, end, depth) == CloseFrom(source, start, 1)
      invariant depth == 0 ==> start < end && CloseFrom(source, start, 1) == Some(end - 1)
    {
      var ch := source[end];
      if ch == '(' {
        depth := depth + 1;
      } else if ch == ')' {
        depth := depth - 1;
      }
      end := end + 1;
    }
    argument := if depth == 0 then Some(source[start..end - 1]) else None;
  }

  method KeyComparisonCallArguments(source: string) returns (found: seq<string>)
    ensures found == Arguments(source, 0)
  {
    found := [];
    var at := IndexFrom(source, MARKER, 0);
    ghost var from: nat := 0;
    while at.Some?
      invariant at == IndexFrom(source, MARKER, from)
      invariant found + Arguments(source, from) == Arguments(source, 0)
      decreases |source| - from, at.Some?
    {
      var start := at.value + |MARKER|;
      var argument := ReadArgument(source, start);
      if argument.Some? {
        Reassociate(found, [argument.value], Arguments(source, start));
        found := found + [argument.value];
      }
      from := start;
      at := IndexFrom(source, MARKER, start);
    }
  }

  // ---- the scan finds the matching parenthesis ---------------------------------------------------

  /** Where a group's parts stand in the source. */
  lemma GroupParts(source: string, at: nat, inner: string, rest: string)
    requires OccursAt(source, "(" + inner + ")" + rest, at)
    ensures source[at] == '(' && source[at + 1 + |inner|] == ')'
    ensures OccursAt(source, inner, at + 1) && OccursAt(source, rest, at + |inner| + 2)
  {
    var text := "(" + inner + ")" + rest;
    assert text == source[at..at + |text|];
    assert text[0] == '(' && text[1 + |inner|] == ')';
    assert text[1..1 + |inner|] == inner && text[2 + |inner|..|text|] == rest;
    SliceOfSlice(source, at, at + |text|, 1, 1 + |inner|);
    SliceOfSlice(source, at, at + |text|, 2 + |inner|, |text|);
  }

  lemma PlainParts(source: string, at: nat, c: char, rest: string)
    requires OccursAt(source, [c] + rest, at)
    ensures source[at] == c && OccursAt(source, rest, at + 1)
  {
    var text := [c] + rest;
    assert text == source[at..at + |text|];
    assert text[0] == c && text[1..|text|] == rest;
    SliceOfSlice(source, at, at + |text|, 1, |text|);
  }

  /** Scanning past balanced text leaves the depth as it was. */
  lemma {:induction false} BalancedKeepsDepth(b: Balanced, source: string, at: nat, depth: nat)
    requires NoLooseParenthesis(b) && depth > 0
    requires OccursAt(source, Render(b), at)
    ensures CloseFrom(source, at, depth) == CloseFrom(source, at + |Render(b)|, depth)
    decreases b, 1
  {
    match b
    case Done =>
    case Plain(c, rest) =>
      PlainKeepsDepth(c, rest, source, at, depth);
    case Group(inner, rest) =>
      GroupKeepsDepth(inner, rest, source, at, depth);
  }

  lemma {:induction false} PlainKeepsDepth(c: char, rest: Balanced, source: string, at: nat, depth: nat)
    requires c != '(' && c != ')' && NoLooseParenthesis(rest) && depth > 0
    requires OccursAt(source, [c] + Render(rest), at)
    ensures CloseFrom(source, at, depth) == CloseFrom(source, at + 1 + |Render(rest)|, depth)
    decreases Plain(c, rest), 0
  {
    PlainParts(source, at, c, Render(rest));
    BalancedKeepsDepth(rest, source, at + 1, depth);
  }

  lemma {:induction false} GroupKeepsDepth(inner: Balanced, rest: Balanced, source: string, at: nat, depth: nat)
    requires NoLooseParenthesis(inner) && NoLooseParenthesis(rest) && depth > 0
    requires OccursAt(source, "(" + Render(inner) + ")" + Render(rest), at)
    ensures CloseFrom(source, at, depth) == CloseFrom(source, at + |Render(inner)| + 2 + |Render(rest)|, depth)
    decreases Group(inner, rest), 0
  {
    GroupParts(source, at, Render(inner), Render(rest));
    BalancedKeepsDepth(inner, source, at + 1, depth + 1);
    BalancedKeepsDepth(rest, source, at + |Render(inner)| + 2, depth);
    var close := at + 1 + |Render(inner)|;
    assert CloseFrom(source, at, depth) == CloseFrom(source, close, depth + 1);
    assert CloseFrom(source, close, depth + 1) == CloseFrom(source, close + 1, depth);
  }

  /** A scan from a depth is a scan that leaves the inner levels, then one that leaves the outer. */
  lemma {:induction false} CloseInTwo(source: string, at: nat, inner: nat, outer: nat)
    requires inner > 0 && outer > 0
    ensures var e := CloseFrom(source, at, inner);
            CloseFrom(source, at, inner + outer) == if e.None? then None else CloseFrom(source, e.value + 1, outer)
    decreases |source| - at
  {
    if at < |source| {
      if source[at] == '(' {
        CloseInTwo(source, at + 1, inner + 1, outer);
      } else if source[at] != ')' {
        CloseInTwo(source, at + 1, inner, outer);
      } else if inner > 1 {
        CloseInTwo(source, at + 1, inner - 1, outer);
      }
    }
  }

  lemma GroupSlice(source: string, at: nat, mid: nat, e: nat)
    requires at < mid < e <= |source| && source[at] == '(' && source[mid] == ')'
    ensures source[at..e] == "(" + source[at + 1..mid] + ")" + source[mid + 1..e]
  {
  }

  /** What the scan stops at is balanced up to there: its parse. */
  lemma {:induction false} ClosedTextParses(source: string, at: nat, e: nat) returns (b: Balanced)
    requires CloseFrom(source, at, 1) == Some(e)
    ensures NoLooseParenthesis(b) && Render(b) == source[at..e]
    decreases |source| - at
  {
    if source[at] == ')' {
      b := Done;
    } else if source[at] == '(' {
      CloseInTwo(source, at + 1, 1, 1);
      var mid := CloseFrom(source, at + 1, 1).value;
      var inner := ClosedTextParses(source, at + 1, mid);
      var rest := ClosedTextParses(source, mid + 1, e);
      b := Group(inner, rest);
      GroupSlice(source, at, mid, e);
    } else {
      var rest := ClosedTextParses(source, at + 1, e);
      b := Plain(source[at], rest);
      assert source[at..e] == [source[at]] + source[at + 1..e];
    }
  }

  /** The counting scan stops exactly at the matching parenthesis of the grammar. */
  lemma ScanFindsMatch(source: string, start: nat, e: nat)
    ensures CloseFrom(source, start, 1) == Some(e) <==> Closes(source, start, e)
  {
    if CloseFrom(source, start, 1) == Some(e) {
      var b := ClosedTextParses(source, start, e);
    }
    if Closes(source, start, e) {
      var b :| NoLooseParenthesis(b) && Render(b) == source[start..e];
      BalancedKeepsDepth(b, source, start, 1);
    }
  }

  // ---- every call, in order ----------------------------------------------------------------------

  /** The marker opens with a letter it does not hold again: two calls never overlap, so continuing
      the search after a marker skips none, nested calls included. */
  lemma MarkersDoNotOverlap(source: string, p: nat, q: nat)
    requires OccursAt(source, MARKER, p) && p < q < p + |MARKER|
    ensures !OccursAt(source, MARKER, q)
  {
    assert source[p..p + |MARKER|][q - p] == source[q];
    assert q + |MARKER| <= |source| ==> source[q..q + |MARKER|][0] == source[q];
    assert MARKER[q - p] != MARKER[0];
  }

  /** The positions of the calls from `from` on that close. */
  function Calls(source: string, from: nat): seq<nat>
    decreases |source| - from
  {
    var at := IndexFrom(source, MARKER, from);
    if at.None? then []
    else
      var start := at.value + |MARKER|;
      if CloseFrom(source, start, 1).Some? then [at.value] + Calls(source, start) else Calls(source, start)
  }

  predicate ClosedCallAt(source: string, p: nat) {
    OccursAt(source, MARKER, p) && CloseFrom(source, p + |MARKER|, 1).Some?
  }

  /** The first call from `from` on, or none: nothing between it and the place the search goes on. */
  lemma NothingBetween(source: string, from: nat, at: nat, p: nat)
    requires IndexFrom(source, MARKER, from) == Some(at)
    requires from <= p < at + |MARKER| && OccursAt(source, MARKER, p)
    ensures p == at
  {
    IndexFromSkipsNone(source, MARKER, from, p);
    if p > at {
      MarkersDoNotOverlap(source, at, p);
    }
  }

  /** The first call and those after it. */
  lemma FirstCall(source: string, from: nat, at: nat, p: nat)
    requires IndexFrom(source, MARKER, from) == Some(at)
    requires p in Calls(source, at + |MARKER|) <==> at + |MARKER| <= p && ClosedCallAt(source, p)
    ensures p in Calls(source, from) <==> from <= p && ClosedCallAt(source, p)
  {
    if from <= p < at + |MARKER| && OccursAt(source, MARKER, p) {
      NothingBetween(source, from, at, p);
    }
  }

  lemma {:induction false} CallsAreExactly(source: string, from: nat, p: nat)
    ensures p in Calls(source, from) <==> from <= p && ClosedCallAt(source, p)
    decreases |source| - from
  {
    var at := IndexFrom(source, MARKER, from);
    if at.Some? {
      CallsAreExactly(source, at.value + |MARKER|, p);
      FirstCall(source, from, at.value, p);
    } else if from <= p && OccursAt(source, MARKER, p) {
      IndexFromSkipsNone(source, MARKER, from, p);
    }
  }

  ghost predicate Increasing(xs: seq<nat>) {
    forall i, j | 0 <= i < j < |xs| :: xs[i] < xs[j]
  }

  lemma {:induction false} CallsIncrease(source: string, from: nat)
    ensures Increasing(Calls(source, from))
    decreases |source| - from
  {
    var at := IndexFrom(source, MARKER, from);
    if at.Some? {
      var next := at.value + |MARKER|;
      CallsIncrease(source, next);
      var rest := Calls(source, next);
      forall i | 0 <= i < |rest|
        ensures at.value < rest[i]
      {
        CallsAreExactly(source, next, rest[i]);
      }
      assert Calls(source, from) == rest || Calls(source, from) == [at.value] + rest;
    }
  }

  /** The text `arg` runs from `start` to the parenthesis that closes it. */
  ghost predicate ArgumentFrom(source: string, start: nat, arg: string) {
    exists e: nat :: Closes(source, start, e) && arg == source[start..e]
  }

  /** The text `arg` is the argument of the call at `p`. */
  ghost predicate ArgumentOf(source: string, p: nat, arg: string) {
    OccursAt(source, "hmacKeysEquivalent(", p) && ArgumentFrom(source, p + |"hmacKeysEquivalent("|, arg)
  }

  /** A call closes when it has an argument, and it has only one. */
  lemma ClosesWithItsArgument(source: string, start: nat, arg: string)
    ensures ArgumentFrom(source, start, arg)
            <==> var e := CloseFrom(source, start, 1); e.Some? && arg == source[start..e.value]
  {
    var found := CloseFrom(source, start, 1);
    if found.Some? {
      ScanFindsMatch(source, start, found.value);
    }
    if ArgumentFrom(source, start, arg) {
      var e: nat :| Closes(source, start, e) && arg == source[start..e];
      ScanFindsMatch(source, start, e);
    }
  }

  /** Each text is the argument of the call at its position. */
  ghost predicate Paired(source: string, calls: seq<nat>, found: seq<string>) {
    |found| == |calls| && forall i | 0 <= i < |calls| :: ArgumentOf(source, calls[i], found[i])
  }

  lemma PairedFirst(source: string, p: nat, argument: string, calls: seq<nat>, found: seq<string>)
    requires ArgumentOf(source, p, argument) && Paired(source, calls, found)
    ensures Paired(source, [p] + calls, [argument] + found)
  {
  }

  lemma {:induction false} ArgumentsAreTheCalls(source: string, from: nat)
    ensures Paired(source, Calls(source, from), Arguments(source, from))
    decreases |source| - from
  {
    var at := IndexFrom(source, MARKER, from);
    if at.Some? {
      var start := at.value + |MARKER|;
      ArgumentsAreTheCalls(source, start);
      var e := CloseFrom(source, start, 1);
      if e.Some? {
        var argument := source[start..e.value];
        ClosesWithItsArgument(source, start, argument);
        PairedFirst(source, at.value, argument, Calls(source, start), Arguments(source, start));
      }
    }
  }

  /** The scanner returns, in order, the argument of every call that closes, nested calls included,
      and leaves out exactly the calls that never close. */
  lemma ScannerFindsEveryCall(source: string)
    ensures var calls, found := Calls(source, 0), Arguments(source, 0);
            && Paired(source, calls, found)
            && Increasing(calls)
            && (forall p: nat :: p in calls <==> exists arg :: ArgumentOf(source, p, arg))
  {
    ArgumentsAreTheCalls(source, 0);
    CallsIncrease(source, 0);
    forall p: nat
      ensures p in Calls(source, 0) <==> exists arg :: ArgumentOf(source, p, arg)
    {
      CallsAreExactly(source, 0, p);
      if ClosedCallAt(source, p) {
        var start := p + |MARKER|;
        var arg := source[start..CloseFrom(source, start, 1).value];
        ClosesWithItsArgument(source, start, arg);
        assert ArgumentOf(source, p, arg);
      }
      if arg :| ArgumentOf(source, p, arg) {
        ClosesWithItsArgument(source, p + |MARKER|, arg);
      }
    }
  }

  /** A call has one argument. */
  lemma ArgumentIsUnique(source: string, p: nat, a: string, b: string)
    requires ArgumentOf(source, p, a) && ArgumentOf(source, p, b)
    ensures a == b
  {
    ClosesWithItsArgument(source, p + |MARKER|, a);
    ClosesWithItsArgument(source, p + |MARKER|, b);
  }
}
