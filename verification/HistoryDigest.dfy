/** The before/after comparison of the migration history, and the digest that pins it. */
module HistoryDigest {
  import opened Options
  import opened Text
  import opened Splitting
  import opened Rehearsal

  datatype Difference =
    | Added(name: string)
    | Changed(name: string, from: string, to: string)
    | Reapplied(name: string, at: string)
    | Removed(name: string)

  /** The row of each name; the last row of a name wins. */
  function ByName(rows: seq<Row>): (m: map<string, Row>)
    ensures forall n :: n in m <==> n in RowNames(rows)
    ensures forall n | n in m :: m[n] in rows && m[n].name == n
  {
    if rows == [] then map[]
    else
      var front, last := rows[..|rows| - 1], rows[|rows| - 1];
      assert rows == front + [last];
      RowNamesAppend(front, last);
      ByName(front)[last.name := last]
  }

  lemma {:induction false} RowNamesAppend(rows: seq<Row>, r: Row)
    ensures RowNames(rows + [r]) == RowNames(rows) + [r.name]
  {
  }

  /** A name stands for the last row that has it. */
  lemma {:induction false} LastOfNameIsKnown(rows: seq<Row>, i: nat)
    requires i < |rows| && forall j | i < j < |rows| :: rows[j].name != rows[i].name
    ensures rows[i].name in ByName(rows) && ByName(rows)[rows[i].name] == rows[i]
  {
    if i < |rows| - 1 {
      LastOfNameIsKnown(rows[..|rows| - 1], i);
    }
  }

  function RowDifference(was: map<string, Row>, r: Row): seq<Difference> {
    if r.name !in was then [Added(r.name)]
    else if was[r.name].sha256 != r.sha256 then [Changed(r.name, was[r.name].sha256, r.sha256)]
    else if was[r.name].appliedAt != r.appliedAt then [Reapplied(r.name, r.appliedAt)]
    else []
  }

  function RowDifferences(was: map<string, Row>, after: seq<Row>): seq<Difference> {
    if after == [] then [] else RowDifference(was, after[0]) + RowDifferences(was, after[1..])
  }

  function Removals(now: map<string, Row>, before: seq<Row>): seq<Difference> {
    if before == [] then [] else (if before[0].name in now then [] else [Removed(before[0].name)]) + Removals(now, before[1..])
  }

  function Differences(before: seq<Row>, after: seq<Row>): seq<Difference> {
    RowDifferences(ByName(before), after) + Removals(ByName(after), before)
  }

  method HistoryDifferences(before: seq<Row>, after: seq<Row>) returns (problems: seq<Difference>)
    ensures problems == Differences(before, after)
  {
    var changed := CompareRows(ByName(before), after);
    var removed := FindRemovals(ByName(after), before);
    problems := changed + removed;
  }

  method FindRemovals(now: map<string, Row>, before: seq<Row>) returns (problems: seq<Difference>)
    ensures problems == Removals(now, before)
  {
    problems := [];
    for i := 0 to |before|
      invariant problems + Removals(now, before[i..]) == Removals(now, before)
    {
      assert before[i..][0] == before[i] && before[i..][1..] == before[i + 1..];
      if before[i].name !in now {
        problems := problems + [Removed(before[i].name)];
      }
    }
  }

  lemma NextRowDifference(found: seq<Difference>, was: map<string, Row>, after: seq<Row>, i: nat)
    requires i < |after|
    ensures found + RowDifferences(was, after[i..]) == (found + RowDifference(was, after[i])) + RowDifferences(was, after[i + 1..])
  {
    assert after[i..][0] == after[i] && after[i..][1..] == after[i + 1..];
    Reassociate(found, RowDifference(was, after[i]), RowDifferences(was, after[i + 1..]));
  }

  method CompareRows(was: map<string, Row>, after: seq<Row>) returns (problems: seq<Difference>)
    ensures problems == RowDifferences(was, after)
  {
    problems := [];
    for i := 0 to |after|
      invariant problems + RowDifferences(was, after[i..]) == RowDifferences(was, after)
    {
      var r := after[i];
      NextRowDifference(problems, was, after, i);
      ghost var next := problems + RowDifference(was, r);
      if r.name !in was {
        problems := problems + [Added(r.name)];
      } else if was[r.name].sha256 != r.sha256 {
        problems := problems + [Changed(r.name, was[r.name].sha256, r.sha256)];
      } else if was[r.name].appliedAt != r.appliedAt {
        problems := problems + [Reapplied(r.name, r.appliedAt)];
      }
      assert problems == next;
    }
  }

  // ---- the digest ------------------------------------------------------------------------------

  /** One line per row: name, digest and time, separated by spaces. */
  function Line(r: Row): string { r.name + " " + r.sha256 + " " + r.appliedAt }

  function Lines(rows: seq<Row>): (lines: seq<string>)
    ensures |lines| == |rows| && forall i | 0 <= i < |lines| :: lines[i] == Line(rows[i])
  {
    if rows == [] then [] else [Line(rows[0])] + Lines(rows[1..])
  }

  /** The text `historyDigest` hashes. */
  function DigestText(rows: seq<Row>): string {
    Join(Lines(SortBy(NameOf, rows)), "\n")
  }

  /** A row the line format can carry: no space in the name or the digest, no newline anywhere. */
  predicate Plain(r: Row) {
    ' ' !in r.name && '\n' !in r.name && ' ' !in r.sha256 && '\n' !in r.sha256 && '\n' !in r.appliedAt
  }

  lemma WordEnds(a: string, b: string, s: string, t: string)
    requires ' ' !in a && ' ' !in b && a + " " + s == b + " " + t
    ensures a == b && s == t
  {
    var text := a + " " + s;
    assert text[|a|] == ' ' && text[|b|] == ' ';
    assert forall i | 0 <= i < |a| :: text[i] == a[i];
    assert forall i | 0 <= i < |b| :: text[i] == b[i];
    assert |a| == |b|;
    assert a == text[..|a|] == b;
    assert s == text[|a| + 1..] == t;
  }

  lemma LineInjective(r: Row, q: Row)
    requires Plain(r) && Plain(q) && Line(r) == Line(q)
    ensures r == q
  {
    assert Line(r) == r.name + " " + (r.sha256 + " " + r.appliedAt);
    assert Line(q) == q.name + " " + (q.sha256 + " " + q.appliedAt);
    WordEnds(r.name, q.name, r.sha256 + " " + r.appliedAt, q.sha256 + " " + q.appliedAt);
    WordEnds(r.sha256, q.sha256, r.appliedAt, q.appliedAt);
  }

  lemma WordSplits(word: string, rest: string)
    requires ' ' !in word
    ensures Split(word + " " + rest, " ") == [word] + Split(rest, " ")
  {
    LacksCharacter(word, ' ');
    SplitAtToken(word, rest, " ");
  }

  lemma TwoFirst(words: seq<string>, a: string, b: string, rest: seq<string>)
    requires words == [a] + ([b] + rest)
    ensures |words| == |rest| + 2 && words[0] == a && words[1] == b && words[2..] == rest
  {
  }

  /** A line's words: the name first, then the digest, and the time is the rest. */
  lemma LineReadsBack(r: Row)
    requires Plain(r)
    ensures var words := Split(Line(r), " ");
            |words| >= 3 && words[0] == r.name && words[1] == r.sha256 && Join(words[2..], " ") == r.appliedAt
  {
    var rest := r.sha256 + " " + r.appliedAt;
    assert Line(r) == r.name + " " + rest;
    WordSplits(r.name, rest);
    WordSplits(r.sha256, r.appliedAt);
    TwoFirst(Split(Line(r), " "), r.name, r.sha256, Split(r.appliedAt, " "));
    SplitNotEmpty(r.appliedAt, " ");
    SplitThenJoin(r.appliedAt, " ");
  }

  /** The text the digest is taken over: one line a row, in name order. */
  lemma DigestTextReadsBack(rows: seq<Row>)
    requires rows != [] && UniqueNames(rows) && forall r | r in rows :: Plain(r)
    ensures OrderedBy(SortBy(NameOf, rows), rows)
    ensures Split(DigestText(rows), "\n") == Lines(SortBy(NameOf, rows))
  {
    var ordered := SortBy(NameOf, rows);
    SortedHistoryIsOrdered(rows);
    SameMembers(ordered, rows);
    forall x | x in Lines(ordered)
      ensures !Contains(x, "\n")
    {
      var i :| 0 <= i < |ordered| && Lines(ordered)[i] == x;
      assert ordered[i] in rows;
      LineIsALine(ordered[i]);
      LacksCharacter(x, '\n');
    }
    JoinThenSplit(Lines(ordered), "\n");
  }

  lemma LineIsALine(r: Row)
    requires Plain(r)
    ensures Line(r) != "" && '\n' !in Line(r)
  {
  }

  lemma LinesInjective(a: seq<Row>, b: seq<Row>)
    requires (forall r | r in a :: Plain(r)) && (forall r | r in b :: Plain(r))
    requires Join(Lines(a), "\n") == Join(Lines(b), "\n")
    ensures a == b
  {
    forall x | x in Lines(a)
      ensures x != "" && '\n' !in x
    {
      var i :| 0 <= i < |a| && Lines(a)[i] == x;
      LineIsALine(a[i]);
    }
    forall x | x in Lines(b)
      ensures x != "" && '\n' !in x
    {
      var i :| 0 <= i < |b| && Lines(b)[i] == x;
      LineIsALine(b[i]);
    }
    JoinLinesInjective(Lines(a), Lines(b));
    forall i | 0 <= i < |a|
      ensures a[i] == b[i]
    {
      assert Lines(a)[i] == Lines(b)[i];
      assert a[i] in a && b[i] in b;
      LineInjective(a[i], b[i]);
    }
  }

  // ---- the two comparisons agree ---------------------------------------------------------------

  ghost predicate SameRows(before: seq<Row>, after: seq<Row>) {
    forall r :: r in before <==> r in after
  }

  lemma {:induction false} RowDifferencesNone(was: map<string, Row>, after: seq<Row>)
    requires forall n | n in was :: was[n].name == n
    ensures RowDifferences(was, after) == [] <==> forall r | r in after :: r.name in was && was[r.name] == r
  {
    if after != [] {
      RowDifferencesNone(was, after[1..]);
      assert forall r | r in after :: r == after[0] || r in after[1..];
      assert after[0] in after && forall r | r in after[1..] :: r in after;
    }
  }

  lemma {:induction false} RemovalsNone(now: map<string, Row>, before: seq<Row>)
    ensures Removals(now, before) == [] <==> forall r | r in before :: r.name in now
  {
    if before != [] {
      RemovalsNone(now, before[1..]);
      assert forall r | r in before :: r == before[0] || r in before[1..];
      assert before[0] in before && forall r | r in before[1..] :: r in before;
    }
  }

  /** With one row a name, no difference is reported exactly when the two hold the same rows. */
  lemma NoDifferenceIffSameRows(before: seq<Row>, after: seq<Row>)
    requires UniqueNames(before) && UniqueNames(after)
    ensures Differences(before, after) == [] <==> SameRows(before, after)
  {
    var was, now := ByName(before), ByName(after);
    RowDifferencesNone(was, after);
    RemovalsNone(now, before);
    forall r | r in before
      ensures r.name in was && was[r.name] == r
    {
      RowIn(before, r);
      NameDetermines(before, r, was[r.name]);
    }
    forall r | r in after
      ensures r.name in now && now[r.name] == r
    {
      RowIn(after, r);
      NameDetermines(after, r, now[r.name]);
    }
    if Differences(before, after) == [] {
      forall r | r in before
        ensures r in after
      {
        assert now[r.name] in after && was[r.name] == now[r.name];
      }
    }
  }

  /** Some row before and some row after of one name, so compared. */
  ghost predicate Pair(before: seq<Row>, after: seq<Row>, was: Row, now: Row) {
    was in before && now in after && was.name == now.name
  }

  /** When each difference is due, said of the rows. */
  ghost predicate Due(before: seq<Row>, after: seq<Row>, d: Difference) {
    match d
    case Added(name) => name in RowNames(after) && name !in RowNames(before)
    case Removed(name) => name in RowNames(before) && name !in RowNames(after)
    case Changed(name, from, to) => exists was, now :: Pair(before, after, was, now) && now.name == name && was.sha256 == from != to == now.sha256
    case Reapplied(name, at) =>
      exists was, now :: Pair(before, after, was, now) && now.name == name && was.sha256 == now.sha256 && was.appliedAt != now.appliedAt == at
  }

  lemma {:induction false} RowReportedIff(was: map<string, Row>, after: seq<Row>, d: Difference)
    ensures d in RowDifferences(was, after) <==> exists r :: r in after && d in RowDifference(was, r)
  {
    if after != [] {
      RowReportedIff(was, after[1..], d);
      assert after == [after[0]] + after[1..];
    }
  }

  lemma {:induction false} RemovalReportedIff(now: map<string, Row>, before: seq<Row>, d: Difference)
    ensures d in Removals(now, before) <==> d.Removed? && d.name in RowNames(before) && d.name !in now
  {
    if before != [] {
      RemovalReportedIff(now, before[1..], d);
      assert RowNames(before) == [before[0].name] + RowNames(before[1..]);
    }
  }

  lemma ComparedIsDue(before: seq<Row>, after: seq<Row>, was: Row, r: Row, d: Difference)
    requires Pair(before, after, was, r)
    requires || (d == Changed(r.name, was.sha256, r.sha256) && was.sha256 != r.sha256)
             || (d == Reapplied(r.name, r.appliedAt) && was.sha256 == r.sha256 && was.appliedAt != r.appliedAt)
    ensures Due(before, after, d)
  {
  }

  lemma RowDifferenceIsDue(before: seq<Row>, after: seq<Row>, r: Row, d: Difference)
    requires UniqueNames(before) && r in after && d in RowDifference(ByName(before), r)
    ensures Due(before, after, d) && !d.Removed?
  {
    RowIn(after, r);
    if r.name in ByName(before) {
      ComparedIsDue(before, after, ByName(before)[r.name], r, d);
    }
  }

  lemma DueIsReported(before: seq<Row>, after: seq<Row>, d: Difference) returns (r: Row)
    requires UniqueNames(before) && Due(before, after, d) && !d.Removed?
    ensures r in after && d in RowDifference(ByName(before), r)
  {
    if d.Added? {
      var i :| 0 <= i < |after| && RowNames(after)[i] == d.name;
      r := after[i];
    } else {
      var was: Row;
      if d.Changed? {
        was, r :| Pair(before, after, was, r) && r.name == d.name && was.sha256 == d.from != d.to == r.sha256;
      } else {
        was, r :| Pair(before, after, was, r) && r.name == d.name && was.sha256 == r.sha256 && was.appliedAt != r.appliedAt == d.at;
      }
      RowIn(before, was);
      NameDetermines(before, was, ByName(before)[r.name]);
    }
  }

  /** With one row a name, each difference is reported exactly when it is due. */
  lemma ReportedIffDue(before: seq<Row>, after: seq<Row>, d: Difference)
    requires UniqueNames(before) && UniqueNames(after)
    ensures d in Differences(before, after) <==> Due(before, after, d)
  {
    RowReportedIff(ByName(before), after, d);
    RemovalReportedIff(ByName(after), before, d);
    if r :| r in after && d in RowDifference(ByName(before), r) {
      RowDifferenceIsDue(before, after, r, d);
    }
    if Due(before, after, d) && !d.Removed? {
      var r := DueIsReported(before, after, d);
    }
  }

  lemma NamesDetermineRows(rows: seq<Row>)
    requires UniqueNames(rows)
    ensures KeyDetermines(NameOf, rows)
  {
    forall x, y | x in rows && y in rows && NameOf(x) == NameOf(y)
      ensures x == y
    {
      NameDetermines(rows, x, y);
    }
  }

  /** The comparison finds nothing exactly when the digests are taken over the same text, in whatever
      order the rows of either snapshot arrived. */
  lemma NoDifferenceIffSameText(before: seq<Row>, after: seq<Row>)
    requires UniqueNames(before) && UniqueNames(after)
    requires (forall r | r in before :: Plain(r)) && (forall r | r in after :: Plain(r))
    ensures Differences(before, after) == [] <==> DigestText(before) == DigestText(after)
  {
    NoDifferenceIffSameRows(before, after);
    var a, b := SortBy(NameOf, before), SortBy(NameOf, after);
    SortBySorts(NameOf, before);
    SortBySorts(NameOf, after);
    SameMembers(a, before);
    SameMembers(b, after);
    if SameRows(before, after) {
      RowsDistinct(before);
      RowsDistinct(after);
      DistinctSameMembers(before, after);
      NamesDetermineRows(before);
      SortedUnique(NameOf, a, b);
    }
    if DigestText(before) == DigestText(after) {
      LinesInjective(a, b);
    }
  }

  /** `historyDigest`, for whatever hash function it uses. */
  function Digest(hash: string -> string, rows: seq<Row>): string { hash(DigestText(rows)) }

  /** While the hash does not collide on the two texts, equal digests and no differences are the same
      finding. */
  lemma DigestPinsHistory(hash: string -> string, before: seq<Row>, after: seq<Row>)
    requires UniqueNames(before) && UniqueNames(after)
    requires (forall r | r in before :: Plain(r)) && (forall r | r in after :: Plain(r))
    requires hash(DigestText(before)) == hash(DigestText(after)) ==> DigestText(before) == DigestText(after)
    ensures Differences(before, after) == [] <==> Digest(hash, before) == Digest(hash, after)
  {
    NoDifferenceIffSameText(before, after);
  }
}
