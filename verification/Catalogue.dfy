/** Catalogue comparison: rows with the applying principal's name normalised away, compared family by
    family. */
module Catalogue {
  import opened Options
  import opened Text
  import opened Splitting

  const TOKEN := "<applier>"

  /** The row with the applier's name replaced by the token. */
  function Normalised(row: string, applier: string): string {
    Join(Split(row, applier), TOKEN)
  }

  /** The applier's name put back. */
  function Restored(row: string, applier: string): string {
    Join(Split(row, TOKEN), applier)
  }

  // ---- the round trip --------------------------------------------------------------------------

  lemma PiecesHoldNoToken(row: string, applier: string)
    requires !Contains(row, TOKEN)
    ensures forall p | p in Split(row, applier) :: !Contains(p, TOKEN)
  {
    if applier == "" {
      JoinCharacters(row);
    } else {
      PiecesHoldNone(row, applier, TOKEN);
    }
  }

  /** Normalisation is undone exactly by putting the applier back, for every row that does not already
      hold the token and every applier. */
  lemma NormaliseThenRestore(row: string, applier: string)
    requires !Contains(row, TOKEN)
    ensures Restored(Normalised(row, applier), applier) == row
  {
    SplitThenJoin(row, applier);
    PiecesHoldNoToken(row, applier);
    if Split(row, applier) == [] {
      assert row == "" && Normalised(row, applier) == "";
      assert Split("", TOKEN) == [""];
    } else {
      JoinThenSplit(Split(row, applier), TOKEN);
    }
  }

  /** So rows normalised under one applier are equal only if they were equal. */
  lemma NormalisedInjective(a: string, b: string, applier: string)
    requires !Contains(a, TOKEN) && !Contains(b, TOKEN)
    ensures Normalised(a, applier) == Normalised(b, applier) <==> a == b
  {
    NormaliseThenRestore(a, applier);
    NormaliseThenRestore(b, applier);
  }

  lemma NormalisedSplits(row: string, applier: string)
    requires !Contains(row, TOKEN) && applier != ""
    ensures Split(Normalised(row, applier), TOKEN) == Split(row, applier)
  {
    SplitNotEmpty(row, applier);
    PiecesHoldNoToken(row, applier);
    JoinThenSplit(Split(row, applier), TOKEN);
  }

  /** Rows from two databases, each normalised under its own applier, are equal exactly when they are
      the same but for the applier's name. */
  lemma NormalisedAcrossAppliers(a: string, applierA: string, b: string, applierB: string)
    requires !Contains(a, TOKEN) && !Contains(b, TOKEN) && applierA != "" && applierB != ""
    ensures Normalised(a, applierA) == Normalised(b, applierB) <==> Split(a, applierA) == Split(b, applierB)
    ensures Normalised(a, applierA) == Normalised(b, applierB) ==> b == Join(Split(a, applierA), applierB)
  {
    NormalisedSplits(a, applierA);
    NormalisedSplits(b, applierB);
    SplitThenJoin(b, applierB);
  }

  /** The token in a row breaks it: a row that spells the token and a row that names the applier are
      normalised to the same text. */
  lemma TokenRowCollides(applier: string)
    requires applier != "" && !Contains(TOKEN, applier)
    ensures Normalised(TOKEN, applier) == Normalised(applier, applier)
  {
    assert IndexOf(TOKEN, applier).None?;
    assert OccursAt(applier, applier, 0);
    assert IndexOf(applier, applier) == Some(0);
    assert applier[..0] == "" && applier[|applier|..] == "";
    assert IndexOf("", applier).None?;
    assert Split(applier, applier) == ["", ""];
    assert Join(["", ""], TOKEN) == "" + TOKEN + "" by {
      assert ["", ""][1..] == [""];
    }
  }

  // ---- comparing two catalogues -----------------------------------------------------------------

  type Snapshot = map<string, seq<string>>

  datatype Difference =
    | FamilyMissing(family: string, inFirst: bool, inSecond: bool)
    | RowCounts(family: string, first: nat, second: nat)
    | Rows(family: string, onlyFirst: seq<string>, onlySecond: seq<string>)

  function FamilyDifference(first: Snapshot, second: Snapshot, family: string): seq<Difference> {
    if family !in first || family !in second then [FamilyMissing(family, family in first, family in second)]
    else
      var a, b := first[family], second[family];
      var onlyFirst, onlySecond := Without(a, b), Without(b, a);
      if onlyFirst == [] && onlySecond == [] && |a| != |b| then [RowCounts(family, |a|, |b|)]
      else if onlyFirst != [] || onlySecond != [] then [Rows(family, onlyFirst, onlySecond)]
      else []
  }

  function Differences(first: Snapshot, second: Snapshot, families: seq<string>): seq<Difference> {
    if families == [] then [] else FamilyDifference(first, second, families[0]) + Differences(first, second, families[1..])
  }

  method CatalogueDifferences(first: Snapshot, second: Snapshot, families: seq<string>) returns (out: seq<Difference>)
    ensures out == Differences(first, second, families)
  {
    out := [];
    for i := 0 to |families|
      invariant out + Differences(first, second, families[i..]) == Differences(first, second, families)
    {
      assert families[i..][0] == families[i] && families[i..][1..] == families[i + 1..];
      var found := CompareFamily(first, second, families[i]);
      out := out + found;
    }
  }

  method CompareFamily(first: Snapshot, second: Snapshot, family: string) returns (out: seq<Difference>)
    ensures out == FamilyDifference(first, second, family)
  {
    out := [];
    if family !in first || family !in second {
      return [FamilyMissing(family, family in first, family in second)];
    }
    var a, b := first[family], second[family];
    var onlyFirst, onlySecond := Without(a, b), Without(b, a);
    if onlyFirst == [] && onlySecond == [] && |a| != |b| {
      out := [RowCounts(family, |a|, |b|)];
    } else if onlyFirst != [] || onlySecond != [] {
      out := [Rows(family, onlyFirst, onlySecond)];
    }
  }

  /** When each difference is due. */
  ghost predicate DifferenceDue(first: Snapshot, second: Snapshot, family: string, d: Difference) {
    match d
    case FamilyMissing(f, inFirst, inSecond) => f == family && (inFirst <==> family in first) && (inSecond <==> family in second) && !(inFirst && inSecond)
    case RowCounts(f, m, n) =>
      && f == family && family in first && family in second && m == |first[family]| != |second[family]| == n
      && forall x :: x in first[family] <==> x in second[family]
    case Rows(f, onlyFirst, onlySecond) =>
      && f == family && family in first && family in second && (onlyFirst != [] || onlySecond != [])
      && Kept(first[family], second[family], onlyFirst) && Kept(second[family], first[family], onlySecond)
  }

  lemma FamilyReportedIffDue(first: Snapshot, second: Snapshot, family: string, d: Difference)
    ensures d in FamilyDifference(first, second, family) <==> DifferenceDue(first, second, family, d)
  {
    if family in first && family in second {
      var a, b := first[family], second[family];
      WithoutEmptyIff(a, b);
      WithoutEmptyIff(b, a);
      if d.Rows? {
        WithoutKeeps(a, b, d.onlyFirst);
        WithoutKeeps(b, a, d.onlySecond);
      }
    }
  }

  lemma WithoutEmptyIff(a: seq<string>, b: seq<string>)
    ensures Without(a, b) == [] <==> forall x | x in a :: x in b
  {
    if Without(a, b) != [] {
      assert Without(a, b)[0] in Without(a, b);
    }
    if x :| x in a && x !in b {
      assert x in Without(a, b);
    }
  }

  /** Each difference, with its rows or counts, is reported exactly when it is due for one of the families. */
  lemma {:induction false} ReportedIffDue(first: Snapshot, second: Snapshot, families: seq<string>, d: Difference)
    ensures d in Differences(first, second, families) <==> exists family :: family in families && DifferenceDue(first, second, family, d)
  {
    if families != [] {
      ReportedIffDue(first, second, families[1..], d);
      FamilyReportedIffDue(first, second, families[0], d);
      assert families == [families[0]] + families[1..];
    }
  }

  /** What the comparison establishes for one family: the same rows, and as many of them. */
  ghost predicate SameFamily(first: Snapshot, second: Snapshot, family: string) {
    && family in first && family in second
    && (forall x :: x in first[family] <==> x in second[family])
    && |first[family]| == |second[family]|
  }

  lemma FamilyDifferenceNone(first: Snapshot, second: Snapshot, family: string)
    ensures FamilyDifference(first, second, family) == [] <==> SameFamily(first, second, family)
  {
    if family in first && family in second {
      var a, b := first[family], second[family];
      if Without(a, b) == [] && Without(b, a) == [] {
        forall x
          ensures x in a <==> x in b
        {
          assert x !in Without(a, b) && x !in Without(b, a);
        }
      } else if Without(a, b) != [] {
        assert Without(a, b)[0] in Without(a, b);
      } else {
        assert Without(b, a)[0] in Without(b, a);
      }
    }
  }

  lemma {:induction false} NoDifferenceIffSame(first: Snapshot, second: Snapshot, families: seq<string>)
    ensures Differences(first, second, families) == [] <==> forall f | f in families :: SameFamily(first, second, f)
  {
    if families != [] {
      FamilyDifferenceNone(first, second, families[0]);
      NoDifferenceIffSame(first, second, families[1..]);
      assert families[0] in families && forall f | f in families[1..] :: f in families;
      assert forall f | f in families :: f == families[0] || f in families[1..];
    }
  }

  ghost predicate Carries(s: Snapshot, families: seq<string>) {
    forall f | f in families :: f in s
  }

  /** "No differences" is an equivalence on the snapshots that carry every family, and only on those. */
  lemma NoDifferenceIsAnEquivalence(a: Snapshot, b: Snapshot, c: Snapshot, families: seq<string>)
    ensures Differences(a, a, families) == [] <==> Carries(a, families)
    ensures Differences(a, b, families) == [] <==> Differences(b, a, families) == []
    ensures Differences(a, b, families) == [] && Differences(b, c, families) == [] ==> Differences(a, c, families) == []
  {
    NoDifferenceIffSame(a, a, families);
    NoDifferenceIffSame(a, b, families);
    NoDifferenceIffSame(b, a, families);
    NoDifferenceIffSame(b, c, families);
    NoDifferenceIffSame(a, c, families);
    assert (forall f | f in families :: SameFamily(a, a, f)) <==> Carries(a, families);
    assert forall f :: SameFamily(a, b, f) <==> SameFamily(b, a, f);
    assert forall f :: SameFamily(a, b, f) && SameFamily(b, c, f) ==> SameFamily(a, c, f);
  }

  // ---- what the comparison does not see ----------------------------------------------------------

  /** What no difference says of two families: the same rows, and as many of them. */
  ghost predicate SameRowsAndCount(a: seq<string>, b: seq<string>) {
    (forall x :: x in a <==> x in b) && |a| == |b|
  }

  /** Rows that are all different, or all one row. */
  ghost predicate Settled(a: seq<string>) {
    Distinct(a) || forall x, y | x in a && y in a :: x == y
  }

  lemma DistinctRowsSettle(a: seq<string>, b: seq<string>)
    requires Distinct(a) && SameRowsAndCount(a, b)
    ensures multiset(a) == multiset(b)
  {
    assert Members(a) == Members(b);
    MembersCount(a);
    MembersCount(b);
    DistinctSameMembers(a, b);
  }

  lemma OneRowSettles(a: seq<string>, b: seq<string>)
    requires (forall x, y | x in a && y in a :: x == y) && SameRowsAndCount(a, b)
    ensures a == b
  {
    forall i | 0 <= i < |a|
      ensures a[i] == b[i]
    {
      assert a[i] in a && b[i] in b;
    }
  }

  /** Unsettled rows have a rearrangement of their repeats that the comparison takes for them. */
  lemma UnsettledRowsHide(a: seq<string>) returns (b: seq<string>)
    requires !Settled(a)
    ensures SameRowsAndCount(a, b) && multiset(a) != multiset(b)
  {
    var i, j :| 0 <= i < j < |a| && a[i] == a[j];
    var x, y :| x in a && y in a && x != y;
    var z := if x == a[j] then y else x;
    b := a[j := z];
    var k :| 0 <= k < |a| && a[k] == z;
    forall w
      ensures w in a <==> w in b
    {
      if w in a {
        var m :| 0 <= m < |a| && a[m] == w;
        assert b[if m == j then i else m] == w;
      }
      if w in b {
        var m :| 0 <= m < |b| && b[m] == w;
        assert a[if m == j then k else m] == w;
      }
    }
    assert multiset(b)[z] == multiset(a)[z] + 1;
  }

  /** The same rows and as many of them are the same rows as often, for whatever they are compared with,
      exactly when the rows are all different or all one row. */
  lemma CountDecidesIffSettled(a: seq<string>)
    ensures (forall b :: SameRowsAndCount(a, b) ==> multiset(a) == multiset(b)) <==> Settled(a)
  {
    if Settled(a) {
      forall b | SameRowsAndCount(a, b)
        ensures multiset(a) == multiset(b)
      {
        if Distinct(a) {
          DistinctRowsSettle(a, b);
        } else {
          OneRowSettles(a, b);
        }
      }
    } else {
      var b := UnsettledRowsHide(a);
    }
  }

  ghost predicate SameRowsAsOften(first: Snapshot, second: Snapshot, families: seq<string>) {
    forall f | f in families :: f in first && f in second && multiset(first[f]) == multiset(second[f])
  }

  lemma UnsettledCatalogueHides(first: Snapshot, families: seq<string>, f: string) returns (second: Snapshot)
    requires Carries(first, families) && f in families && !Settled(first[f])
    ensures Differences(first, second, families) == [] && !SameRowsAsOften(first, second, families)
  {
    var b := UnsettledRowsHide(first[f]);
    second := first[f := b];
    NoDifferenceIffSame(first, second, families);
    assert SameFamily(first, second, f);
  }

  /** No difference means the same rows as often, whatever the other catalogue, exactly for a catalogue
      that lacks a family, and so differs from every other, or whose families are all settled. */
  lemma NoDifferenceDecidesIffSettled(first: Snapshot, families: seq<string>)
    ensures (forall second :: Differences(first, second, families) == [] ==> SameRowsAsOften(first, second, families))
       <==> !Carries(first, families) || forall f | f in families :: Settled(first[f])
  {
    if Carries(first, families) {
      if forall f | f in families :: Settled(first[f]) {
        forall second | Differences(first, second, families) == []
          ensures SameRowsAsOften(first, second, families)
        {
          SettledCatalogueDecides(first, second, families);
        }
      } else {
        var f :| f in families && !Settled(first[f]);
        var second := UnsettledCatalogueHides(first, families, f);
      }
    } else {
      forall second
        ensures Differences(first, second, families) != []
      {
        NoDifferenceIffSame(first, second, families);
      }
    }
  }

  lemma SettledCatalogueDecides(first: Snapshot, second: Snapshot, families: seq<string>)
    requires Carries(first, families) && forall f | f in families :: Settled(first[f])
    requires Differences(first, second, families) == []
    ensures SameRowsAsOften(first, second, families)
  {
    NoDifferenceIffSame(first, second, families);
    forall f | f in families
      ensures f in second && multiset(first[f]) == multiset(second[f])
    {
      assert SameFamily(first, second, f) && SameRowsAndCount(first[f], second[f]);
      CountDecidesIffSettled(first[f]);
    }
  }

  /** For a settled family, no difference means the same rows in some order, and only that. */
  lemma NoDifferenceIffPermuted(first: Snapshot, second: Snapshot, family: string)
    requires family in first && family in second && Settled(first[family])
    ensures FamilyDifference(first, second, family) == [] <==> multiset(first[family]) == multiset(second[family])
  {
    FamilyDifferenceNone(first, second, family);
    CountDecidesIffSettled(first[family]);
    if multiset(first[family]) == multiset(second[family]) {
      SameMembers(first[family], second[family]);
    } else {
      assert !SameRowsAndCount(first[family], second[family]);
    }
  }

  /** Same rows as often is never reported, so on settled catalogues the comparison is exact. */
  lemma SettledCataloguesCompareExactly(first: Snapshot, second: Snapshot, families: seq<string>)
    requires Carries(first, families) && forall f | f in families :: Settled(first[f])
    ensures Differences(first, second, families) == [] <==> SameRowsAsOften(first, second, families)
  {
    if Differences(first, second, families) == [] {
      SettledCatalogueDecides(first, second, families);
    }
    if SameRowsAsOften(first, second, families) {
      NoDifferenceIffSame(first, second, families);
      forall f | f in families
        ensures SameFamily(first, second, f)
      {
        SameMembers(first[f], second[f]);
      }
    }
  }

  /** Repeated rows can hide a difference: two policies of one table name in two schemas give one row. */
  lemma RepeatedRowsHide(family: string, x: string, y: string)
    requires x != y
    ensures var first: Snapshot, second: Snapshot := map[family := [x, x, y]], map[family := [x, y, y]];
            FamilyDifference(first, second, family) == [] && multiset(first[family]) != multiset(second[family])
  {
    var first: Snapshot, second: Snapshot := map[family := [x, x, y]], map[family := [x, y, y]];
    FamilyDifferenceNone(first, second, family);
    assert multiset(first[family])[x] == 2 && multiset(second[family])[x] == 1;
  }

  // ---- normalised catalogues -------------------------------------------------------------------

  const LITERAL_FAMILIES := {"schema", "extensions"}

  /** `normaliseCatalogueRows`: the families the history does not create are kept as they are. */
  function NormaliseRows(family: string, rows: seq<string>, applier: string): (r: seq<string>)
    ensures |r| == |rows|
    ensures forall i | 0 <= i < |r| :: r[i] == if family in LITERAL_FAMILIES then rows[i] else Normalised(rows[i], applier)
  {
    if family in LITERAL_FAMILIES then rows
    else seq(|rows|, i requires 0 <= i < |rows| => Normalised(rows[i], applier))
  }

  /** The schema and the extensions are compared literally; in every other family the applier's name gives
      way to the token. */
  lemma LiteralFamiliesAreKept(family: string, rows: seq<string>, applier: string, i: nat)
    requires i < |rows|
    ensures |NormaliseRows(family, rows, applier)| == |rows|
    ensures NormaliseRows(family, rows, applier)[i]
         == if family == "schema" || family == "extensions" then rows[i] else Join(Split(rows[i], applier), "<applier>")
  {
  }

  function NormaliseSnapshot(s: Snapshot, applier: string): Snapshot {
    map family | family in s :: NormaliseRows(family, s[family], applier)
  }

  ghost predicate TokenFree(s: Snapshot) {
    forall family | family in s :: forall x | x in s[family] :: !Contains(x, TOKEN)
  }

  lemma NormalisedMember(s: Snapshot, applier: string, family: string, x: string)
    requires TokenFree(s) && family in s && !Contains(x, TOKEN)
    ensures (if family in LITERAL_FAMILIES then x else Normalised(x, applier)) in NormaliseSnapshot(s, applier)[family]
       <==> x in s[family]
  {
    var rows, normal := s[family], NormaliseSnapshot(s, applier)[family];
    var y := if family in LITERAL_FAMILIES then x else Normalised(x, applier);
    if y in normal {
      var i :| 0 <= i < |normal| && normal[i] == y;
      assert rows[i] in rows;
      NormalisedInjective(rows[i], x, applier);
    }
    if x in rows {
      var i :| 0 <= i < |rows| && rows[i] == x;
      assert normal[i] == y;
    }
  }

  /** For rows without the token, normalising both catalogues under one applier hides no difference
      and makes none. */
  lemma NormalisingHidesNothing(first: Snapshot, second: Snapshot, applier: string, families: seq<string>)
    requires TokenFree(first) && TokenFree(second)
    ensures Differences(NormaliseSnapshot(first, applier), NormaliseSnapshot(second, applier), families) == []
       <==> Differences(first, second, families) == []
  {
    var a, b := NormaliseSnapshot(first, applier), NormaliseSnapshot(second, applier);
    NoDifferenceIffSame(first, second, families);
    NoDifferenceIffSame(a, b, families);
    forall f
      ensures SameFamily(a, b, f) <==> SameFamily(first, second, f)
    {
      NormalisedFamily(first, second, applier, f);
    }
  }

  lemma NormalisedFamily(first: Snapshot, second: Snapshot, applier: string, f: string)
    requires TokenFree(first) && TokenFree(second)
    ensures SameFamily(NormaliseSnapshot(first, applier), NormaliseSnapshot(second, applier), f) <==> SameFamily(first, second, f)
  {
    if f in first && f in second {
      var a, b := NormaliseSnapshot(first, applier), NormaliseSnapshot(second, applier);
      forall x | x in first[f] || x in second[f]
        ensures (if f in LITERAL_FAMILIES then x else Normalised(x, applier)) in a[f] <==> x in first[f]
        ensures (if f in LITERAL_FAMILIES then x else Normalised(x, applier)) in b[f] <==> x in second[f]
      {
        NormalisedMember(first, applier, f, x);
        NormalisedMember(second, applier, f, x);
      }
      if SameFamily(first, second, f) {
        forall y
          ensures y in a[f] <==> y in b[f]
        {
          if y in a[f] {
            var i :| 0 <= i < |a[f]| && a[f][i] == y;
            assert first[f][i] in first[f];
          }
          if y in b[f] {
            var i :| 0 <= i < |b[f]| && b[f][i] == y;
            assert second[f][i] in second[f];
          }
        }
      }
    }
  }
}
