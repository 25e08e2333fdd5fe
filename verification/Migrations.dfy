/** Migration file names, the directory and manifest they live in, and the two ways the gates
    place a name in a range: by string order and by leading number. */
module Migrations {
  import opened Options
  import opened Text

  datatype Entry = Entry(name: string, sha256: string)

  datatype Manifest = Manifest(frozenThrough: string, migrations: seq<Entry>)

  /** `disk` gives the SHA-256 of the bytes of every file in the migrations directory. */
  datatype Tree = Tree(disk: map<string, string>, manifest: Manifest)

  /** The name ends in `.sql`. */
  predicate IsSql(file: string) {
    |file| >= 4 && file[|file| - 4..] == ".sql"
  }

  predicate IsDigit(c: char) { '0' <= c <= '9' }

  function Digit(c: char): nat
    requires IsDigit(c)
  {
    c as int - '0' as int
  }

  function LeadingDigits(s: string): (n: nat)
    ensures n <= |s| && forall i | 0 <= i < n :: IsDigit(s[i])
    ensures n < |s| ==> !IsDigit(s[n])
  {
    if s == "" || !IsDigit(s[0]) then 0 else 1 + LeadingDigits(s[1..])
  }

  function Decimal(s: string): nat
    requires forall i | 0 <= i < |s| :: IsDigit(s[i])
  {
    if s == "" then 0 else 10 * Decimal(s[..|s| - 1]) + Digit(s[|s| - 1])
  }

  /** The number captured by `/^(\d+)_/`, if the name starts that way. */
  function NumberOf(file: string): Option<nat> {
    var n := LeadingDigits(file);
    if 0 < n < |file| && file[n] == '_' then Some(Decimal(file[..n])) else None
  }

  /** A name with a four-digit head: `/^\d{4}_/`. */
  predicate FourDigit(file: string) {
    |file| >= 5 && (forall i | 0 <= i < 4 :: IsDigit(file[i])) && file[4] == '_'
  }

  /** The number such a name's first four characters spell. */
  function Head(file: string): nat
    requires FourDigit(file)
  {
    1000 * Digit(file[0]) + 100 * Digit(file[1]) + 10 * Digit(file[2]) + Digit(file[3])
  }

  lemma {:induction false} DigitsThenStop(s: string, n: nat)
    requires n < |s| && (forall i | 0 <= i < n :: IsDigit(s[i])) && !IsDigit(s[n])
    ensures LeadingDigits(s) == n
  {
    if n > 0 {
      DigitsThenStop(s[1..], n - 1);
    }
  }

  lemma DecimalAppend(s: string, c: char)
    requires (forall i | 0 <= i < |s| :: IsDigit(s[i])) && IsDigit(c)
    ensures Decimal(s + [c]) == 10 * Decimal(s) + Digit(c)
  {
    assert (s + [c])[..|s|] == s;
  }

  /** The two numbers a gate reads from a four-digit name are the same. */
  lemma FourDigitNumber(file: string)
    requires FourDigit(file)
    ensures NumberOf(file) == Some(Head(file))
  {
    DigitsThenStop(file, 4);
    var s := file[..4];
    assert s[..3] == file[..3] && s[..3][..2] == file[..2] && s[..3][..2][..1] == file[..1];
    assert file[..1][..0] == "";
    calc {
      Decimal(s);
      10 * Decimal(file[..3]) + Digit(file[3]);
      { assert file[..3][..2] == file[..2]; }
      10 * (10 * Decimal(file[..2]) + Digit(file[2])) + Digit(file[3]);
      { assert file[..2][..1] == file[..1]; }
      10 * (10 * (10 * Decimal(file[..1]) + Digit(file[1])) + Digit(file[2])) + Digit(file[3]);
      { assert Decimal(file[..1]) == Digit(file[0]); }
      Head(file);
    }
  }

  lemma {:induction false} LessAtFirstDifference(a: string, b: string, k: nat)
    requires k < |a| && k < |b| && a[..k] == b[..k] && Rank(a[k]) < Rank(b[k])
    ensures Less(a, b)
  {
    if k > 0 {
      assert a[0] == a[..k][0] == b[..k][0] == b[0];
      assert a[1..][..k - 1] == a[..k][1..] == b[..k][1..] == b[1..][..k - 1];
      LessAtFirstDifference(a[1..], b[1..], k - 1);
    }
  }

  /** Among four-digit names, a smaller number sorts first. */
  lemma FourDigitOrder(a: string, b: string)
    requires FourDigit(a) && FourDigit(b) && Head(a) < Head(b)
    ensures Less(a, b)
  {
    var k := if a[0] != b[0] then 0 else if a[1] != b[1] then 1 else if a[2] != b[2] then 2 else 3;
    assert a[..k] == b[..k];
    assert a[k] < b[k];
    LessAtFirstDifference(a, b, k);
  }

  // ---- directories -----------------------------------------------------------------------------

  /** The files of a directory in some order. */
  ghost function Enumerate(files: set<string>): (xs: seq<string>)
    ensures Distinct(xs)
    ensures forall x :: x in xs <==> x in files
  {
    if files == {} then []
    else
      var x :| x in files;
      [x] + Enumerate(files - {x})
  }

  /** The files of a directory in name order; `readdirSync` lists them in any order, and every
      caller sorts. */
  ghost function SortedNames(files: set<string>): (xs: seq<string>)
    ensures StrictlySorted(xs) && Distinct(xs)
    ensures forall x :: x in xs <==> x in files
  {
    SortDistinct(Enumerate(files));
    SortSorts(Enumerate(files));
    StrictIsDistinct(Sort(Enumerate(files)));
    Sort(Enumerate(files))
  }

  /** A strictly sorted sequence is the listing of its members. */
  lemma SortedNamesUnique(files: set<string>, xs: seq<string>)
    requires StrictlySorted(xs)
    requires forall x :: x in xs <==> x in files
    ensures SortedNames(files) == xs
  {
    SortToStrict(Enumerate(files), xs);
  }

  /** Sorting any listing of a set of files gives its files in name order. */
  lemma SortListing(files: set<string>, listing: seq<string>)
    requires Distinct(listing)
    requires forall x :: x in listing <==> x in files
    ensures Sort(listing) == SortedNames(files)
  {
    SortToStrict(listing, SortedNames(files));
  }

  ghost predicate Lists(listing: seq<string>, disk: map<string, string>) {
    Distinct(listing) && forall x :: x in listing <==> x in disk
  }
}
