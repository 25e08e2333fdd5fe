/** What the prefix check claims of names, said of the names' own text: leading digits and an underscore,
    or the place in name order. */
module PrefixRange {
  import opened Options
  import opened Text
  import opened Migrations
  import opened Prefix
  import opened AcceptedPrefixes

  /** The name is some digits, an underscore, and anything; `n` is what the digits are worth. */
  ghost predicate Numbers(name: string, n: nat) {
    exists digits, rest :: NumbersWith(name, digits, rest, n)
  }

  ghost predicate NumbersWith(name: string, digits: string, rest: string, n: nat) {
    && digits != "" && (forall i | 0 <= i < |digits| :: '0' <= digits[i] <= '9')
    && name == digits + "_" + rest && n == Worth(digits)
  }

  /** What a row of digits is worth: each digit so many of its power of ten. */
  function Worth(digits: string): nat
    requires forall i | 0 <= i < |digits| :: '0' <= digits[i] <= '9'
  {
    if digits == "" then 0 else Times(digits[0] as int - '0' as int, TenTo(|digits| - 1)) + Worth(digits[1..])
  }

  function TenTo(k: nat): nat {
    if k == 0 then 1 else 10 * TenTo(k - 1)
  }

  function Times(n: nat, p: nat): nat {
    if n == 0 then 0 else p + Times(n - 1, p)
  }

  lemma {:induction false} TimesTen(n: nat, p: nat)
    ensures Times(n, 10 * p) == 10 * Times(n, p)
  {
    if n > 0 {
      TimesTen(n - 1, p);
    }
  }

  lemma {:induction false} TimesOne(n: nat)
    ensures Times(n, 1) == n
  {
    if n > 0 {
      TimesOne(n - 1);
    }
  }

  lemma {:induction false} WorthAppend(digits: string, c: char)
    requires (forall i | 0 <= i < |digits| :: '0' <= digits[i] <= '9') && '0' <= c <= '9'
    ensures forall i | 0 <= i < |digits + [c]| :: '0' <= (digits + [c])[i] <= '9'
    ensures Worth(digits + [c]) == 10 * Worth(digits) + (c as int - '0' as int)
  {
    var longer := digits + [c];
    assert forall i | 0 <= i < |longer| :: '0' <= longer[i] <= '9';
    if digits == "" {
      assert longer[1..] == "" && longer[0] == c;
      TimesOne(c as int - '0' as int);
    } else {
      assert longer[1..] == digits[1..] + [c] && longer[0] == digits[0];
      WorthAppend(digits[1..], c);
      TimesTen(digits[0] as int - '0' as int, TenTo(|digits| - 1));
    }
  }

  lemma {:induction false} WorthIsDecimal(digits: string)
    requires forall i | 0 <= i < |digits| :: '0' <= digits[i] <= '9'
    ensures Worth(digits) == Decimal(digits)
  {
    if digits != "" {
      var front, last := digits[..|digits| - 1], digits[|digits| - 1];
      assert digits == front + [last];
      WorthIsDecimal(front);
      WorthAppend(front, last);
    }
  }

  /** The number the check captures is the one the text spells. */
  lemma NumberOfIff(name: string, n: nat)
    ensures NumberOf(name) == Some(n) <==> Numbers(name, n)
  {
    if NumberOf(name) == Some(n) {
      var k := LeadingDigits(name);
      WorthIsDecimal(name[..k]);
      assert name == name[..k] + "_" + name[k + 1..];
      assert NumbersWith(name, name[..k], name[k + 1..], n);
    }
    if Numbers(name, n) {
      var digits, rest :| NumbersWith(name, digits, rest, n);
      assert name[..|digits|] == digits && name[|digits|] == '_';
      assert forall i | 0 <= i < |digits| :: name[i] == digits[i];
      DigitsThenStop(name, |digits|);
      WorthIsDecimal(digits);
    }
  }

  /** What the prefix claims: a name whose number is within the literal's numbers, or that sorts within
      the literal's names; a literal that starts the history claims everything up to its end. */
  ghost predicate Claims(l: Literal, name: string)
    requires Numbered(l)
  {
    || (exists n: nat :: Numbers(name, n) && (l.open || Head(Start(l)) <= n) && n <= Head(End(l)))
    || (AtMost(name, End(l)) && (l.open || AtMost(Start(l), name)))
  }

  lemma InRangeIffClaims(l: Literal, name: string)
    requires Numbered(l)
    ensures InRange(l, name) <==> Claims(l, name)
  {
    if NumberOf(name).Some? {
      NumberOfIff(name, NumberOf(name).value);
    }
    if n: nat :| Numbers(name, n) && (l.open || Head(Start(l)) <= n) && n <= Head(End(l)) {
      NumberOfIff(name, n);
    }
  }

  /** The file ends in `.sql`. */
  ghost predicate SqlFile(name: string) {
    exists stem :: name == stem + ".sql"
  }

  lemma IsSqlIff(name: string)
    ensures IsSql(name) <==> SqlFile(name)
  {
    if IsSql(name) {
      assert name == name[..|name| - 4] + ".sql";
    }
    if stem :| name == stem + ".sql" {
      assert name[|name| - 4..] == ".sql";
    }
  }

  /** Every `.sql` file on disk the prefix claims is an accepted one. */
  ghost predicate ClaimedFilesAccepted(l: Literal, disk: map<string, string>)
    requires Numbered(l)
  {
    forall f | f in disk && SqlFile(f) && Claims(l, f) :: f in Names(l.entries)
  }

  /** No manifest entry after the prefix has a name it claims. */
  ghost predicate NoneClaimedLater(l: Literal, migrations: seq<Entry>)
    requires Numbered(l)
  {
    forall i | l.offset + |l.entries| <= i < |migrations| :: !Claims(l, migrations[i].name)
  }

  /** The check passes exactly when the accepted files are on disk at their digests, every other file and
      every later manifest entry keeps clear of the accepted numbers and names, the manifest has the
      accepted entries at their places, and its floor is at or past the end. */
  lemma PassesIffClear(l: Literal, tree: Tree)
    requires Numbered(l)
    ensures Check(l, tree) == []
       <==> && DiskAgrees(tree.disk, l.entries) && ClaimedFilesAccepted(l, tree.disk)
            && AtMost(End(l), tree.manifest.frozenThrough)
            && ManifestAgrees(tree.manifest.migrations, l.offset, l.entries) && NoneClaimedLater(l, tree.manifest.migrations)
  {
    PassesIffAccepts(l, tree);
    RangeIffClaimed(l, tree.disk);
    StragglersIffClaimed(l, tree.manifest.migrations);
  }

  lemma RangeIffClaimed(l: Literal, disk: map<string, string>)
    requires Numbered(l)
    ensures RangeAgrees(l, disk) <==> ClaimedFilesAccepted(l, disk)
  {
    if RangeAgrees(l, disk) {
      forall f | f in disk && SqlFile(f) && Claims(l, f)
        ensures f in Names(l.entries)
      {
        IsSqlIff(f);
        InRangeIffClaims(l, f);
      }
    }
    if ClaimedFilesAccepted(l, disk) {
      forall f | f in disk && IsSql(f) && InRange(l, f)
        ensures f in Names(l.entries)
      {
        IsSqlIff(f);
        InRangeIffClaims(l, f);
      }
    }
  }

  lemma StragglersIffClaimed(l: Literal, migrations: seq<Entry>)
    requires Numbered(l)
    ensures NoStragglers(l, migrations) <==> NoneClaimedLater(l, migrations)
  {
    forall i | l.offset + |l.entries| <= i < |migrations|
      ensures InRange(l, migrations[i].name) <==> Claims(l, migrations[i].name)
    {
      InRangeIffClaims(l, migrations[i].name);
    }
  }

  /** A file the prefix does not claim, or that is no `.sql` file, never changes the answer. */
  lemma UnclaimedFileNeverMatters(l: Literal, tree: Tree, file: string, digest: string)
    requires Numbered(l) && !(SqlFile(file) && Claims(l, file))
    ensures Check(l, tree.(disk := tree.disk[file := digest])) == Check(l, tree)
    ensures Check(l, tree.(disk := tree.disk - {file})) == Check(l, tree)
  {
    IsSqlIff(file);
    InRangeIffClaims(l, file);
    LiteralSorted(l);
    OnlyTheRangeMatters(l, tree.(disk := tree.disk[file := digest]), tree);
    OnlyTheRangeMatters(l, tree.(disk := tree.disk - {file}), tree);
  }

  lemma {:induction false} RangeEntriesAppend(l: Literal, later: seq<Entry>, e: Entry)
    requires Numbered(l) && !InRange(l, e.name)
    ensures RangeEntries(l, later + [e]) == RangeEntries(l, later)
  {
    if later == [] {
      assert later + [e] == [e] && [e][1..] == [];
    } else {
      assert (later + [e])[1..] == later[1..] + [e];
      RangeEntriesAppend(l, later[1..], e);
    }
  }

  /** An entry appended to a manifest that already holds the prefix's places never changes the answer,
      unless the prefix claims its name. */
  lemma UnclaimedEntryNeverMatters(l: Literal, tree: Tree, e: Entry)
    requires Numbered(l) && !Claims(l, e.name) && |tree.manifest.migrations| >= l.offset + |l.entries|
    ensures Check(l, tree.(manifest := tree.manifest.(migrations := tree.manifest.migrations + [e]))) == Check(l, tree)
  {
    var a := tree.manifest.migrations;
    var b := a + [e];
    InRangeIffClaims(l, e.name);
    assert Later(l, b) == Later(l, a) + [e];
    RangeEntriesAppend(l, Later(l, a), e);
    assert Window(b, l.offset, |l.entries|) == Window(a, l.offset, |l.entries|);
    OnlyTheRangeMatters(l, tree.(manifest := tree.manifest.(migrations := b)), tree);
  }

  const UNPADDED := "7_x.sql"

  lemma UnpaddedIsSeven()
    ensures SqlFile(UNPADDED) && Numbers(UNPADDED, 7)
  {
    assert UNPADDED == "7_x" + ".sql";
    assert "7"[1..] == "" && TenTo(0) == 1;
    TimesOne(7);
    assert Worth("7") == 7;
    assert NumbersWith(UNPADDED, "7", "x.sql", 7);
  }

  /** An unpadded number is in the range of the prefix that starts the history, wherever it sorts. */
  lemma UnpaddedNumberIsRefused(l: Literal, tree: Tree)
    requires Numbered(l) && l.open && Head(End(l)) >= 7 && UNPADDED in tree.disk
    ensures Check(l, tree) != []
  {
    UnpaddedIsSeven();
    NotFourDigit(l);
    PassesIffClear(l, tree);
  }

  lemma NotFourDigit(l: Literal)
    requires Numbered(l)
    ensures UNPADDED !in Names(l.entries)
  {
    if UNPADDED in Names(l.entries) {
      var i := NameIndex(l.entries, UNPADDED);
    }
  }

  /** So for the accepted Phase 2 prefix. */
  lemma UnpaddedNumberIsRefusedByPhase2(tree: Tree)
    requires UNPADDED in tree.disk
    ensures Numbered(PHASE2) && Check(PHASE2, tree) != []
  {
    LiteralsAreNumbered();
    UnpaddedNumberIsRefused(PHASE2, tree);
  }
}
