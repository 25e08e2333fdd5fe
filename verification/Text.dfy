/** Strings as the repository's scripts handle them: the order of `<` and `sort`, and `join`. */
module Text {
  import opened Options

  /** Rank of a character in UTF-16 code unit order: supplementary characters (surrogate pairs,
      0xD800 onwards) come before U+E000..U+FFFF. */
  function Rank(c: char): int {
    var n := c as int;
    if n < 0xD800 then n
    else if n >= 0x1_0000 then n - 0x1_0000 + 0xD800
    else n + 0x10_0000
  }

  /** The scripts' `a < b`. */
  predicate Less(a: string, b: string) {
    b != "" && (a == "" || Rank(a[0]) < Rank(b[0]) || (a[0] == b[0] && Less(a[1..], b[1..])))
  }

  /** The scripts' `a <= b`. */
  predicate AtMost(a: string, b: string) {
    a == b || Less(a, b)
  }

  lemma {:induction false} LessTrichotomy(a: string, b: string)
    ensures Less(a, b) || a == b || Less(b, a)
    ensures !(Less(a, b) && (a == b || Less(b, a)))
  {
    if a != "" && b != "" {
      LessTrichotomy(a[1..], b[1..]);
      assert a == [a[0]] + a[1..] && b == [b[0]] + b[1..];
    }
  }

  lemma {:induction false} LessTransitive(a: string, b: string, c: string)
    requires Less(a, b) && Less(b, c)
    ensures Less(a, c)
  {
    if a != "" && a[0] == b[0] == c[0] {
      LessTransitive(a[1..], b[1..], c[1..]);
    }
  }

  /** `<=` is a total order. */
  lemma AtMostTotal(a: string, b: string)
    ensures AtMost(a, b) <==> !Less(b, a)
    ensures AtMost(a, b) && AtMost(b, a) ==> a == b
  {
    LessTrichotomy(a, b);
  }

  lemma AtMostTransitive(a: string, b: string, c: string)
    requires AtMost(a, b) && AtMost(b, c)
    ensures AtMost(a, c)
    ensures Less(a, b) || Less(b, c) ==> Less(a, c)
  {
    if Less(a, b) && Less(b, c) {
      LessTransitive(a, b, c);
    }
  }

  // ---- sorting -------------------------------------------------------------------------------

  ghost predicate SortedBy<T>(key: T -> string, xs: seq<T>) {
    forall i, j | 0 <= i < j < |xs| :: AtMost(key(xs[i]), key(xs[j]))
  }

  function InsertBy<T>(key: T -> string, x: T, xs: seq<T>): seq<T> {
    if xs == [] || AtMost(key(x), key(xs[0])) then [x] + xs
    else [xs[0]] + InsertBy(key, x, xs[1..])
  }

  /** A stable sort by `key`, as the scripts' `sort`. */
  function SortBy<T>(key: T -> string, xs: seq<T>): seq<T> {
    if xs == [] then [] else InsertBy(key, xs[0], SortBy(key, xs[1..]))
  }

  function Self(s: string): string { s }

  function Sort(xs: seq<string>): seq<string> { SortBy(Self, xs) }

  ghost predicate Sorted(xs: seq<string>) { SortedBy(Self, xs) }

  ghost predicate StrictlySorted(xs: seq<string>) {
    forall i, j | 0 <= i < j < |xs| :: Less(xs[i], xs[j])
  }

  ghost predicate Distinct<T>(xs: seq<T>) {
    forall i, j | 0 <= i < j < |xs| :: xs[i] != xs[j]
  }

  lemma {:induction false} InsertBySorts<T>(key: T -> string, x: T, xs: seq<T>)
    requires SortedBy(key, xs)
    ensures SortedBy(key, InsertBy(key, x, xs))
    ensures multiset(InsertBy(key, x, xs)) == multiset{x} + multiset(xs)
  {
    if xs == [] {
    } else if AtMost(key(x), key(xs[0])) {
      forall j | 0 <= j < |xs|
        ensures AtMost(key(x), key(xs[j]))
      {
        AtMostTransitive(key(x), key(xs[0]), key(xs[j]));
      }
    } else {
      InsertBySorts(key, x, xs[1..]);
      AtMostTotal(key(x), key(xs[0]));
      var rest := InsertBy(key, x, xs[1..]);
      assert xs == [xs[0]] + xs[1..];
      forall j | 0 <= j < |rest|
        ensures AtMost(key(xs[0]), key(rest[j]))
      {
        assert rest[j] in multiset(rest);
        assert rest[j] == x || rest[j] in xs[1..];
      }
    }
  }

  lemma {:induction false} SortBySorts<T>(key: T -> string, xs: seq<T>)
    ensures SortedBy(key, SortBy(key, xs))
    ensures multiset(SortBy(key, xs)) == multiset(xs)
  {
    if xs != [] {
      SortBySorts(key, xs[1..]);
      InsertBySorts(key, xs[0], SortBy(key, xs[1..]));
      assert xs == [xs[0]] + xs[1..];
    }
  }

  lemma Reassociate<T>(a: seq<T>, b: seq<T>, c: seq<T>)
    ensures (a + b) + c == a + (b + c)
  {
  }

  lemma SameMembers<T>(xs: seq<T>, ys: seq<T>)
    requires multiset(xs) == multiset(ys)
    ensures |xs| == |ys|
    ensures forall x :: x in xs <==> x in ys
  {
    assert |multiset(xs)| == |multiset(ys)|;
    forall x ensures x in xs <==> x in ys {
      assert x in multiset(xs) <==> x in multiset(ys);
    }
  }

  lemma SortedHead<T>(key: T -> string, xs: seq<T>, ys: seq<T>)
    requires SortedBy(key, xs) && SortedBy(key, ys) && xs != []
    requires multiset(xs) == multiset(ys)
    ensures ys != [] && ys[0] in xs && key(xs[0]) == key(ys[0])
  {
    SameMembers(xs, ys);
    assert xs[0] in ys && ys[0] in xs;
    AtMostTotal(key(xs[0]), key(ys[0]));
  }

  lemma DropHead<T>(xs: seq<T>, x: T)
    requires xs != [] && xs[0] == x
    ensures multiset(xs[1..]) == multiset(xs) - multiset{x}
  {
    assert xs == [x] + xs[1..];
  }

  lemma TailKeeps<T>(key: T -> string, xs: seq<T>)
    requires SortedBy(key, xs) && xs != []
    ensures SortedBy(key, xs[1..]) && (KeyDetermines(key, xs) ==> KeyDetermines(key, xs[1..]))
  {
    assert forall x | x in xs[1..] :: x in xs;
  }

  /** Two orderings of the same rows, both sorted by a key no two rows share, are the same. */
  lemma {:induction false} SortedUnique<T>(key: T -> string, xs: seq<T>, ys: seq<T>)
    requires SortedBy(key, xs) && SortedBy(key, ys)
    requires multiset(xs) == multiset(ys)
    requires KeyDetermines(key, xs)
    ensures xs == ys
  {
    SameMembers(xs, ys);
    if xs != [] {
      SortedHead(key, xs, ys);
      DropHead(xs, xs[0]);
      DropHead(ys, xs[0]);
      TailKeeps(key, xs);
      TailKeeps(key, ys);
      SortedUnique(key, xs[1..], ys[1..]);
      assert xs == [xs[0]] + xs[1..] && ys == [ys[0]] + ys[1..];
    }
  }

  ghost predicate KeyDetermines<T>(key: T -> string, xs: seq<T>) {
    forall x, y | x in xs && y in xs && key(x) == key(y) :: x == y
  }

  /** What `sort` returns: its input reordered, in order. */
  lemma SortSorts(xs: seq<string>)
    ensures Sorted(Sort(xs)) && multiset(Sort(xs)) == multiset(xs)
    ensures |Sort(xs)| == |xs|
    ensures forall x :: x in Sort(xs) <==> x in xs
  {
    SortBySorts(Self, xs);
    SameMembers(Sort(xs), xs);
  }

  lemma SortIsUnique(xs: seq<string>, sorted: seq<string>)
    requires Sorted(sorted) && multiset(sorted) == multiset(xs)
    ensures Sort(xs) == sorted
  {
    SortSorts(xs);
    SortedUnique(Self, Sort(xs), sorted);
  }

  lemma {:induction false} DistinctMultiset<T>(xs: seq<T>)
    requires Distinct(xs)
    ensures forall x :: multiset(xs)[x] == if x in xs then 1 else 0
  {
    if xs != [] {
      DistinctMultiset(xs[1..]);
      assert xs == [xs[0]] + xs[1..];
    }
  }

  /** Two duplicate-free sequences with the same members are permutations of each other. */
  lemma DistinctSameMembers<T>(xs: seq<T>, ys: seq<T>)
    requires Distinct(xs) && Distinct(ys)
    requires forall x :: x in xs <==> x in ys
    ensures multiset(xs) == multiset(ys)
    ensures |xs| == |ys|
  {
    DistinctMultiset(xs);
    DistinctMultiset(ys);
    SameMembers(xs, ys);
  }

  /** A duplicate-free sequence is sorted to the one strictly increasing sequence of its members. */
  lemma SortToStrict(xs: seq<string>, sorted: seq<string>)
    requires Distinct(xs) && StrictlySorted(sorted)
    requires forall x :: x in xs <==> x in sorted
    ensures Sort(xs) == sorted
  {
    StrictIsDistinct(sorted);
    DistinctSameMembers(xs, sorted);
    SortIsUnique(xs, sorted);
  }

  lemma StrictIsDistinct(xs: seq<string>)
    requires StrictlySorted(xs)
    ensures Distinct(xs) && Sorted(xs)
  {
    forall i, j | 0 <= i < j < |xs|
      ensures xs[i] != xs[j]
    {
      LessTrichotomy(xs[i], xs[j]);
    }
  }

  lemma SortDistinct(xs: seq<string>)
    requires Distinct(xs)
    ensures StrictlySorted(Sort(xs))
  {
    SortSorts(xs);
    var s := Sort(xs);
    DistinctMultiset(xs);
    MultisetDistinct(s);
    forall i, j | 0 <= i < j < |s|
      ensures Less(s[i], s[j])
    {
      assert AtMost(Self(s[i]), Self(s[j]));
    }
  }

  lemma {:induction false} MultisetDistinct<T>(xs: seq<T>)
    requires forall x :: multiset(xs)[x] <= 1
    ensures Distinct(xs)
  {
    if xs != [] {
      assert xs == [xs[0]] + xs[1..];
      assert multiset(xs) == multiset{xs[0]} + multiset(xs[1..]);
      assert multiset(xs)[xs[0]] == 1 + multiset(xs[1..])[xs[0]];
      forall x ensures multiset(xs[1..])[x] <= 1 {
        assert multiset(xs)[x] <= 1;
      }
      assert xs[0] !in multiset(xs[1..]);
      MultisetDistinct(xs[1..]);
    }
  }

  function Members<T>(xs: seq<T>): set<T> {
    set x | x in xs
  }

  lemma DistinctCons<T>(xs: seq<T>)
    requires xs != []
    ensures Distinct(xs) <==> xs[0] !in xs[1..] && Distinct(xs[1..])
  {
    assert forall i | 1 <= i < |xs| :: xs[i] == xs[1..][i - 1];
    if Distinct(xs) {
      assert forall i | 0 <= i < |xs[1..]| :: xs[1..][i] == xs[i + 1];
    }
  }

  /** A sequence is as long as its set of members exactly when it repeats none. */
  lemma {:induction false} MembersCount<T>(xs: seq<T>)
    ensures |Members(xs)| <= |xs|
    ensures |Members(xs)| == |xs| <==> Distinct(xs)
  {
    if xs == [] {
      assert Members(xs) == {};
    } else {
      MembersCount(xs[1..]);
      assert xs == [xs[0]] + xs[1..];
      assert Members(xs) == {xs[0]} + Members(xs[1..]);
      DistinctCons(xs);
    }
  }

  // ---- join ----------------------------------------------------------------------------------

  function Join(parts: seq<string>, separator: string): string {
    if parts == [] then ""
    else if |parts| == 1 then parts[0]
    else parts[0] + separator + Join(parts[1..], separator)
  }

  /** A line that ends where `text` has a newline is at least as long as any newline-free prefix. */
  lemma LineBound(text: string, x: string, y: string)
    requires |x| < |text| ==> text[|x|] == '\n'
    requires |y| <= |text| && text[..|y|] == y && '\n' !in y
    ensures |y| <= |x| || |x| >= |text|
  {
  }

  /** Lines joined with a newline can be read back when no line is empty or holds a newline. */
  lemma {:induction false} JoinLinesInjective(xs: seq<string>, ys: seq<string>)
    requires forall x | x in xs :: x != "" && '\n' !in x
    requires forall y | y in ys :: y != "" && '\n' !in y
    requires Join(xs, "\n") == Join(ys, "\n")
    ensures xs == ys
  {
    if xs != [] { FirstLine(xs); assert xs[0] in xs; }
    if ys != [] { FirstLine(ys); assert ys[0] in ys; }
    if xs != [] && ys != [] {
      var x, y := xs[0], ys[0];
      var text := Join(xs, "\n");
      LineBound(text, x, y);
      LineBound(text, y, x);
      assert x == y;
      if |xs| > 1 {
        assert forall z | z in xs[1..] :: z in xs;
        assert forall z | z in ys[1..] :: z in ys;
        JoinLinesInjective(xs[1..], ys[1..]);
        assert xs == [x] + xs[1..] && ys == [y] + ys[1..];
      }
    }
  }

  lemma FirstLine(xs: seq<string>)
    requires xs != []
    ensures var text := Join(xs, "\n");
            && |text| >= |xs[0]| && text[..|xs[0]|] == xs[0]
            && (|xs| == 1 <==> |text| == |xs[0]|)
            && (|xs| > 1 ==> text[|xs[0]|] == '\n' && text[|xs[0]| + 1..] == Join(xs[1..], "\n"))
  {
    if |xs| > 1 {
      var tail := Join(xs[1..], "\n");
      assert Join(xs, "\n") == xs[0] + "\n" + tail;
    }
  }

  // ---- filtering -------------------------------------------------------------------------------

  /** The elements of the first sequence that are not in the second, in order. */
  function Without(xs: seq<string>, ys: seq<string>): (r: seq<string>)
    ensures forall x :: x in r <==> x in xs && x !in ys
  {
    if xs == [] then [] else (if xs[0] in ys then [] else [xs[0]]) + Without(xs[1..], ys)
  }

  /** What is in the one list and not in the other, each as often and in the order it comes. */
  ghost predicate Kept(xs: seq<string>, ys: seq<string>, kept: seq<string>)
    decreases |xs|
  {
    if xs == [] then kept == []
    else if xs[|xs| - 1] in ys then Kept(xs[..|xs| - 1], ys, kept)
    else kept != [] && kept[|kept| - 1] == xs[|xs| - 1] && Kept(xs[..|xs| - 1], ys, kept[..|kept| - 1])
  }

  lemma {:induction false} WithoutAppend(xs: seq<string>, x: string, ys: seq<string>)
    ensures Without(xs + [x], ys) == Without(xs, ys) + if x in ys then [] else [x]
  {
    if xs == [] {
      assert xs + [x] == [x] && [x][1..] == [];
    } else {
      assert (xs + [x])[1..] == xs[1..] + [x];
      WithoutAppend(xs[1..], x, ys);
    }
  }

  lemma {:induction false} WithoutKeeps(xs: seq<string>, ys: seq<string>, kept: seq<string>)
    ensures kept == Without(xs, ys) <==> Kept(xs, ys, kept)
    decreases |xs|
  {
    if xs != [] {
      var front, last := xs[..|xs| - 1], xs[|xs| - 1];
      assert xs == front + [last];
      WithoutAppend(front, last, ys);
      if last in ys {
        WithoutKeeps(front, ys, kept);
      } else if kept != [] {
        WithoutKeeps(front, ys, kept[..|kept| - 1]);
        assert kept == kept[..|kept| - 1] + [kept[|kept| - 1]];
      }
    }
  }

  // ---- searching -------------------------------------------------------------------------------

  predicate OccursAt(text: string, part: string, i: int) {
    0 <= i <= |text| - |part| && text[i..i + |part|] == part
  }

  ghost predicate Contains(text: string, part: string) {
    exists i :: OccursAt(text, part, i)
  }

  /** Where the part first occurs in the text at or after `from`. */
  function IndexFrom(text: string, part: string, from: nat): (at: Option<nat>)
    ensures at.Some? ==> from <= at.value && OccursAt(text, part, at.value)
    decreases |text| - from
  {
    if from + |part| > |text| then None
    else if OccursAt(text, part, from) then Some(from)
    else IndexFrom(text, part, from + 1)
  }

  /** The search skips no occurrence. */
  lemma {:induction false} IndexFromSkipsNone(text: string, part: string, from: nat, i: nat)
    requires from <= i && OccursAt(text, part, i)
    ensures var at := IndexFrom(text, part, from); at.Some? && at.value <= i
    decreases |text| - from
  {
    if !OccursAt(text, part, from) {
      IndexFromSkipsNone(text, part, from + 1, i);
    }
  }

  function IndexOf(text: string, part: string): (at: Option<nat>)
    ensures at.Some? ==> OccursAt(text, part, at.value) && forall i | 0 <= i < at.value :: !OccursAt(text, part, i)
    ensures at.None? ==> !Contains(text, part)
  {
    assert forall i: nat | OccursAt(text, part, i) :: IndexFrom(text, part, 0).Some? && IndexFrom(text, part, 0).value <= i by {
      forall i: nat | OccursAt(text, part, i)
        ensures IndexFrom(text, part, 0).Some? && IndexFrom(text, part, 0).value <= i
      {
        IndexFromSkipsNone(text, part, 0, i);
      }
    }
    IndexFrom(text, part, 0)
  }

  lemma SliceOfSlice(text: string, from: nat, to: nat, i: nat, j: nat)
    requires from <= to <= |text| && i <= j <= to - from
    ensures text[from..to][i..j] == text[from + i..from + j]
  {
    var a, b := text[from..to][i..j], text[from + i..from + j];
    forall k | 0 <= k < |a|
      ensures a[k] == b[k]
    {
      assert text[from..to][i + k] == text[from + (i + k)];
    }
    assert |a| == |b|;
  }
}
