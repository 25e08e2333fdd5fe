/** The order of `Text.Less` is the scripting language's own: lexicographic on UTF-16 code units. */
module StringOrder {
  import opened Text

  /** The code units of one character: itself, or a surrogate pair. */
  function UnitsOf(c: char): seq<int> {
    var n := c as int;
    if n < 0x1_0000 then [n]
    else [0xD800 + (n - 0x1_0000) / 0x400, 0xDC00 + (n - 0x1_0000) % 0x400]
  }

  function Units(s: string): seq<int> {
    if s == "" then [] else UnitsOf(s[0]) + Units(s[1..])
  }

  predicate UnitsLess(a: seq<int>, b: seq<int>) {
    b != [] && (a == [] || a[0] < b[0] || (a[0] == b[0] && UnitsLess(a[1..], b[1..])))
  }

  lemma FirstDecides(x: int, a: seq<int>, y: int, b: seq<int>)
    ensures UnitsLess([x] + a, [y] + b) <==> x < y || (x == y && UnitsLess(a, b))
  {
    assert ([x] + a)[1..] == a && ([y] + b)[1..] == b;
  }

  /** The code units of one character, and those after it. */
  lemma CharacterFirst(c: char, rest: seq<int>)
    ensures var u := UnitsOf(c) + rest;
            u == if |UnitsOf(c)| == 1 then [UnitsOf(c)[0]] + rest else [UnitsOf(c)[0]] + ([UnitsOf(c)[1]] + rest)
  {
  }

  lemma RankIsUnitOrder(c: char, d: char)
    requires c != d
    ensures Rank(c) < Rank(d)
       <==> UnitsOf(c)[0] < UnitsOf(d)[0]
            || (UnitsOf(c)[0] == UnitsOf(d)[0] && |UnitsOf(c)| == 2 && UnitsOf(c)[1] < UnitsOf(d)[1])
    ensures UnitsOf(c)[0] == UnitsOf(d)[0] ==> |UnitsOf(c)| == |UnitsOf(d)| == 2 && UnitsOf(c)[1] != UnitsOf(d)[1]
  {
  }

  lemma SameCharacter(c: char, a: seq<int>, b: seq<int>)
    ensures UnitsLess(UnitsOf(c) + a, UnitsOf(c) + b) <==> UnitsLess(a, b)
  {
    var u := UnitsOf(c);
    CharacterFirst(c, a);
    CharacterFirst(c, b);
    if |u| == 1 {
      FirstDecides(u[0], a, u[0], b);
    } else {
      FirstDecides(u[0], [u[1]] + a, u[0], [u[1]] + b);
      FirstDecides(u[1], a, u[1], b);
    }
  }

  lemma OtherCharacter(c: char, a: seq<int>, d: char, b: seq<int>)
    requires c != d
    ensures UnitsLess(UnitsOf(c) + a, UnitsOf(d) + b) <==> Rank(c) < Rank(d)
  {
    var u, v := UnitsOf(c), UnitsOf(d);
    RankIsUnitOrder(c, d);
    CharacterFirst(c, a);
    CharacterFirst(d, b);
    var x := if |u| == 1 then a else [u[1]] + a;
    var y := if |v| == 1 then b else [v[1]] + b;
    FirstDecides(u[0], x, v[0], y);
    if u[0] == v[0] {
      FirstDecides(u[1], a, v[1], b);
    }
  }

  /** `Less` is the order of the code units. */
  lemma {:induction false} LessIsUnitOrder(a: string, b: string)
    ensures Less(a, b) <==> UnitsLess(Units(a), Units(b))
  {
    if a != "" && b != "" {
      LessIsUnitOrder(a[1..], b[1..]);
      if a[0] == b[0] {
        SameCharacter(a[0], Units(a[1..]), Units(b[1..]));
      } else {
        OtherCharacter(a[0], Units(a[1..]), b[0], Units(b[1..]));
      }
    }
  }
}
