/** Text taken apart at a separator, and put together again. */
module Splitting {
  import opened Options
  import opened Text

  function Characters(text: string): seq<string> {
    if text == "" then [] else [text[..1]] + Characters(text[1..])
  }

  /** The pieces of the text between occurrences of the separator; an empty separator splits into
      characters. */
  function Split(text: string, separator: string): seq<string>
    decreases |text|
  {
    if separator == "" then Characters(text)
    else
      var at := IndexOf(text, separator);
      if at.None? then [text] else [text[..at.value]] + Split(text[at.value + |separator|..], separator)
  }

  lemma JoinCons(part: string, rest: seq<string>, separator: string)
    requires rest != []
    ensures Join([part] + rest, separator) == part + separator + Join(rest, separator)
  {
    assert ([part] + rest)[1..] == rest;
  }

  lemma {:induction false} SplitNotEmpty(text: string, separator: string)
    requires separator != ""
    ensures Split(text, separator) != []
  {
  }

  /** Splitting and joining on the same separator changes nothing. */
  lemma {:induction false} SplitThenJoin(text: string, separator: string)
    ensures Join(Split(text, separator), separator) == text
    decreases |text|
  {
    if separator == "" {
      JoinCharacters(text);
    } else {
      var at := IndexOf(text, separator);
      if at.Some? {
        var rest := text[at.value + |separator|..];
        SplitThenJoin(rest, separator);
        SplitNotEmpty(rest, separator);
        JoinCons(text[..at.value], Split(rest, separator), separator);
        assert text == text[..at.value] + separator + rest;
      }
    }
  }

  lemma JoinFirst(part: string, rest: seq<string>)
    ensures Join([part] + rest, "") == part + Join(rest, "")
  {
    if rest == [] {
      assert [part] + rest == [part] && part + "" == part;
    } else {
      JoinCons(part, rest, "");
      assert part + "" == part;
    }
  }

  lemma {:induction false} JoinCharacters(text: string)
    ensures Join(Characters(text), "") == text
    ensures text != "" ==> Characters(text) != []
    ensures forall p | p in Characters(text) :: |p| == 1
  {
    if text != "" {
      JoinCharacters(text[1..]);
      JoinFirst(text[..1], Characters(text[1..]));
      assert text == text[..1] + text[1..];
    }
  }

  // ---- what pieces hold ---------------------------------------------------------------------------

  lemma StretchHoldsNone(text: string, token: string, from: nat, to: nat)
    requires !Contains(text, token) && from <= to <= |text|
    ensures !Contains(text[from..to], token)
    ensures from == 0 ==> !Contains(text[..to], token)
    ensures to == |text| ==> !Contains(text[from..], token)
  {
    var part := text[from..to];
    assert from == 0 ==> part == text[..to];
    assert to == |text| ==> part == text[from..];
    forall i
      ensures !OccursAt(part, token, i)
    {
      if OccursAt(part, token, i) {
        SliceOfSlice(text, from, to, i, i + |token|);
        assert OccursAt(text, token, from + i);
      }
    }
  }

  /** A piece of a split is a stretch of the text. */
  lemma {:induction false} PiecesHoldNone(text: string, separator: string, token: string)
    requires separator != "" && !Contains(text, token)
    ensures forall p | p in Split(text, separator) :: !Contains(p, token)
    decreases |text|
  {
    var at := IndexOf(text, separator);
    if at.Some? {
      var cut := at.value + |separator|;
      StretchHoldsNone(text, token, 0, at.value);
      StretchHoldsNone(text, token, cut, |text|);
      PiecesHoldNone(text[cut..], separator, token);
    }
  }

  lemma BeforeFirstHoldsNone(text: string, separator: string, at: nat)
    requires separator != "" && IndexOf(text, separator) == Some(at)
    ensures !Contains(text[..at], separator)
  {
    forall i
      ensures !OccursAt(text[..at], separator, i)
    {
      if OccursAt(text[..at], separator, i) {
        SliceOfSlice(text, 0, at, i, i + |separator|);
        assert text[..at] == text[0..at];
        assert OccursAt(text, separator, i);
      }
    }
  }

  ghost predicate NoneHolds(parts: seq<string>, separator: string) {
    forall p | p in parts :: !Contains(p, separator)
  }

  lemma SplitUnfolds(text: string, separator: string)
    requires separator != ""
    ensures var at := IndexOf(text, separator);
            Split(text, separator) == if at.None? then [text] else [text[..at.value]] + Split(text[at.value + |separator|..], separator)
  {
  }

  lemma NoneHoldsCons(whole: seq<string>, first: string, rest: seq<string>, separator: string)
    requires whole == [first] + rest && !Contains(first, separator) && NoneHolds(rest, separator)
    ensures NoneHolds(whole, separator)
  {
  }

  lemma WholeHoldsNone(text: string, separator: string)
    requires IndexOf(text, separator).None?
    ensures NoneHolds([text], separator)
  {
  }

  /** No piece holds the separator: the text is split at every place it can be. */
  lemma {:induction false} PiecesHoldNoSeparator(text: string, separator: string)
    requires separator != ""
    ensures NoneHolds(Split(text, separator), separator)
    decreases |text|
  {
    var at := IndexOf(text, separator);
    SplitUnfolds(text, separator);
    if at.None? {
      WholeHoldsNone(text, separator);
    } else {
      BeforeFirstHoldsNone(text, separator, at.value);
      PiecesHoldNoSeparator(text[at.value + |separator|..], separator);
      NoneHoldsCons(Split(text, separator), text[..at.value], Split(text[at.value + |separator|..], separator), separator);
    }
  }

  // ---- joining, then splitting ---------------------------------------------------------------------

  /** A separator that opens with a character it does not hold again, so that two never overlap. */
  predicate Sharp(token: string) {
    token != "" && forall k | 1 <= k < |token| :: token[k] != token[0]
  }

  lemma OccursWithin(piece: string, more: string, token: string, i: nat)
    requires i + |token| <= |piece|
    ensures OccursAt(piece + more, token, i) <==> OccursAt(piece, token, i)
  {
    assert (piece + more)[i..i + |token|] == piece[i..i + |token|];
  }

  lemma NoOverlap(piece: string, rest: string, token: string, i: nat)
    requires Sharp(token) && i < |piece| < i + |token|
    ensures !OccursAt(piece + token + rest, token, i)
  {
    var text := piece + token + rest;
    assert text[|piece|] == token[0];
    assert i + |token| <= |text| && text[i..i + |token|][|piece| - i] == text[|piece|];
    assert token[|piece| - i] != token[0];
  }

  /** After a token-free piece, the first token in the text is the one put there. */
  lemma TokenAfterPiece(piece: string, rest: string, token: string)
    requires Sharp(token) && !Contains(piece, token)
    ensures IndexOf(piece + token + rest, token) == Some(|piece|)
  {
    var text := piece + token + rest;
    assert text == piece + (token + rest);
    assert OccursAt(text, token, |piece|);
    forall i: nat | i < |piece|
      ensures !OccursAt(text, token, i)
    {
      if i + |token| <= |piece| {
        OccursWithin(piece, token + rest, token, i);
      } else {
        NoOverlap(piece, rest, token, i);
      }
    }
  }

  lemma SplitAtToken(piece: string, tail: string, token: string)
    requires Sharp(token) && !Contains(piece, token)
    ensures Split(piece + token + tail, token) == [piece] + Split(tail, token)
  {
    var text := piece + token + tail;
    TokenAfterPiece(piece, tail, token);
    assert text[..|piece|] == piece && text[|piece| + |token|..] == tail;
  }

  /** Pieces without the token, joined by the token, are read back exactly. */
  lemma {:induction false} JoinThenSplit(pieces: seq<string>, token: string)
    requires Sharp(token) && pieces != [] && forall p | p in pieces :: !Contains(p, token)
    ensures Split(Join(pieces, token), token) == pieces
  {
    var first, rest := pieces[0], pieces[1..];
    assert first in pieces && forall p | p in rest :: p in pieces;
    if rest == [] {
      assert pieces == [first];
    } else {
      JoinThenSplit(rest, token);
      SplitAtToken(first, Join(rest, token), token);
      assert pieces == [first] + rest;
    }
  }

  lemma LacksCharacter(text: string, c: char)
    requires c !in text
    ensures !Contains(text, [c])
  {
    forall i
      ensures !OccursAt(text, [c], i)
    {
      if 0 <= i < |text| {
        assert text[i..i + |[c]|][0] == text[i];
      }
    }
  }
}
