/** What is read from an index on does not depend on what comes before it. */
module Suffix {
  import opened Bytes
  import opened Lexical
  import opened Utf8
  import opened UnicodeEsc
  import opened StringLine
  import opened BlockString
  import opened Grammar
  import D = Descent
  import Replay

  /** From i on s holds what t holds from j on. */
  predicate Tail(s: bytes, i: nat, t: bytes, j: nat) {
    i <= |s| && j <= |t| && s[i..] == t[j..]
  }

  lemma At(s: bytes, i: nat, t: bytes, j: nat, n: nat)
    requires Tail(s, i, t, j)
    ensures i <= |s| && j <= |t| && |s| - i == |t| - j
    ensures i + n < |s| ==> s[i + n] == t[j + n]
    ensures i + n <= |s| ==> Tail(s, i + n, t, j + n) && s[i..i + n] == t[j..j + n]
  {
    if i + n <= |s| {
      assert s[i + n..] == s[i..][n..] && t[j + n..] == t[j..][n..];
      assert s[i..i + n] == s[i..][..n] && t[j..j + n] == t[j..][..n];
      if i + n < |s| {
        assert s[i + n] == s[i..][n] && t[j + n] == t[j..][n];
      }
    }
  }

  lemma Prefix(s: bytes, i: nat, t: bytes, j: nat, prefix: bytes)
    requires Tail(s, i, t, j)
    ensures HasPrefixAt(s, i, prefix) == HasPrefixAt(t, j, prefix)
  {
    At(s, i, t, j, |prefix|);
  }

  /** The same is read, and as much. */
  predicate Alike<T(==)>(a: R<T>, i: nat, b: R<T>, j: nat) {
    a.Ok? == b.Ok? && (a.Ok? ==> a.v == b.v && a.next - i == b.next - j)
  }

  // ----- Ignored tokens

  lemma CharacterTail(s: bytes, i: nat, t: bytes, j: nat)
    requires Tail(s, i, t, j) && i < |s|
    ensures j < |t| && SourceCharacterLen(s, i) == SourceCharacterLen(t, j)
    ensures SourceCharacterLen(s, i) > 0 ==> Decode(s, i) == Decode(t, j)
  {
    At(s, i, t, j, 0);
    At(s, i, t, j, 1);
    At(s, i, t, j, 2);
    At(s, i, t, j, 3);
  }

  lemma {:induction false} CommentTail(s: bytes, i: nat, t: bytes, j: nat)
    requires Tail(s, i, t, j)
    ensures CommentEnd(s, i) - i == CommentEnd(t, j) - j
    decreases |s| - i
  {
    hide SourceCharacterLen, Decode, Tail;
    At(s, i, t, j, 0);
    if i < |s| {
      CharacterTail(s, i, t, j);
      var n := SourceCharacterLen(s, i);
      if n > 0 {
        At(s, i, t, j, n);
        CommentTail(s, i + n, t, j + n);
      }
    }
  }

  lemma IgnoredTail(s: bytes, i: nat, t: bytes, j: nat)
    requires Tail(s, i, t, j)
    ensures IgnoredEnd(s, i) - i == IgnoredEnd(t, j) - j
  {
    hide CommentEnd, Tail, HasPrefixAt;
    At(s, i, t, j, 0);
    Prefix(s, i, t, j, BOM);
    if i < |s| {
      At(s, i, t, j, 1);
      CommentTail(s, i + 1, t, j + 1);
    }
  }

  lemma {:induction false} SkipTail(s: bytes, i: nat, t: bytes, j: nat)
    requires Tail(s, i, t, j)
    ensures Skip(s, i) - i == Skip(t, j) - j
    decreases |s| - i
  {
    hide IgnoredEnd, Tail;
    IgnoredTail(s, i, t, j);
    var n := IgnoredEnd(s, i) - i;
    if n > 0 {
      At(s, i, t, j, n);
      SkipTail(s, i + n, t, j + n);
    }
  }

  // ----- Names and numbers

  lemma {:induction false} NameEndTail(s: bytes, i: nat, t: bytes, j: nat)
    requires Tail(s, i, t, j)
    ensures NameEnd(s, i) - i == NameEnd(t, j) - j
    decreases |s| - i
  {
    hide Tail;
    At(s, i, t, j, 0);
    if i < |s| && IsNameCont(s[i]) {
      At(s, i, t, j, 1);
      NameEndTail(s, i + 1, t, j + 1);
    }
  }

  lemma {:induction false} DigitsTail(s: bytes, i: nat, t: bytes, j: nat)
    requires Tail(s, i, t, j)
    ensures DigitsEnd(s, i) - i == DigitsEnd(t, j) - j
    decreases |s| - i
  {
    hide Tail;
    At(s, i, t, j, 0);
    if i < |s| && IsDigit(s[i]) {
      At(s, i, t, j, 1);
      DigitsTail(s, i + 1, t, j + 1);
    }
  }

  lemma NumberEndTail(s: bytes, i: nat, t: bytes, j: nat, isFloat: bool)
    requires Tail(s, i, t, j)
    ensures Alike(NumberEnd(s, i, isFloat), i, NumberEnd(t, j, isFloat), j)
  {
    At(s, i, t, j, 0);
  }

  lemma ExponentTail(s: bytes, i: nat, t: bytes, j: nat)
    requires Tail(s, i, t, j) && i < |s|
    ensures j < |t| && Alike(Exponent(s, i), i, Exponent(t, j), j)
  {
    hide DigitsEnd, Tail;
    At(s, i, t, j, 1);
    var n := if i + 1 < |s| && (s[i + 1] == MINUS || s[i + 1] == PLUS) then 2 else 1;
    At(s, i, t, j, n);
    DigitsTail(s, i + n, t, j + n);
    var m := DigitsEnd(s, i + n) - i;
    At(s, i, t, j, m);
    NumberEndTail(s, i + m, t, j + m, true);
  }

  lemma AfterIntegerTail(s: bytes, i: nat, t: bytes, j: nat)
    requires Tail(s, i, t, j)
    ensures Alike(AfterInteger(s, i), i, AfterInteger(t, j), j)
  {
    hide DigitsEnd, Tail, Exponent, NumberEnd;
    At(s, i, t, j, 0);
    if i < |s| && s[i] == DOT {
      At(s, i, t, j, 1);
      DigitsTail(s, i + 1, t, j + 1);
      var n := DigitsEnd(s, i + 1) - i;
      At(s, i, t, j, n);
      NumberEndTail(s, i + n, t, j + n, true);
      if i + n < |s| {
        ExponentTail(s, i + n, t, j + n);
      }
    } else {
      NumberEndTail(s, i, t, j, false);
      if i < |s| {
        ExponentTail(s, i, t, j);
      }
    }
  }

  lemma NumberTail(s: bytes, i: nat, t: bytes, j: nat)
    requires Tail(s, i, t, j) && i < |s| && (s[i] == MINUS || IsDigit(s[i]))
    ensures j < |t| && t[j] == s[i] && Alike(Number(s, i), i, Number(t, j), j)
  {
    hide DigitsEnd, Tail, AfterInteger;
    At(s, i, t, j, 0);
    var d := if s[i] == MINUS then 1 else 0;
    At(s, i, t, j, d);
    if i + d < |s| {
      At(s, i, t, j, d + 1);
      DigitsTail(s, i + d + 1, t, j + d + 1);
      var n := if s[i + d] == ZERO then d + 1 else DigitsEnd(s, i + d + 1) - i;
      At(s, i, t, j, n);
      AfterIntegerTail(s, i + n, t, j + n);
    }
  }

  // ----- Strings

  lemma {:induction false} HexTail(s: bytes, i: nat, t: bytes, j: nat)
    requires Tail(s, i, t, j)
    ensures HexEnd(s, i) - i == HexEnd(t, j) - j
    decreases |s| - i
  {
    hide Tail;
    At(s, i, t, j, 0);
    if i < |s| && IsHexDigit(s[i]) {
      At(s, i, t, j, 1);
      HexTail(s, i + 1, t, j + 1);
    }
  }

  lemma BracedTail(s: bytes, i: nat, t: bytes, j: nat)
    requires Tail(s, i, t, j) && i + 2 < |s| && s[i + 2] == LBRACE
    ensures j + 2 < |t| && t[j + 2] == LBRACE && Alike(BracedEscape(s, i), i, BracedEscape(t, j), j)
  {
    hide Tail, HexEnd, HexValue;
    At(s, i, t, j, 2);
    At(s, i, t, j, 3);
    HexTail(s, i + 3, t, j + 3);
    var n := HexEnd(s, i + 3) - i;
    At(s, i, t, j, n);
    At(s, i + 3, t, j + 3, n - 3);
  }

  lemma FixedTail(s: bytes, i: nat, t: bytes, j: nat)
    requires Tail(s, i, t, j) && i + 2 < |s|
    ensures j + 2 < |t| && Alike(FixedEscape(s, i), i, FixedEscape(t, j), j)
  {
    assert |s| - i == |t| - j;
    assert forall k: nat :: i + k < |s| ==> s[i + k] == s[i..][k] == t[j..][k] == t[j + k];
    Hex4Tail(s, i, t, j, 2);
    Hex4Tail(s, i, t, j, 8);
    At(s, i, t, j, 6);
    At(s, i, t, j, 7);
    hide IsHex4, Value, Pair, Tail;
  }

  lemma Hex4Tail(s: bytes, i: nat, t: bytes, j: nat, n: nat)
    requires Tail(s, i, t, j)
    ensures IsHex4(s, i + n) == IsHex4(t, j + n)
    ensures IsHex4(s, i + n) ==> Value(s, i + n) == Value(t, j + n)
  {
    hide Tail;
    At(s, i, t, j, n);
    At(s, i, t, j, n + 1);
    At(s, i, t, j, n + 2);
    At(s, i, t, j, n + 3);
  }

  lemma OneTail(s: bytes, i: nat, t: bytes, j: nat)
    requires Tail(s, i, t, j) && i < |s|
    ensures j < |t| && Alike(Character(s, i), i, Character(t, j), j)
  {
    hide Tail, BracedEscape, FixedEscape, SourceCharacterLen, Decode, SimpleEscape;
    At(s, i, t, j, 0);
    At(s, i, t, j, 1);
    At(s, i, t, j, 2);
    CharacterTail(s, i, t, j);
    if i + 2 < |s| {
      FixedTail(s, i, t, j);
      if s[i + 2] == LBRACE {
        BracedTail(s, i, t, j);
      }
    }
  }

  lemma ContentsIs(s: bytes, i: nat)
    requires i < |s| && s[i] != QUOTE
    ensures var r, c := Contents(s, i), Character(s, i);
            if c.Err? then r.Err?
            else
              var rest := Contents(s, c.next);
              if rest.Err? then r.Err? else r == Ok([c.v] + rest.v, rest.next)
  {
    hide Character;
  }

  lemma ContentsEnd(s: bytes, i: nat)
    requires i <= |s| && (i == |s| || s[i] == QUOTE)
    ensures if i == |s| then Contents(s, i).Err? else Contents(s, i) == Ok([], i + 1)
  {
  }

  lemma {:induction false} ContentsTail(s: bytes, i: nat, t: bytes, j: nat)
    requires Tail(s, i, t, j)
    ensures Alike(Contents(s, i), i, Contents(t, j), j)
    decreases |s| - i
  {
    hide Tail, Character, Contents;
    At(s, i, t, j, 0);
    if i == |s| || s[i] == QUOTE {
      ContentsEnd(s, i);
      ContentsEnd(t, j);
    } else {
      OneTail(s, i, t, j);
      ContentsIs(s, i);
      ContentsIs(t, j);
      if Character(s, i).Ok? {
        var n := Character(s, i).next - i;
        At(s, i, t, j, n);
        ContentsTail(s, i + n, t, j + n);
      }
    }
  }

  lemma {:induction false} BlockEndTail(s: bytes, i: nat, t: bytes, j: nat)
    requires Tail(s, i, t, j)
    ensures Alike(BlockEnd(s, i), i, BlockEnd(t, j), j)
    decreases |s| - i
  {
    hide Tail, SourceCharacterLen, Decode, HasPrefixAt;
    At(s, i, t, j, 0);
    Prefix(s, i, t, j, TRIPLE);
    Prefix(s, i, t, j, ESCAPED_TRIPLE);
    if i < |s| && !HasPrefixAt(s, i, TRIPLE) {
      CharacterTail(s, i, t, j);
      var n := if HasPrefixAt(s, i, ESCAPED_TRIPLE) then 4 else SourceCharacterLen(s, i);
      if n > 0 {
        At(s, i, t, j, n);
        BlockEndTail(s, i + n, t, j + n);
      }
    }
  }

  lemma StringTail(s: bytes, i: nat, t: bytes, j: nat)
    requires Tail(s, i, t, j) && i < |s| && s[i] == QUOTE
    ensures j < |t| && t[j] == QUOTE && Alike(D.StringToken(s, i), i, D.StringToken(t, j), j)
  {
    hide Tail, BlockEnd, Contents, Unquote, BlockStringValue, EncodeAll, HasPrefixAt;
    At(s, i, t, j, 0);
    Prefix(s, i, t, j, TRIPLE);
    if HasPrefixAt(s, i, TRIPLE) {
      At(s, i, t, j, 3);
      BlockEndTail(s, i + 3, t, j + 3);
      if BlockEnd(s, i + 3).Ok? {
        At(s, i + 3, t, j + 3, BlockEnd(s, i + 3).next - 3 - (i + 3));
      }
    } else {
      At(s, i, t, j, 1);
      ContentsTail(s, i + 1, t, j + 1);
    }
  }

  // ----- Tokens

  lemma LexTail(s: bytes, i: nat, t: bytes, j: nat)
    requires Tail(s, i, t, j) && i < |s|
    ensures j < |t| && Alike(Lex(s, i), i, Lex(t, j), j)
  {
    hide Tail, Lex, D.Name, Number, D.StringToken, HasPrefixAt;
    At(s, i, t, j, 0);
    Prefix(s, i, t, j, D.ELLIPSIS);
    Replay.LexIs(s, i);
    Replay.LexIs(t, j);
    if IsNameStart(s[i]) {
      NameTail(s, i, t, j);
    } else if s[i] == MINUS || IsDigit(s[i]) {
      NumberTail(s, i, t, j);
      if Number(s, i).Ok? {
        At(s, i, t, j, Number(s, i).next - i);
      }
    } else if s[i] == QUOTE {
      StringTail(s, i, t, j);
    }
  }

  lemma NameTail(s: bytes, i: nat, t: bytes, j: nat)
    requires Tail(s, i, t, j) && i < |s|
    ensures j < |t| && Alike(D.Name(s, i), i, D.Name(t, j), j)
  {
    hide Tail, NameEnd;
    At(s, i, t, j, 0);
    At(s, i, t, j, 1);
    NameEndTail(s, i + 1, t, j + 1);
    At(s, i, t, j, NameEnd(s, i + 1) - i);
  }

  /** The tokens from an index on are those of the text from there on. */
  lemma {:induction false} TokensTail(s: bytes, i: nat, t: bytes, j: nat)
    requires Tail(s, i, t, j)
    ensures Tokens(s, i) == Tokens(t, j)
    decreases |s| - i
  {
    hide Tail, Skip, Lex;
    SkipTail(s, i, t, j);
    var n := Skip(s, i) - i;
    At(s, i, t, j, n);
    if i + n < |s| {
      LexTail(s, i + n, t, j + n);
      if Lex(s, i + n).Ok? {
        var m := Lex(s, i + n).next - i;
        At(s, i, t, j, m);
        TokensTail(s, i + m, t, j + m);
      }
    }
  }
}
