/**
 What a token is depends on its own bytes and the one byte after it, so a source may be cut
 after a token and go on differently.
 */
module Locality {
  import opened Bytes
  import opened Lexical
  import opened Utf8
  import opened UnicodeEsc
  import opened StringLine
  import opened BlockString
  import opened Numbers
  import opened Grammar
  import D = Descent
  import Soundness

  predicate SameTo(s: bytes, t: bytes, q: nat) {
    q <= |s| && q <= |t| && forall k | 0 <= k < q :: s[k] == t[k]
  }

  /** The byte does not make a token before it longer. */
  predicate IsApart(b: byte) { !IsNameCont(b) && b != DOT && b != QUOTE }

  predicate IsVisible(b: byte) { 0x20 < b < 0x80 && b != COMMA && b != HASH }

  /** The first q bytes are the same, and what follows them in t ends the tokens it ends in s. */
  predicate Agree(s: bytes, t: bytes, q: nat) {
    && SameTo(s, t, q)
    && (q < |s| ==> IsVisible(s[q]))
    && (q < |t| ==> !IsCont(t[q]) && (IsApart(t[q]) || (q < |s| && t[q] == s[q])))
  }

  lemma SameSlice(s: bytes, t: bytes, q: nat, i: nat, j: nat)
    requires SameTo(s, t, q) && i <= j <= q
    ensures s[i..j] == t[i..j]
  {
  }

  lemma SamePrefix(s: bytes, t: bytes, q: nat, i: nat, prefix: bytes)
    requires SameTo(s, t, q) && i + |prefix| <= q
    ensures HasPrefixAt(s, i, prefix) == HasPrefixAt(t, i, prefix)
  {
    SameSlice(s, t, q, i, i + |prefix|);
  }

  // ----- Strings

  lemma CharacterLenSame(s: bytes, t: bytes, q: nat, i: nat)
    requires SameTo(s, t, q) && i < q && 0 < SourceCharacterLen(s, i) <= q - i
    ensures SourceCharacterLen(t, i) == SourceCharacterLen(s, i) && Decode(t, i) == Decode(s, i)
  {
  }

  lemma HexEndSame(s: bytes, t: bytes, q: nat, i: nat)
    requires SameTo(s, t, q) && i < q && HexEnd(s, i) < q
    ensures HexEnd(t, i) == HexEnd(s, i)
    decreases |s| - i
  {
    if HexEnd(s, i) > i {
      HexEndSame(s, t, q, i + 1);
    }
  }

  lemma CharacterSame(s: bytes, t: bytes, q: nat, i: nat)
    requires SameTo(s, t, q) && i < q && Character(s, i).Ok? && Character(s, i).next <= q
    ensures Character(t, i) == Character(s, i)
  {
    hide SourceCharacterLen, Decode, HexEnd, HexValue;
    if s[i] == BACKSLASH {
      if SimpleEscape(s[i + 1]).None? {
        if s[i + 2] == LBRACE {
          HexEndSame(s, t, q, i + 3);
          SameSlice(s, t, q, i + 3, HexEnd(s, i + 3));
        }
      }
    } else {
      CharacterLenSame(s, t, q, i);
    }
  }

  lemma {:induction false} ContentsSame(s: bytes, t: bytes, q: nat, i: nat)
    requires SameTo(s, t, q) && i <= q && Contents(s, i).Ok? && Contents(s, i).next <= q
    ensures Contents(t, i) == Contents(s, i)
    decreases |s| - i
  {
    hide Character;
    if s[i] != QUOTE {
      CharacterSame(s, t, q, i);
      ContentsSame(s, t, q, Character(s, i).next);
    }
  }

  lemma {:induction false} BlockEndSame(s: bytes, t: bytes, q: nat, i: nat)
    requires SameTo(s, t, q) && i <= q && BlockEnd(s, i).Ok? && BlockEnd(s, i).next <= q
    ensures BlockEnd(t, i) == BlockEnd(s, i)
    decreases |s| - i
  {
    hide SourceCharacterLen, Decode, HasPrefixAt;
    SamePrefix(s, t, q, i, TRIPLE);
    if !HasPrefixAt(s, i, TRIPLE) {
      if HasPrefixAt(s, i, ESCAPED_TRIPLE) {
        BlockEndSame(s, t, q, i + 4);
        SamePrefix(s, t, q, i, ESCAPED_TRIPLE);
      } else {
        CharacterLenSame(s, t, q, i);
        BlockEndSame(s, t, q, i + SourceCharacterLen(s, i));
        SamePrefix(s, t, q, i, ESCAPED_TRIPLE);
      }
    }
  }

  lemma TripleIs(s: bytes, i: nat)
    requires i <= |s|
    ensures HasPrefixAt(s, i, TRIPLE) <==> i + 2 < |s| && s[i] == QUOTE && s[i + 1] == QUOTE && s[i + 2] == QUOTE
  {
    if i + 3 <= |s| {
      var t := s[i..i + 3];
      assert t[0] == s[i] && t[1] == s[i + 1] && t[2] == s[i + 2];
      assert t == [t[0], t[1], t[2]];
    }
  }

  /** Whether three quotes open the string can be told within it and from what follows it. */
  lemma TripleSame(s: bytes, t: bytes, q: nat, i: nat)
    requires Agree(s, t, q) && i < q && s[i] == QUOTE && D.StringToken(s, i).Ok? && D.StringToken(s, i).next <= q
    ensures HasPrefixAt(s, i, TRIPLE) == HasPrefixAt(t, i, TRIPLE)
  {
    hide BlockEnd, Contents;
    if i + 3 <= q {
      SamePrefix(s, t, q, i, TRIPLE);
    } else {
      TripleIs(s, i);
      TripleIs(t, i);
    }
  }

  lemma StringSame(s: bytes, t: bytes, q: nat, i: nat)
    requires Agree(s, t, q) && i < q && s[i] == QUOTE && D.StringToken(s, i).Ok? && D.StringToken(s, i).next <= q
    ensures t[i] == QUOTE && D.StringToken(t, i) == D.StringToken(s, i)
  {
    hide BlockEnd, Contents, BlockStringValue, Unquote, EncodeAll;
    TripleSame(s, t, q, i);
    if HasPrefixAt(s, i, TRIPLE) {
      BlockEndSame(s, t, q, i + 3);
      SameSlice(s, t, q, i + 3, BlockEnd(s, i + 3).next - 3);
    } else {
      ContentsSame(s, t, q, i + 1);
    }
  }

  // ----- Tokens

  lemma NameSame(s: bytes, t: bytes, q: nat, i: nat)
    requires Agree(s, t, q) && i < q && D.Name(s, i).Ok? && D.Name(s, i).next <= q
    ensures D.Name(t, i) == D.Name(s, i)
  {
    var n := D.Name(s, i).next;
    NameEndIs(s, i + 1);
    NameReach(t, i + 1, n);
    SameSlice(s, t, q, i, n);
  }

  lemma NumberSame(s: bytes, t: bytes, q: nat, i: nat)
    requires Agree(s, t, q) && i < q && (s[i] == MINUS || IsDigit(s[i])) && Number(s, i).Ok? && Number(s, i).next <= q
    ensures (t[i] == MINUS || IsDigit(t[i])) && Number(t, i) == Number(s, i)
  {
    hide Number, IsNumberText;
    var n := Number(s, i);
    NumberAlone(s, i);
    NumberIs(s, i, n.next, n.v);
    SameSlice(s, t, q, i, n.next);
    NumberPlaced(t, i, n.next, n.v);
  }

  /** A token that ends by q is read in t as well. */
  lemma LexSame(s: bytes, t: bytes, q: nat, i: nat)
    requires Agree(s, t, q) && i < q && Lex(s, i).Ok? && Lex(s, i).next <= q
    ensures Lex(t, i) == Lex(s, i)
  {
    hide Number, D.StringToken, NameEnd;
    Soundness.FirstByte(s, i, D.ELLIPSIS);
    Soundness.FirstByte(t, i, D.ELLIPSIS);
    assert s[i] == t[i];
    if IsPunctuator(s[i]) {
    } else if HasPrefixAt(s, i, D.ELLIPSIS) {
      SamePrefix(s, t, q, i, D.ELLIPSIS);
    } else if IsNameStart(s[i]) {
      NameSame(s, t, q, i);
    } else if s[i] == MINUS || IsDigit(s[i]) {
      NumberSame(s, t, q, i);
      SameSlice(s, t, q, i, Number(s, i).next);
    } else {
      StringSame(s, t, q, i);
    }
  }

  // ----- Ignored tokens

  lemma BytesOfCharacterSame(s: bytes, t: bytes, q: nat, i: nat)
    requires Agree(s, t, q) && i < q
    ensures SourceCharacterLen(s, i) == SourceCharacterLen(t, i)
    ensures HasPrefixAt(s, i, BOM) == HasPrefixAt(t, i, BOM)
  {
    if i + 3 <= q {
      SamePrefix(s, t, q, i, BOM);
    } else {
      NoBom(s, i, q);
      NoBom(t, i, q);
    }
  }

  lemma NoBom(s: bytes, i: nat, q: nat)
    requires i < q <= |s| && q < i + 3 && (q < |s| ==> !IsCont(s[q]))
    ensures !HasPrefixAt(s, i, BOM)
  {
    if i + 3 <= |s| {
      assert s[i..i + 3][q - i] == s[q];
    }
  }

  lemma {:induction false} CommentSame(s: bytes, t: bytes, q: nat, i: nat)
    requires Agree(s, t, q) && i <= q && CommentEnd(s, i) < q
    ensures CommentEnd(t, i) == CommentEnd(s, i)
    decreases |s| - i
  {
    hide SourceCharacterLen;
    BytesOfCharacterSame(s, t, q, i);
    if CommentEnd(s, i) != i {
      CommentSame(s, t, q, i + SourceCharacterLen(s, i));
    }
  }

  /** A comment does not end before a visible character. */
  lemma {:induction false} CommentPasses(s: bytes, q: nat, i: nat)
    requires i <= q < |s| && IsVisible(s[q])
    ensures CommentEnd(s, i) != q
    decreases |s| - i
  {
    hide SourceCharacterLen;
    if CommentEnd(s, i) != i {
      var j := i + SourceCharacterLen(s, i);
      if j <= q {
        CommentPasses(s, q, j);
      }
    }
  }

  lemma IgnoredSame(s: bytes, t: bytes, q: nat, i: nat)
    requires Agree(s, t, q) && i < q && (IgnoredEnd(s, i) < q || (IgnoredEnd(s, i) == q < |s|))
    ensures IgnoredEnd(t, i) == IgnoredEnd(s, i)
  {
    hide SourceCharacterLen, HasPrefixAt, CommentEnd;
    BytesOfCharacterSame(s, t, q, i);
    if s[i] == HASH {
      if q < |s| {
        CommentPasses(s, q, i + 1);
      }
      CommentSame(s, t, q, i + 1);
    }
  }

  /** The same is skipped in both. */
  lemma {:induction false} SkipSame(s: bytes, t: bytes, q: nat, i: nat)
    requires Agree(s, t, q) && i <= q && Skip(s, i) <= q && (q == |s| ==> Skip(s, i) < q)
    requires Skip(s, i) == q ==> Skip(t, q) == q
    ensures Skip(t, i) == Skip(s, i)
    decreases |s| - i
  {
    hide IgnoredEnd;
    if i < q {
      SkipReaches(s, i);
      IgnoredSame(s, t, q, i);
      if IgnoredEnd(s, i) != i {
        SkipSame(s, t, q, IgnoredEnd(s, i));
      }
    }
  }

  lemma SkipReaches(s: bytes, i: nat)
    requires i <= |s|
    ensures IgnoredEnd(s, i) <= Skip(s, i)
  {
    hide IgnoredEnd;
  }

  // ----- Runs of tokens

  /** From i to q the source holds the tokens ts, and the last of them ends at q; or something
      visible stands at q. */
  predicate Runs(s: bytes, i: nat, ts: seq<Token>, q: nat)
    requires q <= |s|
    decreases |ts|
  {
    if ts == [] then i == q || (i <= q < |s| && Skip(s, i) == q)
    else
      && i < q && Skip(s, i) < q
      && var r := Lex(s, Skip(s, i));
         r.Ok? && r.v == ts[0] && r.next <= q && Runs(s, r.next, ts[1..], q)
  }

  /** Whatever t goes on with after them, the tokens up to q are those of s. */
  lemma {:induction false} RunsSame(s: bytes, t: bytes, q: nat, i: nat, ts: seq<Token>)
    requires Agree(s, t, q) && Runs(s, i, ts, q) && i <= q
    requires q < |s| ==> Skip(t, q) == q
    ensures var rest := Tokens(t, q);
            Tokens(t, i) == if rest.None? then None else Some(ts + rest.value)
    decreases |ts|
  {
    hide Skip, Lex;
    if ts == [] {
      if i != q {
        SkipSame(s, t, q, i);
      }
      assert Tokens(t, q).Some? ==> [] + Tokens(t, q).value == Tokens(t, q).value;
    } else {
      var k := Skip(s, i);
      SkipSame(s, t, q, i);
      LexSame(s, t, q, k);
      RunsSame(s, t, q, Lex(s, k).next, ts[1..]);
      assert Tokens(t, q).Some? ==> [ts[0]] + (ts[1..] + Tokens(t, q).value) == ts + Tokens(t, q).value;
    }
  }
}
