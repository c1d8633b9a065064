/** What is written of a single-line string, piece by piece. */
module StringText {
  import opened Bytes
  import opened Utf8
  import opened StringLine
  import opened Canonical
  import opened BlockLines

  /** The escaped value of the string contents that begin at p. */
  function TextFrom(s: bytes, p: nat): bytes
    requires p <= |s| && Contents(s, p).Ok?
  {
    Escape(EncodeAll(Contents(s, p).v))
  }

  /** The contents that begin at p are well-formed, and the string's closing quote is at hi. */
  predicate Closes(s: bytes, p: nat, hi: nat) {
    p <= hi < |s| && Contents(s, p).Ok? && Contents(s, p).next == hi + 1
  }

  lemma {:induction false} EscapePlain(s: bytes)
    requires forall k | 0 <= k < |s| :: !NeedsEscape(s[k])
    ensures Escape(s) == s
  {
    if s != [] {
      EscapePlain(s[1..]);
    }
  }

  /** One character, then the rest. */
  lemma TextPush(s: bytes, p: nat, hi: nat)
    requires Closes(s, p, hi) && p < hi
    ensures s[p] != QUOTE && Character(s, p).Ok?
    ensures var c, j := Character(s, p).v, Character(s, p).next;
            Closes(s, j, hi) && TextFrom(s, p) == Escape(Encode(c)) + TextFrom(s, j)
  {
    hide Character, Encode, Escape;
    var c, j := Character(s, p).v, Character(s, p).next;
    var cs := Contents(s, j);
    EscapeCat(Encode(c), EncodeAll(cs.v));
    assert Contents(s, p).v == [c] + cs.v;
    assert EncodeAll([c] + cs.v) == Encode(c) + EncodeAll(([c] + cs.v)[1..]);
    assert ([c] + cs.v)[1..] == cs.v;
  }

  /** No byte of a longer character is ASCII. */
  lemma WithinCharacter(s: bytes, p: nat, j: nat)
    requires p < j < |s| && s[j] < 0x80
    ensures p + SourceCharacterLen(s, p) <= j
  {
  }

  /** Characters that stand for themselves, up to j. */
  lemma {:induction false} TextPlain(s: bytes, p: nat, j: nat, hi: nat)
    requires Closes(s, p, hi) && p <= j <= hi && BACKSLASH !in s[p..j]
    requires s[j] == BACKSLASH || s[j] == QUOTE
    ensures Closes(s, j, hi) && TextFrom(s, p) == s[p..j] + TextFrom(s, j)
    decreases j - p
  {
    hide Contents, Escape, Encode, EncodeAll, SourceCharacterLen, Character, TextFrom;
    if p < j {
      assert s[p] == s[p..j][0];
      TextPush(s, p, hi);
      var n := SourceCharacterLen(s, p);
      PlainCharacterIs(s, p);
      WithinCharacter(s, p, j);
      assert s[p..j] == s[p..p + n] + s[p + n..j];
      TextPlain(s, p + n, j, hi);
      assert s[p..j] + TextFrom(s, j) == s[p..p + n] + (s[p + n..j] + TextFrom(s, j));
    } else {
      assert s[p..j] + TextFrom(s, j) == TextFrom(s, j);
    }
  }

  lemma PlainCharacterIs(s: bytes, p: nat)
    requires p < |s| && s[p] != BACKSLASH && Character(s, p).Ok?
    ensures var n := SourceCharacterLen(s, p);
            n > 0 && Character(s, p).next == p + n && Escape(Encode(Character(s, p).v)) == s[p..p + n]
  {
    EncodeDecode(s, p);
    EscapePlain(s[p..p + SourceCharacterLen(s, p)]);
  }

  /** An escape of one letter stands for one ASCII byte. */
  lemma SimpleCharacterIs(s: bytes, p: nat)
    requires p + 1 < |s| && s[p] == BACKSLASH && SimpleEscape(s[p + 1]).Some?
    ensures Character(s, p) == Ok(SimpleEscape(s[p + 1]).value, p + 2)
    ensures Escape(Encode(SimpleEscape(s[p + 1]).value)) == EscapeByte(SimpleEscape(s[p + 1]).value)
  {
    var b := SimpleEscape(s[p + 1]).value;
    assert Encode(b) == [b];
    assert Escape([b]) == EscapeByte(b) + Escape([]);
  }

  /** The closing quote is the byte at hi, and nothing is written from there. */
  lemma TextEnds(s: bytes, p: nat, hi: nat)
    requires Closes(s, p, hi)
    ensures s[hi] == QUOTE && Closes(s, hi, hi) && TextFrom(s, hi) == []
  {
  }

  lemma TextFromIs(s: bytes, p: nat)
    requires p <= |s| && Contents(s, p).Ok?
    ensures TextFrom(s, p) == Escape(EncodeAll(Contents(s, p).v))
  {
  }

  lemma EscapePush(b: bytes, k: nat)
    requires k < |b|
    ensures Escape(b[..k + 1]) == Escape(b[..k]) + EscapeByte(b[k])
  {
    assert b[..k + 1] == b[..k] + [b[k]];
    EscapeCat(b[..k], [b[k]]);
    assert Escape([b[k]]) == EscapeByte(b[k]) + Escape([]);
  }
}
