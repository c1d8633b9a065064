/**
 Source text is a sequence of bytes, as the parser reads it. The names below are the
 punctuators and letters the scanners compare against.
 */
module Bytes {
  type byte = b: int | 0 <= b < 256
  type bytes = seq<byte>

  const BANG: byte := 0x21
  const QUOTE: byte := 0x22
  const HASH: byte := 0x23
  const DOLLAR: byte := 0x24
  const LPAREN: byte := 0x28
  const RPAREN: byte := 0x29
  const PLUS: byte := 0x2b
  const MINUS: byte := 0x2d
  const DOT: byte := 0x2e
  const ZERO: byte := 0x30
  const NINE: byte := 0x39
  const COLON: byte := 0x3a
  const EQUALS: byte := 0x3d
  const AT: byte := 0x40
  const LBRACKET: byte := 0x5b
  const BACKSLASH: byte := 0x5c
  const RBRACKET: byte := 0x5d
  const LBRACE: byte := 0x7b
  const RBRACE: byte := 0x7d

  const LF: byte := 0x0a
  const CR: byte := 0x0d
  const TAB: byte := 0x09
  const SPACE: byte := 0x20
  const COMMA: byte := 0x2c

  const KW_QUERY: bytes := [0x71, 0x75, 0x65, 0x72, 0x79]
  const KW_MUTATION: bytes := [0x6d, 0x75, 0x74, 0x61, 0x74, 0x69, 0x6f, 0x6e]
  const KW_SUBSCRIPTION: bytes := [0x73, 0x75, 0x62, 0x73, 0x63, 0x72, 0x69, 0x70, 0x74, 0x69, 0x6f, 0x6e]
  const KW_FRAGMENT: bytes := [0x66, 0x72, 0x61, 0x67, 0x6d, 0x65, 0x6e, 0x74]
  const KW_ON: bytes := [0x6f, 0x6e]
  const KW_NULL: bytes := [0x6e, 0x75, 0x6c, 0x6c]
  const KW_TRUE: bytes := [0x74, 0x72, 0x75, 0x65]
  const KW_FALSE: bytes := [0x66, 0x61, 0x6c, 0x73, 0x65]

  datatype Option<+T> = None | Some(value: T)

  /** The errors a document is rejected with. */
  datatype Error =
    | UnexpectedEOF
    | UnexpectedToken
    | UnexpectedVariable
    | TooDeep
    | InvalidEscape
    | MalformedNumber
    | MalformedUTF8
    | UnescapedControlChar

  /** What a scan or a production yields: a value and the index right after it,
      or the error and the index it is reported at. */
  datatype R<+T> = Ok(v: T, next: nat) | Err(e: Error, pos: nat)
  {
    predicate IsFailure() {
      Err?
    }

    function PropagateFailure<U>(): R<U>
      requires Err?
    {
      Err(e, pos)
    }

    function Extract(): (T, nat)
      requires Ok?
    {
      (v, next)
    }
  }

  /** hasPrefixAt: whether s holds prefix at index i. */
  predicate HasPrefixAt(s: bytes, i: nat, prefix: bytes): (b: bool)
    requires i <= |s|
    ensures b ==> i + |prefix| <= |s|
  {
    |s| - i >= |prefix| && s[i..i + |prefix|] == prefix
  }

  // ----- Concatenation

  lemma Assoc(a: bytes, b: bytes, c: bytes)
    ensures a + b + c == a + (b + c)
  {
  }

  lemma NoBytesAfter(s: bytes)
    ensures s + [] == s
  {
  }

  lemma NoBytes(s: bytes)
    ensures [] + s == s && s + [] == s
  {
  }
}
