/**
 Block strings: the lines of a text, and BlockStringValue() as section "String Value" of the
 September 2025 GraphQL specification gives it, step by step.
 */
module BlockString {
  import opened Bytes
  import opened Lexical
  import opened Utf8

  const TRIPLE: bytes := [0x22, 0x22, 0x22]
  const ESCAPED_TRIPLE: bytes := [0x5c, 0x22, 0x22, 0x22]

  /** The text split at its LineTerminators; CRLF is one. */
  function Lines(t: bytes): (ls: seq<bytes>)
    ensures |ls| > 0
  {
    if t == [] then [[]]
    else if IsLineTerminatorByte(t[0]) then [[]] + Lines(t[LineTerminatorLen(t, 0)..])
    else
      var ls := Lines(t[1..]);
      [[t[0]] + ls[0]] + ls[1..]
  }

  /** The number of leading WhiteSpace bytes. */
  function Indent(line: bytes): (n: nat)
    ensures n <= |line|
    ensures forall k | 0 <= k < n :: IsWhiteSpace(line[k])
    ensures n < |line| ==> !IsWhiteSpace(line[n])
  {
    if line != [] && IsWhiteSpace(line[0]) then 1 + Indent(line[1..]) else 0
  }

  predicate IsBlank(line: bytes) {
    forall k | 0 <= k < |line| :: IsWhiteSpace(line[k])
  }

  function MinIndent(a: Option<nat>, b: Option<nat>): Option<nat> {
    if a.None? then b
    else if b.None? then a
    else Some(if a.value <= b.value then a.value else b.value)
  }

  function LineIndent(line: bytes): Option<nat> {
    if IsBlank(line) then None else Some(Indent(line))
  }

  /** The smallest indentation of the lines that hold more than WhiteSpace. */
  function CommonIndent(lines: seq<bytes>): Option<nat> {
    if lines == [] then None else MinIndent(LineIndent(lines[0]), CommonIndent(lines[1..]))
  }

  /** A line without its first n characters. */
  function Unindent(line: bytes, n: nat): bytes {
    if n <= |line| then line[n..] else []
  }

  function UnindentAll(lines: seq<bytes>, n: nat): (r: seq<bytes>)
    ensures |r| == |lines|
    ensures forall k | 0 <= k < |lines| :: r[k] == Unindent(lines[k], n)
  {
    if lines == [] then [] else [Unindent(lines[0], n)] + UnindentAll(lines[1..], n)
  }

  function DropLeadingBlank(lines: seq<bytes>): seq<bytes> {
    if lines != [] && IsBlank(lines[0]) then DropLeadingBlank(lines[1..]) else lines
  }

  function DropTrailingBlank(lines: seq<bytes>): seq<bytes> {
    if lines != [] && IsBlank(lines[|lines| - 1]) then DropTrailingBlank(lines[..|lines| - 1]) else lines
  }

  function Join(lines: seq<bytes>): bytes {
    if lines == [] then []
    else if |lines| == 1 then lines[0]
    else lines[0] + [LF] + Join(lines[1..])
  }

  function OrZero(n: Option<nat>): nat {
    if n.Some? then n.value else 0
  }

  /** The common indentation comes off every line but the first. */
  function Dedent(lines: seq<bytes>): (r: seq<bytes>)
    requires lines != []
    ensures |r| == |lines|
  {
    [lines[0]] + UnindentAll(lines[1..], OrZero(CommonIndent(lines[1..])))
  }

  /** BlockStringValue(rawValue). */
  function BlockStringValue(raw: bytes): bytes {
    Join(DropTrailingBlank(DropLeadingBlank(Dedent(Lines(raw)))))
  }

  /** The raw value of the text between the delimiters: every `\"""` is a `"""`. */
  function Unquote(t: bytes): bytes {
    if t == [] then []
    else if ESCAPED_TRIPLE <= t then TRIPLE + Unquote(t[4..])
    else [t[0]] + Unquote(t[1..])
  }

  /** Where the block string whose contents begin at s[i] closes. */
  function BlockEnd(s: bytes, i: nat): (r: R<()>)
    requires i <= |s|
    ensures r.Ok? ==> i + 3 <= r.next <= |s|
    ensures r.Err? ==> i <= r.pos <= |s|
    decreases |s| - i
  {
    if i == |s| then Err(UnexpectedEOF, |s|)
    else if HasPrefixAt(s, i, TRIPLE) then Ok((), i + 3)
    else if HasPrefixAt(s, i, ESCAPED_TRIPLE) then BlockEnd(s, i + 4)
    else if SourceCharacterLen(s, i) == 0 then Err(MalformedUTF8, i)
    else BlockEnd(s, i + SourceCharacterLen(s, i))
  }

  /** The value of the block string whose contents begin at s[i]. */
  function BlockText(s: bytes, i: nat): (r: R<bytes>)
    requires i <= |s|
    ensures r.Ok? ==> i < r.next <= |s|
    ensures r.Err? ==> i <= r.pos <= |s|
  {
    var (_, k) :- BlockEnd(s, i);
    Ok(BlockStringValue(Unquote(s[i..k - 3])), k)
  }

  /** Whether the text holds anything but WhiteSpace and LineTerminators. */
  predicate HasContent(t: bytes) {
    exists k | 0 <= k < |t| :: !IsWhiteSpace(t[k]) && !IsLineTerminatorByte(t[k])
  }

  /** The indentation that comes off every line of t but the first. */
  function CommonPrefix(t: bytes): nat {
    OrZero(CommonIndent(Lines(t)[1..]))
  }
}
