/**
 Parser, its reused buffers and its single write, and the Hasher on top of it. What a call
 returns and writes is a function of the document and the options alone, whatever the
 buffers held before.
 */
module Parsing {
  import opened Bytes
  import opened Canonical
  import opened Continuation
  import opened Descent
  import opened Output
  import opened StateMachine

  const DEFAULT_BUFFER_SIZE: nat := 4096
  const DEFAULT_DEPTH_LIMIT: nat := 128
  const MAX_RETAINED_BUFFER_SIZE: nat := 0x10_0000

  datatype Options = Options(ignore: Ignore, depthLimit: int)

  datatype Fault = Syntax(e: Error) | WriteFailed

  /** Result's zero value, Result(None, 0), means no error. */
  datatype Result = Result(err: Option<Fault>, offset: int)

  /** A limit below 1 takes the default: no value turns it off. */
  function LimitOf(o: Options): nat {
    if o.depthLimit < 1 then DEFAULT_DEPTH_LIMIT else o.depthLimit
  }

  /** What the grammar and the serializer make of src. */
  function Reading(src: bytes, o: Options): Outcome {
    Run(Context(src, LimitOf(o), o.ignore))
  }

  /** The Result of a call, given whether the destination refuses the write. */
  function ResultOf(src: bytes, o: Options, broken: bool): Result {
    match Reading(src, o)
    case Reject(e, p) => Result(Some(Syntax(e)), p)
    case Accept(_) => if broken then Result(Some(WriteFailed), -1) else Result(None, 0)
  }

  /** The Write calls a document causes: one, or none. */
  function WritesOf(src: bytes, o: Options): seq<bytes> {
    match Reading(src, o)
    case Reject(_, _) => []
    case Accept(out) => [out]
  }

  function Min(a: int, b: int): int { if a <= b then a else b }

  function Max(a: int, b: int): int { if a <= b then b else a }

  /** errResult: the position clamped into the document. */
  function ErrResult(src: bytes, offset: int, e: Error): Result {
    Result(Some(Syntax(e)), Min(Max(offset, 0), |src|))
  }

  /** The clamp never changes a position. */
  lemma RejectsInside(src: bytes, o: Options)
    ensures Reading(src, o).Reject? ==>
              var r := Reading(src, o);
              r.pos <= |src| && ErrResult(src, r.pos, r.e) == Result(Some(Syntax(r.e)), r.pos)
  {
    hide ParseDefinitions, SerDocument;
  }

  function Concat(parts: seq<bytes>): bytes {
    if parts == [] then [] else Concat(parts[..|parts| - 1]) + parts[|parts| - 1]
  }

  /** An io.Writer, and a hash.Hash: the digest is a function of the bytes since the last
      Reset. */
  class Sink {
    const digest: bytes -> bytes
    /** Whether Write fails. */
    var broken: bool
    /** The Write calls since the last Reset. */
    var calls: seq<bytes>

    constructor (digest: bytes -> bytes)
      ensures calls == [] && !broken && this.digest == digest
    {
      this.digest := digest;
      calls, broken := [], false;
    }

    method Write(p: bytes) returns (failed: bool)
      modifies this`calls
      ensures calls == old(calls) + [p] && failed == broken
    {
      calls := calls + [p];
      failed := broken;
    }

    method Reset()
      modifies this`calls
      ensures calls == []
    {
      calls := [];
    }

    /** Appends the digest of what was written. */
    method Sum(buffer: bytes) returns (r: bytes)
      ensures r == buffer + digest(Concat(calls))
    {
      r := buffer + digest(Concat(calls));
    }
  }

  /** state: the buffers a Parser reuses. Between calls they hold whatever was left there. */
  class Parser {
    var buf: bytes
    /** The capacity of buf. */
    var capacity: nat
    var stack: seq<Frame>

    ghost predicate Valid()
      reads this
    {
      |buf| <= capacity
    }

    /** newState: below 1 takes the default size. */
    constructor (bufferSize: int)
      ensures Valid() && buf == [] && stack == []
      ensures capacity == if bufferSize < 1 then 4096 else bufferSize
    {
      buf, stack := [], [];
      capacity := if bufferSize < 1 then DEFAULT_BUFFER_SIZE else bufferSize;
    }

    /** Both ways out keep the buffer, unless it has grown too large to keep. */
    method Retain(left: bytes, grown: nat, frames: seq<Frame>)
      requires |left| <= grown
      modifies this
      ensures Valid() && capacity <= 0x10_0000 && stack == frames
      ensures capacity == if grown > 0x10_0000 then 4096 else grown
    {
      stack, buf, capacity := frames, left, grown;
      if grown > MAX_RETAINED_BUFFER_SIZE {
        buf, capacity := [], DEFAULT_BUFFER_SIZE;
      }
    }

    /** How large append makes the buffer is the runtime's choice. */
    method Grown(n: nat) returns (grown: nat)
      ensures grown >= n && grown >= capacity
    {
      grown :| grown >= n && grown >= capacity;
    }

    /** Neither the Result nor the writes depend on what earlier calls left in the buffers. */
    method Parse(dst: Sink, o: Options, src: bytes) returns (r: Result)
      requires Valid()
      modifies this, dst`calls
      ensures Valid() && capacity <= 0x10_0000 && |stack| <= LimitOf(o)
      ensures r == ResultOf(src, o, dst.broken)
      ensures dst.calls == old(dst.calls) + WritesOf(src, o)
    {
      hide Run;
      var w := new Writer(buf);
      var m := ReadDocument(Context(src, LimitOf(o), o.ignore), w, stack);
      var grown := Grown(|w.buf|);
      if m.at.DoneL? {
        var failed := dst.Write(w.buf);
        Retain([], grown, m.stack);
        return if failed then Result(Some(WriteFailed), -1) else Result(None, 0);
      }
      RejectsInside(src, o);
      Retain(w.buf, grown, m.stack);
      return ErrResult(src, m.errPos, m.e);
    }
  }

  // ----- Hashing

  /** The digest of the document, or why it has none. */
  function DigestOf(digest: bytes -> bytes, src: bytes, o: Options): Option<bytes> {
    match Reading(src, o)
    case Reject(_, _) => None
    case Accept(out) => Some(digest(out))
  }

  /** The Result of reading a and then, unless that failed, b. */
  function FirstFault(a: bytes, b: bytes, o: Options, broken: bool): Result {
    if ResultOf(a, o, broken).err.Some? then ResultOf(a, o, broken) else ResultOf(b, o, broken)
  }

  /** AppendHash with some previously used parser; a rejected document leaves the buffer. */
  method AppendHash(p: Parser, buffer: bytes, h: Sink, o: Options, s: bytes) returns (out: bytes, r: Result)
    requires p.Valid()
    modifies p, h`calls
    ensures p.Valid() && p.capacity <= MAX_RETAINED_BUFFER_SIZE
    ensures r == ResultOf(s, o, h.broken)
    ensures out == if r.err.Some? then buffer else buffer + DigestOf(h.digest, s, o).value
  {
    hide Run;
    h.Reset();
    r := p.Parse(h, o, s);
    if r.err.Some? {
      return buffer, r;
    }
    ConcatOne(Reading(s, o).out);
    out := h.Sum(buffer);
  }

  lemma ConcatOne(s: bytes)
    ensures Concat([s]) == s
  {
    assert Concat([s]) == Concat([]) + s;
  }

  lemma Halves(sums: bytes, first: bytes, second: bytes)
    requires sums == [] + first + second || sums == first + second
    ensures sums[..|first|] == first && sums[|first|..] == second
  {
  }

  /** CompareWithBuffer. The sums are told apart by the fixed size of a sum. */
  method CompareWithBuffer(p: Parser, buffer: bytes, h: Sink, size: nat, o: Options, a: bytes, b: bytes)
    returns (equal: bool, r: Result)
    requires p.Valid()
    requires forall x :: |h.digest(x)| == size
    modifies p, h`calls
    ensures p.Valid() && p.capacity <= MAX_RETAINED_BUFFER_SIZE
    ensures r == FirstFault(a, b, o, h.broken)
    ensures equal <==> r.err.None? && DigestOf(h.digest, a, o) == DigestOf(h.digest, b, o)
  {
    hide Run;
    equal := false;
    var sums;
    sums, r := AppendHash(p, buffer[..0], h, o, a);
    if r.err.Some? {
      return;
    }
    sums, r := AppendHash(p, sums, h, o, b);
    if r.err.Some? {
      return;
    }
    Halves(sums, DigestOf(h.digest, a, o).value, DigestOf(h.digest, b, o).value);
    equal := sums[..size] == sums[size..];
    r := Result(None, 0);
  }

  /** A Hasher owns a parser, a hash, its options, and a buffer for two sums. */
  class Hasher {
    const parser: Parser
    const hash: Sink
    const options: Options
    var sums: bytes

    constructor (h: Sink, o: Options, bufferSize: int)
      ensures parser.Valid() && fresh(parser) && hash == h && options == o
    {
      parser := new Parser(bufferSize);
      hash, options, sums := h, o, [];
    }

    method Append(buffer: bytes, s: bytes) returns (out: bytes, r: Result)
      requires parser.Valid()
      modifies parser, hash`calls
      ensures parser.Valid() && parser.capacity <= MAX_RETAINED_BUFFER_SIZE
      ensures r == ResultOf(s, options, hash.broken)
      ensures out == if r.err.Some? then buffer else buffer + DigestOf(hash.digest, s, options).value
    {
      hide Run;
      hash.Reset();
      r := parser.Parse(hash, options, s);
      if r.err.Some? {
        return buffer, r;
      }
      ConcatOne(Reading(s, options).out);
      out := hash.Sum(buffer);
    }

    /** What sums held before, a failed call's remains included, does not matter. */
    method Compare(a: bytes, b: bytes) returns (equal: bool, r: Result)
      requires parser.Valid()
      requires forall x, y :: |hash.digest(x)| == |hash.digest(y)|
      modifies this`sums, parser, hash`calls
      ensures parser.Valid() && parser.capacity <= MAX_RETAINED_BUFFER_SIZE
      ensures r == FirstFault(a, b, options, hash.broken)
      ensures equal <==> r.err.None? && DigestOf(hash.digest, a, options) == DigestOf(hash.digest, b, options)
    {
      hide Run;
      equal := false;
      hash.Reset();
      r := parser.Parse(hash, options, a);
      if r.err.Some? {
        return;
      }
      ConcatOne(Reading(a, options).out);
      var first := hash.Sum(sums[..0]);
      var size := |first|;
      hash.Reset();
      r := parser.Parse(hash, options, b);
      if r.err.Some? {
        sums := first;
        return;
      }
      ConcatOne(Reading(b, options).out);
      sums := hash.Sum(first);
      equal := sums[..size] == sums[size..];
      assert sums[..size] == DigestOf(hash.digest, a, options).value;
      assert sums[size..] == DigestOf(hash.digest, b, options).value;
      r := Result(None, 0);
    }
  }
}
