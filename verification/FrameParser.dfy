/** The incremental HTTP/3 frame parser of h3i/src/frame_parser.rs (section 7.1 of RFC 9114): a
    Type/Length/Value machine fed by whatever the stream has to offer, compared with a parser that
    sees the whole stream at once. */
module FrameParser {
  import opened Base
  import opened Varint

  const MAX_STREAM_STATE_SIZE: nat := 2_000_000

  datatype Frame = Frame(ty: nat, payload: seq<Byte>)

  // ---------- the one-shot parser ----------

  datatype Outcome = Incomplete | TooBig | Complete(frame: Frame, size: nat)

  /** The first frame of a byte string. */
  function ParseOne(bs: seq<Byte>): (r: Outcome)
    ensures r.Complete? ==> 2 <= r.size <= |bs|
  {
    match ReadVarint(bs)
    case None => Incomplete
    case Some((ty, n)) =>
      match ReadVarint(bs[n..])
      case None => Incomplete
      case Some((len, m)) =>
        if len > MAX_STREAM_STATE_SIZE then TooBig
        else if |bs| < n + m + len then Incomplete
        else Complete(Frame(ty, bs[n + m..n + m + len]), n + m + len)
  }

  /** The one-shot parser's verdict on `bs`, as a relation; it is unfolded only where asked for. */
  ghost predicate Parses(bs: seq<Byte>, o: Outcome) {
    forall x: seq<Byte> {:trigger ParseOne(x)} :: x == bs ==> ParseOne(x) == o
  }

  /** All complete frames, what is left over, and whether parsing stopped at an oversized frame. */
  datatype Parsed = Parsed(frames: seq<Frame>, rest: seq<Byte>, stopped: bool)

  function ParseAll(bs: seq<Byte>): Parsed
    decreases |bs|
  {
    match ParseOne(bs)
    case Incomplete => Parsed([], bs, false)
    case TooBig => Parsed([], bs, true)
    case Complete(f, n) =>
      var p := ParseAll(bs[n..]);
      p.(frames := [f] + p.frames)
  }

  lemma {:induction false} VarintStable(a: seq<Byte>, b: seq<Byte>)
    requires ReadVarint(a).Some?
    ensures ReadVarint(a + b) == ReadVarint(a) && ReadVarint(a).value.1 <= |a|
  {
    var n := VarintParseLen(a[0]);
    assert (a + b)[0] == a[0] && (a + b)[1..n] == a[1..n];
  }

  /** More input never changes a finished frame. */
  lemma {:induction false} ParseOneStable(a: seq<Byte>, b: seq<Byte>)
    requires !ParseOne(a).Incomplete?
    ensures ParseOne(a + b) == ParseOne(a)
  {
    VarintStable(a, b);
    var n := ReadVarint(a).value.1;
    assert (a + b)[n..] == a[n..] + b;
    VarintStable(a[n..], b);
    var (len, m) := ReadVarint(a[n..]).value;
    if len <= MAX_STREAM_STATE_SIZE {
      assert (a + b)[n + m..n + m + len] == a[n + m..n + m + len];
    }
  }

  lemma {:induction false} ParseAllStep(bs: seq<Byte>, f: Frame, n: nat)
    requires ParseOne(bs) == Complete(f, n)
    ensures var p := ParseAll(bs[n..]); ParseAll(bs) == Parsed([f] + p.frames, p.rest, p.stopped)
  {}

  /** Parsing can be resumed from what is left over. */
  lemma {:induction false} ParseAllAppend(a: seq<Byte>, b: seq<Byte>)
    requires !ParseAll(a).stopped
    ensures var p := ParseAll(a);
      var q := ParseAll(p.rest + b);
      ParseAll(a + b) == Parsed(p.frames + q.frames, q.rest, q.stopped)
    decreases |a|
  {
    var o := ParseOne(a);
    if o.Complete? {
      var (f, n) := (o.frame, o.size);
      ParseOneStable(a, b);
      ParseAllStep(a, f, n);
      ParseAllStep(a + b, f, n);
      ParseAllAppend(a[n..], b);
      ResumeStep(a, b, f, n);
    } else {
      assert [] + ParseAll(a + b).frames == ParseAll(a + b).frames;
    }
  }

  lemma {:induction false} ResumeStep(a: seq<Byte>, b: seq<Byte>, f: Frame, n: nat)
    requires n <= |a|
    ensures (a + b)[n..] == a[n..] + b
    ensures forall xs: seq<Frame>, ys: seq<Frame> :: [f] + (xs + ys) == ([f] + xs) + ys
  {}

  // ---------- printing ----------

  /** How a frame may be written: a legal varint length for its type and for its size. */
  datatype Printed = Printed(frame: Frame, typeLen: nat, sizeLen: nat)

  predicate Printable(p: Printed) {
    && Length(p.typeLen) && Length(p.sizeLen)
    && p.frame.ty < Limit(p.typeLen) && |p.frame.payload| < Limit(p.sizeLen)
    && |p.frame.payload| <= MAX_STREAM_STATE_SIZE
  }

  function Print(p: Printed): seq<Byte>
    requires Printable(p)
  {
    VarintBytes(p.frame.ty, p.typeLen) + VarintBytes(|p.frame.payload|, p.sizeLen) + p.frame.payload
  }

  function PrintAll(ps: seq<Printed>): seq<Byte>
    requires forall p <- ps :: Printable(p)
  {
    if ps == [] then [] else Print(ps[0]) + PrintAll(ps[1..])
  }

  function FramesOf(ps: seq<Printed>): seq<Frame> {
    if ps == [] then [] else [ps[0].frame] + FramesOf(ps[1..])
  }

  lemma {:induction false} PrintParse(p: Printed, rest: seq<Byte>)
    requires Printable(p)
    ensures ParseOne(Print(p) + rest) == Complete(p.frame, |Print(p)|)
  {
    var a, b := VarintBytes(p.frame.ty, p.typeLen), VarintBytes(|p.frame.payload|, p.sizeLen);
    var bs := Print(p) + rest;
    assert bs == a + (b + (p.frame.payload + rest));
    VarintRoundTrip(p.frame.ty, p.typeLen, b + (p.frame.payload + rest));
    VarintRoundTrip(|p.frame.payload|, p.sizeLen, p.frame.payload + rest);
    assert bs[|a|..] == b + (p.frame.payload + rest);
    assert bs[|a| + |b|..|Print(p)|] == p.frame.payload;
  }

  /** Round trip: frames written with any legal varint lengths are read back unchanged. */
  lemma {:induction false} PrintParseAll(ps: seq<Printed>)
    requires forall p <- ps :: Printable(p)
    ensures ParseAll(PrintAll(ps)) == Parsed(FramesOf(ps), [], false)
    decreases |ps|
  {
    if ps != [] {
      PrintParse(ps[0], PrintAll(ps[1..]));
      assert PrintAll(ps)[|Print(ps[0])|..] == PrintAll(ps[1..]);
      PrintParseAll(ps[1..]);
    }
  }

  /** A frame larger than the parser's buffer may get is refused as soon as its header is read. */
  lemma {:induction false} OversizedIsRefused(ty: nat, typeLen: nat, size: nat, sizeLen: nat, rest: seq<Byte>)
    requires Length(typeLen) && Length(sizeLen) && ty < Limit(typeLen) && size < Limit(sizeLen)
    requires size > 2_000_000
    ensures ParseOne(VarintBytes(ty, typeLen) + VarintBytes(size, sizeLen) + rest) == TooBig
  {
    var a, b := VarintBytes(ty, typeLen), VarintBytes(size, sizeLen);
    var bs := a + b + rest;
    assert bs == a + (b + rest) && bs[|a|..] == b + rest;
    VarintRoundTrip(ty, typeLen, b + rest);
    VarintRoundTrip(size, sizeLen, rest);
  }

  /** Nothing is emitted, and nothing refused, before the last byte of a frame is there. */
  lemma {:induction false} CutFrameIsIncomplete(p: Printed, n: nat)
    requires Printable(p) && n < |Print(p)|
    ensures ParseOne(Print(p)[..n]) == Incomplete
  {
    var part, tail := Print(p)[..n], Print(p)[n..];
    PrintParse(p, []);
    assert part + tail == Print(p) && Print(p) + [] == Print(p);
    if ParseOne(part) != Incomplete { ParseOneStable(part, tail); }
  }

  // ---------- what a partly read frame looks like ----------

  /** `hdr` is exactly an encoded type, whatever follows. */
  ghost predicate TypeHeader(hdr: seq<Byte>, ty: nat) {
    forall rest: seq<Byte> :: ReadVarint(hdr + rest) == Some((ty, |hdr|))
  }

  /** `hdr` is exactly an encoded type and length, whatever follows. */
  ghost predicate FullHeader(hdr: seq<Byte>, ty: nat, len: nat) {
    forall rest: seq<Byte> :: ReadHeader(hdr + rest) == Some((ty, len, |hdr|))
  }

  /** Type, length and size of the header at the front of `bs`. */
  function ReadHeader(bs: seq<Byte>): Option<(nat, nat, nat)> {
    match ReadVarint(bs)
    case None => None
    case Some((ty, n)) =>
      match ReadVarint(bs[n..])
      case None => None
      case Some((len, m)) => Some((ty, len, n + m))
  }

  /** `part` is the beginning of a varint, cut before its end. */
  ghost predicate PartVarint(part: seq<Byte>) { part == [] || |part| < VarintParseLen(part[0]) }

  lemma {:induction false} PartType(part: seq<Byte>)
    requires PartVarint(part)
    ensures ParseOne(part) == Incomplete
  {}

  lemma {:induction false} WholeType(part: seq<Byte>, ty: nat)
    requires ReadVarint(part) == Some((ty, |part|))
    ensures TypeHeader(part, ty)
  {
    forall rest: seq<Byte> ensures ReadVarint(part + rest) == Some((ty, |part|)) { VarintStable(part, rest); }
  }

  lemma {:induction false} PartLength(hdr: seq<Byte>, ty: nat, part: seq<Byte>)
    requires TypeHeader(hdr, ty) && PartVarint(part)
    ensures ParseOne(hdr + part) == Incomplete
  {
    assert (hdr + part)[|hdr|..] == part;
  }

  lemma {:induction false} WholeLength(hdr: seq<Byte>, ty: nat, part: seq<Byte>, len: nat)
    requires TypeHeader(hdr, ty) && ReadVarint(part) == Some((len, |part|))
    ensures FullHeader(hdr + part, ty, len)
  {
    forall rest: seq<Byte> ensures ReadHeader(hdr + part + rest) == Some((ty, len, |hdr + part|)) {
      assert hdr + part + rest == hdr + (part + rest);
      assert (hdr + (part + rest))[|hdr|..] == part + rest;
      VarintStable(part, rest);
    }
  }

  lemma {:induction false} PartValue(hdr: seq<Byte>, ty: nat, len: nat, part: seq<Byte>)
    requires FullHeader(hdr, ty, len) && |part| <= len
    ensures ParseOne(hdr + part) ==
      if len > MAX_STREAM_STATE_SIZE then TooBig
      else if |part| < len then Incomplete
      else Complete(Frame(ty, part), |hdr| + len)
  {
    assert ReadHeader(hdr + part) == Some((ty, len, |hdr|));
    assert |part| == len ==> (hdr + part)[|hdr|..|hdr| + len] == part;
  }

  // ---------- the incremental parser ----------

  /** A stream: bytes that arrived and were not read yet.  A read returns some of them, as few as
      one, or reports that there are none. */
  class Stream {
    var pending: seq<Byte>

    constructor ()
      ensures pending == []
    {
      pending := [];
    }

    method Arrive(chunk: seq<Byte>)
      modifies this
      ensures pending == old(pending) + chunk
    {
      pending := pending + chunk;
    }

    method Recv(room: nat) returns (chunk: Option<seq<Byte>>)
      requires room > 0
      modifies this
      ensures chunk.None? ==> old(pending) == [] && pending == []
      ensures chunk.Some? ==> 1 <= |chunk.value| <= room && old(pending) == chunk.value + pending
    {
      if pending == [] { return None; }
      var k: nat :| 1 <= k <= room && k <= |pending|;
      chunk := Some(pending[..k]);
      pending := pending[k..];
    }
  }

  datatype FrameState = Type | Len | Val

  /** `Done` asks for more input, `ExcessiveLoad` is the error for an oversized frame. */
  datatype ParseResult = Retry | FrameParsed(frame: Frame) | Done | ExcessiveLoad

  function Resize(buf: seq<Byte>, n: nat): (r: seq<Byte>)
    ensures |r| == n
  {
    if n <= |buf| then buf[..n] else buf + seq(n - |buf|, _ => 0)
  }

  class FrameParser {
    var ty: Option<nat>
    var len: Option<nat>
    var state: FrameState
    var buf: seq<Byte>
    var offset: nat
    var stateLen: nat

    /** The bytes read since the end of the last frame. */
    ghost var held: seq<Byte>

    /** While a varint is read the buffer holds one byte until that byte tells its length. */
    ghost predicate VarintBuffer()
      reads this
    {
      && 1 <= stateLen == |buf| && offset <= stateLen
      && (offset == 0 ==> stateLen == 1)
      && (offset > 0 ==> stateLen == VarintParseLen(buf[0]) || (offset == 1 && stateLen == 1))
    }

    /** The fields describe the bytes read so far. */
    ghost predicate Consistent()
      reads this
    {
      && offset <= stateLen == |buf| <= MAX_STREAM_STATE_SIZE && offset <= |held|
      && held[|held| - offset..] == buf[..offset]
      && var header := held[..|held| - offset];
         match state
         case Type => header == [] && VarintBuffer()
         case Len => ty.Some? && TypeHeader(header, ty.value) && VarintBuffer()
         case Val => ty.Some? && len.Some? && FullHeader(header, ty.value, len.value) && stateLen == len.value
    }

    /** Between calls a frame is partly read, or the parser is stuck at an oversized one. */
    ghost predicate Valid()
      reads this
    {
      Consistent() && (offset < stateLen || (state == Len && Parses(held, TooBig)))
    }

    constructor ()
      ensures Valid() && held == []
    {
      ty, len, state := None, None, Type;
      buf, offset, stateLen := [0], 0, 1;
      held := [];
    }

    /** Reads into the free part of the state buffer, unless it is full. */
    method TryFillBuffer(stream: Stream) returns (ok: bool, ghost taken: seq<Byte>)
      requires Consistent()
      modifies this, stream
      ensures Consistent() && state == old(state) && ty == old(ty) && len == old(len) && stateLen == old(stateLen)
      ensures held == old(held) + taken && old(stream.pending) == taken + stream.pending
      ensures offset == old(offset) + |taken|
      ensures ok ==> taken != [] || offset == stateLen
      ensures !ok ==> taken == [] && stream.pending == [] && offset < stateLen
    {
      if offset == stateLen { return true, []; }
      var chunk := stream.Recv(stateLen - offset);
      if chunk.None? { return false, []; }
      taken := chunk.value;
      ghost var header := held[..|held| - offset];
      buf := buf[..offset] + chunk.value + buf[offset + |chunk.value|..];
      offset := offset + |chunk.value|;
      held := held + chunk.value;
      assert held[..|held| - offset] == header;
      ok := true;
    }

    /** Grows the buffer once the first byte is known, and decodes the varint when it is whole. */
    method TryConsumeVarint() returns (r: Option<nat>)
      requires Consistent() && VarintBuffer() && state != Val && offset > 0
      modifies this`stateLen, this`buf
      ensures Consistent() && VarintBuffer() && buf[..offset] == old(buf[..offset])
      ensures r.None? ==> offset < stateLen && PartVarint(buf[..offset])
      ensures r.Some? ==> offset == stateLen && ReadVarint(buf) == Some((r.value, offset))
    {
      if offset == 1 {
        stateLen := VarintParseLen(buf[0]);
        buf := Resize(buf, stateLen);
      }
      if offset != stateLen { return None; }
      assert buf[..offset] == buf;
      r := Some(ReadVarint(buf).value.0);
    }

    /** Starts the next state with an empty buffer of the expected size, unless that is too big. */
    method StateTransition(newState: FrameState, expectedLen: nat) returns (ok: bool)
      modifies this`buf, this`state, this`offset, this`stateLen
      ensures ok == (expectedLen <= MAX_STREAM_STATE_SIZE)
      ensures ok ==> |buf| == stateLen == expectedLen && state == newState && offset == 0
      ensures !ok ==> unchanged(this)
    {
      if expectedLen > MAX_STREAM_STATE_SIZE { return false; }
      buf := Resize(buf, expectedLen);
      state, offset, stateLen := newState, 0, expectedLen;
      ok := true;
    }

    method SetFrameType(value: nat) returns (ok: bool)
      requires Consistent() && state == Type && offset == stateLen && ReadVarint(buf) == Some((value, offset))
      modifies this`ty, this`buf, this`state, this`offset, this`stateLen
      ensures ok && Consistent() && state == Len && offset < stateLen && held == old(held)
    {
      assert buf[..offset] == buf && held[0..] == held;
      WholeType(held, value);
      ty := Some(value);
      ok := StateTransition(Len, 1);
      assert held[..|held|] == held;
    }

    method SetFrameLen(value: nat) returns (ok: bool)
      requires Consistent() && state == Len && offset == stateLen && ReadVarint(buf) == Some((value, offset))
      modifies this`len, this`buf, this`state, this`offset, this`stateLen
      ensures Consistent() && held == old(held)
      ensures ok ==> state == Val && offset == 0 && !Parses(held, TooBig)
      ensures !ok ==> state == Len && Parses(held, TooBig)
    {
      ghost var header := held[..|held| - offset];
      assert buf[..offset] == buf && held == header + buf;
      WholeLength(header, ty.value, buf, value);
      PartValue(held, ty.value, value, []);
      assert held + [] == held;
      len := Some(value);
      ok := StateTransition(Val, value);
      if ok { assert held[..|held|] == held && held[|held|..] == []; }
    }

    /** A buffer that is not full means the frame is not whole. */
    lemma PartIsIncomplete()
      requires Consistent() && offset < stateLen
      ensures Parses(held, Incomplete)
    {
      var header, part := held[..|held| - offset], held[|held| - offset..];
      assert held == header + part;
      match state
      case Type =>
        assert held == part;
        PartType(part);
      case Len => PartLength(header, ty.value, part);
      case Val => PartValue(header, ty.value, len.value, part);
    }

    /** Handles a filled type or length buffer; no result means that parsing goes on. */
    method ConsumeHeader() returns (r: Option<ParseResult>)
      requires Consistent() && state != Val && offset > 0
      modifies this
      ensures Consistent() && held == old(held)
      ensures r.None? ==>
                || (old(state) == Type && state == Len && offset < stateLen)
                || (old(state) == Len && state == Val)
      ensures old(state == Len && Parses(held, TooBig)) ==> r == Some(ExcessiveLoad)
      ensures r.Some? ==> state == old(state) && Valid()
      ensures r.Some? ==> || (r.value == Retry && Parses(held, Incomplete))
                          || (r.value == ExcessiveLoad && Parses(held, TooBig))
    {
      var varint := TryConsumeVarint();
      if varint.None? {
        PartIsIncomplete();
        assert ParseOne(held) == Incomplete;
        return Some(Retry);
      }
      if state == Type {
        var _ := SetFrameType(varint.value);
        return None;
      }
      var ok := SetFrameLen(varint.value);
      r := if ok then None else Some(ExcessiveLoad);
    }

    /** A full value buffer means the frame is whole. */
    lemma FrameIsWhole()
      requires Consistent() && state == Val && offset == stateLen
      ensures Parses(held, Complete(Frame(ty.value, buf), |held|))
    {
      var header := held[..|held| - offset];
      assert buf[..offset] == buf && held == header + buf;
      PartValue(header, ty.value, len.value, buf);
    }

    /** Emits the frame when its payload is whole. */
    method FinishFrame() returns (r: ParseResult)
      requires Consistent() && state == Val
      modifies this
      ensures Valid()
      ensures if r == Done then held == old(held) && Parses(held, Incomplete)
              else r.FrameParsed? && held == [] && Parses(old(held), Complete(r.frame, |old(held)|))
    {
      if offset == stateLen {
        FrameIsWhole();
        r := FrameParsed(Frame(ty.value, buf));
        ty, len, state := None, None, Type;
        buf, offset, stateLen := [0], 0, 1;
        held := [];
      } else {
        PartIsIncomplete();
        r := Done;
      }
    }

    /** What a call that consumed `taken` promises about its result. */
    twostate predicate Agrees(r: ParseResult, taken: seq<Byte>)
      reads this
    {
      var all := old(held) + taken;
      match r
      case Retry => held == all && Parses(all, Incomplete)
      case Done => held == all && Parses(all, Incomplete)
      case FrameParsed(f) => held == [] && Parses(all, Complete(f, |all|))
      case ExcessiveLoad => held == all && Parses(all, TooBig)
    }

    /** One round of the parser's loop in its type or length state. */
    method ReadHeader(stream: Stream) returns (r: Option<ParseResult>, ghost taken: seq<Byte>)
      requires Valid() && state != Val
      modifies this, stream
      ensures old(stream.pending) == taken + stream.pending
      ensures r.Some? ==> Valid() && Agrees(r.value, taken)
      ensures r.Some? && taken == [] ==> r.value == ExcessiveLoad || (r.value == Done && stream.pending == [])
      ensures r.None? ==> Consistent() && held == old(held) + taken && taken != []
      ensures r.None? ==> (old(state) == Type && state == Len && Valid()) || (old(state) == Len && state == Val)
    {
      var ok;
      ok, taken := TryFillBuffer(stream);
      if !ok {
        PartIsIncomplete();
        return Some(Done), taken;
      }
      r := ConsumeHeader();
      assert r.None? && taken == [] ==> false;
    }

    /** The last round, in the value state. */
    method ReadPayload(stream: Stream) returns (r: ParseResult, ghost taken: seq<Byte>)
      requires Consistent() && state == Val
      modifies this, stream
      ensures Valid() && old(stream.pending) == taken + stream.pending
      ensures Agrees(r, taken)
      ensures old(Valid()) && taken == [] ==> r == Done && stream.pending == []
    {
      var ok;
      ok, taken := TryFillBuffer(stream);
      if !ok {
        PartIsIncomplete();
        return Done, taken;
      }
      r := FinishFrame();
    }

    /** Reads from the stream until a frame is whole, input runs out or the buffer must grow.
        Whatever it returns, it agrees with the one-shot parser on all bytes read since the last
        frame, and it has consumed something unless there was nothing to read. */
    method TryParseFrame(stream: Stream) returns (r: ParseResult, ghost taken: seq<Byte>)
      requires Valid()
      modifies this, stream
      ensures Valid() && old(stream.pending) == taken + stream.pending
      ensures Agrees(r, taken)
      ensures taken == [] ==> r == ExcessiveLoad || (r == Done && stream.pending == [])
    {
      taken := [];
      ghost var chunk;
      while state != Val
        invariant Consistent() && held == old(held) + taken && old(stream.pending) == taken + stream.pending
        invariant taken == [] || state != Val ==> Valid()
        decreases if state == Type then 2 else if state == Len then 1 else 0
      {
        var result;
        result, chunk := ReadHeader(stream);
        assert (old(held) + taken) + chunk == old(held) + (taken + chunk);
        taken := taken + chunk;
        if result.Some? { return result.value, taken; }
      }
      r, chunk := ReadPayload(stream);
      assert (old(held) + taken) + chunk == old(held) + (taken + chunk);
      taken := taken + chunk;
    }
  }

  // ---------- reading a whole stream ----------

  function Concat(chunks: seq<seq<Byte>>): seq<Byte> {
    if chunks == [] then [] else Concat(chunks[..|chunks| - 1]) + chunks[|chunks| - 1]
  }

  /** One more result of the parser, in terms of the one-shot parser. */
  lemma {:induction false} OneMore(received: seq<Byte>, taken: seq<Byte>, o: Outcome)
    requires !ParseAll(received).stopped && Parses(ParseAll(received).rest + taken, o)
    requires o.Complete? ==> o.size == |ParseAll(received).rest + taken|
    ensures var p := ParseAll(received);
      ParseAll(received + taken) ==
        if o.Complete? then Parsed(p.frames + [o.frame], [], false)
        else Parsed(p.frames, p.rest + taken, o == TooBig)
  {
    var p := ParseAll(received);
    var all := p.rest + taken;
    assert ParseOne(all) == o;
    ParseAllAppend(received, taken);
    assert p.frames + [] == p.frames;
    if o.Complete? {
      assert all[o.size..] == [] && [o.frame] + [] == [o.frame];
      ParseAllStep(all, o.frame, o.size);
      assert ParseAll([]) == Parsed([], [], false);
    }
  }

  /** The outcome a result of the parser stands for, on a frame of `size` bytes. */
  function OutcomeOf(r: ParseResult, size: nat): Outcome {
    match r
    case FrameParsed(f) => Complete(f, size)
    case ExcessiveLoad => TooBig
    case _ => Incomplete
  }

  function FrameOf(r: ParseResult): seq<Frame> { if r.FrameParsed? then [r.frame] else [] }

  /** One call of the parser on a stream whose bytes `received` were already parsed. */
  method CallOnce(parser: FrameParser, stream: Stream, ghost received: seq<Byte>)
    returns (r: ParseResult, ghost taken: seq<Byte>)
    requires parser.Valid() && parser.held == ParseAll(received).rest && !ParseAll(received).stopped
    modifies parser, stream
    ensures parser.Valid() && old(stream.pending) == taken + stream.pending
    ensures ParseAll(received + taken) ==
      Parsed(ParseAll(received).frames + FrameOf(r), parser.held, r == ExcessiveLoad)
    ensures taken == [] ==> r == ExcessiveLoad || stream.pending == []
  {
    ghost var p := ParseAll(received);
    r, taken := parser.TryParseFrame(stream);
    OneMore(received, taken, OutcomeOf(r, |p.rest + taken|));
    assert p.frames + [] == p.frames;
  }

  /** Calls the parser for as long as there is input, starting with a stream part of which was
      already parsed. */
  method Drain(parser: FrameParser, stream: Stream, ghost received: seq<Byte>)
    returns (frames: seq<Frame>, stopped: bool, ghost taken: seq<Byte>)
    requires parser.Valid() && parser.held == ParseAll(received).rest && !ParseAll(received).stopped
    modifies parser, stream
    ensures parser.Valid() && old(stream.pending) == taken + stream.pending
    ensures ParseAll(received + taken) == Parsed(ParseAll(received).frames + frames, parser.held, stopped)
    ensures !stopped ==> stream.pending == []
  {
    frames, stopped, taken := [], false, [];
    ghost var first := ParseAll(received).frames;
    assert received + [] == received && first + [] == first;
    while stream.pending != [] && !stopped
      invariant parser.Valid() && old(stream.pending) == taken + stream.pending
      invariant ParseAll(received + taken) == Parsed(first + frames, parser.held, stopped)
      decreases |stream.pending|, !stopped
    {
      var r;
      ghost var chunk;
      r, chunk := CallOnce(parser, stream, received + taken);
      Regroup(received, taken, chunk, stream.pending, first, frames, FrameOf(r));
      taken, frames, stopped := taken + chunk, frames + FrameOf(r), r == ExcessiveLoad;
    }
  }

  lemma {:induction false} Regroup(a: seq<Byte>, b: seq<Byte>, c: seq<Byte>, d: seq<Byte>,
                                   f: seq<Frame>, g: seq<Frame>, h: seq<Frame>)
    ensures (a + b) + c == a + (b + c) && b + (c + d) == (b + c) + d && (f + g) + h == f + (g + h)
  {}

  /** Nothing after an oversized frame matters. */
  lemma {:induction false} StoppedStays(a: seq<Byte>, b: seq<Byte>)
    requires ParseAll(a).stopped
    ensures ParseAll(a + b).stopped && ParseAll(a + b).frames == ParseAll(a).frames
    decreases |a|
  {
    var o := ParseOne(a);
    ParseOneStable(a, b);
    if o.Complete? {
      ParseAllStep(a, o.frame, o.size);
      ParseAllStep(a + b, o.frame, o.size);
      ResumeStep(a, b, o.frame, o.size);
      StoppedStays(a[o.size..], b);
    }
  }

  /** Every byte belongs to an emitted frame or is left over, in order. */
  lemma {:induction false} NothingLost(bs: seq<Byte>) returns (used: nat)
    requires !ParseAll(bs).stopped
    ensures used <= |bs| && bs[used..] == ParseAll(bs).rest
    ensures ParseAll(bs[..used]) == Parsed(ParseAll(bs).frames, [], false)
    decreases |bs|
  {
    used := 0;
    match ParseOne(bs)
    case Complete(f, n) =>
      var u := NothingLost(bs[n..]);
      used := n + u;
      assert bs[used..] == ParseAll(bs).rest by { RestStep(bs, f, n, u); }
      assert ParseAll(bs[..used]) == Parsed(ParseAll(bs).frames, [], false) by {
        PrefixStep(bs, f, n, u);
        ParseAllStep(bs, f, n);
      }
    case Incomplete => EmptyPrefix(bs);
    case TooBig =>
  }

  lemma {:induction false} EmptyPrefix(bs: seq<Byte>)
    requires ParseOne(bs).Incomplete?
    ensures bs[0..] == ParseAll(bs).rest && ParseAll(bs[..0]) == Parsed(ParseAll(bs).frames, [], false)
  {
    assert bs[..0] == [];
  }

  lemma {:induction false} RestStep(bs: seq<Byte>, f: Frame, n: nat, used: nat)
    requires ParseOne(bs) == Complete(f, n) && used <= |bs| - n
    ensures bs[n..][used..] == ParseAll(bs[n..]).rest ==> bs[n + used..] == ParseAll(bs).rest
  {
    SliceTwice(bs, n, used);
    ParseAllStep(bs, f, n);
  }

  lemma {:induction false} PrefixStep(bs: seq<Byte>, f: Frame, n: nat, used: nat)
    requires ParseOne(bs) == Complete(f, n) && used <= |bs| - n
    ensures var p := ParseAll(bs[n..][..used]);
      ParseAll(bs[..n + used]) == Parsed([f] + p.frames, p.rest, p.stopped)
  {
    var pre := bs[..n + used];
    SliceTwice(bs, n, used);
    OnlyPrefix(bs, f, n, n + used);
    ParseAllStep(pre, f, n);
  }

  lemma {:induction false} SliceTwice(bs: seq<Byte>, n: nat, used: nat)
    requires n + used <= |bs|
    ensures bs[..n + used][n..] == bs[n..][..used] && bs[n..][used..] == bs[n + used..]
  {}

  lemma {:induction false} OnlyPrefix(bs: seq<Byte>, f: Frame, n: nat, used: nat)
    requires ParseOne(bs) == Complete(f, n) && n <= used <= |bs|
    ensures ParseOne(bs[..used]) == Complete(f, n)
  {
    var pre := bs[..used];
    var k := ReadVarint(bs).value.1;
    var (len, m) := ReadVarint(bs[k..]).value;
    assert pre[k..] == bs[k..][..used - k];
    VarintPrefix(bs, used);
    VarintPrefix(bs[k..], used - k);
    assert pre[k + m..k + m + len] == bs[k + m..k + m + len];
  }

  lemma {:induction false} VarintPrefix(bs: seq<Byte>, used: nat)
    requires ReadVarint(bs).Some? && ReadVarint(bs).value.1 <= used <= |bs|
    ensures ReadVarint(bs[..used]) == ReadVarint(bs)
  {
    var n := ReadVarint(bs).value.1;
    assert bs[..used][1..n] == bs[1..n];
  }

  lemma {:induction false} ConcatLast(chunks: seq<seq<Byte>>, i: nat)
    requires i < |chunks|
    ensures Concat(chunks[..i + 1]) == Concat(chunks[..i]) + chunks[i]
  {
    assert chunks[..i + 1][..i] == chunks[..i];
  }

  /** Chunking independence: however a stream is cut into chunks, and however few bytes each read
      returns, the frames are those of a one-shot parse of the whole stream, and what the parser
      holds at the end is what that parse leaves over. */
  method ParseChunks(chunks: seq<seq<Byte>>)
    returns (frames: seq<Frame>, stopped: bool, parser: FrameParser)
    ensures ParseAll(Concat(chunks)).frames == frames && ParseAll(Concat(chunks)).stopped == stopped
    ensures parser.Valid() && (!stopped ==> ParseAll(Concat(chunks)).rest == parser.held)
  {
    parser := new FrameParser();
    var stream := new Stream();
    ghost var received := [];
    frames, stopped := [], false;
    for i := 0 to |chunks|
      invariant parser.Valid() && stream.pending == [] && received == Concat(chunks[..i])
      invariant fresh(parser) && fresh(stream)
      invariant ParseAll(received) == Parsed(frames, parser.held, false)
    {
      stream.Arrive(chunks[i]);
      assert stream.pending == chunks[i];
      ConcatLast(chunks, i);
      var more;
      ghost var taken;
      more, stopped, taken := Drain(parser, stream, received);
      Regroup(received, taken, stream.pending, [], [], [], []);
      frames, received := frames + more, received + taken;
      if stopped {
        StoppedEarly(chunks, i + 1, received, stream.pending);
        return;
      }
      assert received + [] == received;
    }
    assert chunks[..|chunks|] == chunks;
  }

  lemma {:induction false} StoppedEarly(chunks: seq<seq<Byte>>, n: nat, received: seq<Byte>, pending: seq<Byte>)
    requires n <= |chunks| && received + pending == Concat(chunks[..n]) && ParseAll(received).stopped
    ensures ParseAll(Concat(chunks)).stopped && ParseAll(Concat(chunks)).frames == ParseAll(received).frames
  {
    StoppedStays(received, pending);
    ConcatPrefix(chunks, n);
    var rest :| Concat(chunks) == Concat(chunks[..n]) + rest;
    StoppedStays(Concat(chunks[..n]), rest);
  }

  lemma {:induction false} ConcatPrefix(chunks: seq<seq<Byte>>, n: nat)
    requires n <= |chunks|
    ensures exists rest: seq<Byte> :: Concat(chunks) == Concat(chunks[..n]) + rest
    decreases |chunks|
  {
    if n == |chunks| {
      assert chunks[..n] == chunks;
      assert Concat(chunks) == Concat(chunks[..n]) + [];
    } else {
      var m := |chunks| - 1;
      ConcatPrefix(chunks[..m], n);
      assert chunks[..m][..n] == chunks[..n];
      var rest: seq<Byte> :| Concat(chunks[..m]) == Concat(chunks[..n]) + rest;
      assert (Concat(chunks[..n]) + rest) + chunks[m] == Concat(chunks[..n]) + (rest + chunks[m]);
    }
  }
}
