/** The cursor types of octets/src/lib.rs: `Octets` reads from a byte string, `OctetsMut` writes
    into a fixed buffer.  Multi-byte integers are big-endian. */
module Octets {
  import opened Base
  import opened Bits
  import opened Huffman
  import opened Varint

  datatype BufferTooShortError = BufferTooShortError

  // ---------- the 64-bit accumulator ----------

  /** The accumulator holding the bits `pending` at its top. */
  function Packed(pending: Bits): Word
    requires |pending| <= 64
  {
    pending + Zeros(64 - |pending|)
  }

  /** There is room: the code word lands right after the pending bits. */
  lemma {:induction false} PackFits(flushed: Bits, pending: Bits, word: Bits)
    requires 0 < |word| && |pending| + |word| < 64
    ensures Or(Packed(pending), Shl(WordOf(word), 64 - (|pending| + |word|))) == Packed(pending + word)
    ensures flushed + (pending + word) == (flushed + pending) + word
  {
    var n := |pending| + |word|;
    assert Shl(WordOf(word), 64 - n) == Zeros(|pending|) + word + Zeros(64 - n);
    OrAppends(pending, word, 64 - n);
  }

  /** The accumulator overflows: the first part of the code word completes it, the rest starts
      the next one. */
  lemma {:induction false} PackSpills(flushed: Bits, pending: Bits, word: Bits)
    requires |pending| < 64 <= |pending| + |word| && |word| < 64
    ensures var spill := |pending| + |word| - 64;
      var full := Or(Packed(pending), Shr(WordOf(word), spill));
      && full == pending + word[..|word| - spill]
      && Packed(word[|word| - spill..]) == (if spill == 0 then Zeros(64) else Shl(WordOf(word), 64 - spill))
      && (flushed + full) + word[|word| - spill..] == (flushed + pending) + word
  {
    var spill := |pending| + |word| - 64;
    var part := word[..|word| - spill];
    assert Shr(WordOf(word), spill) == Zeros(|pending|) + part + Zeros(0);
    OrAppends(pending, part, 0);
    assert pending + part + Zeros(0) == pending + part;
    assert (flushed + (pending + part)) + word[|word| - spill..] == (flushed + pending) + word;
  }

  /** Adds one code word to the accumulator; a full accumulator is handed out to be written. */
  method AddCode(accumulator: Word, fill: nat, word: Bits, ghost flushed: Bits, ghost tail: Bits)
    returns (bits: Word, pending: nat, full: Option<Word>, ghost tail': Bits)
    requires |tail| == fill < 64 && accumulator == Packed(tail) && 0 < |word| < 64
    ensures |tail'| == pending < 64 && bits == Packed(tail')
    ensures (if full.None? then flushed else flushed + full.value) + tail' == (flushed + tail) + word
  {
    var code, nbits := WordOf(word), |word|;
    bits, pending := accumulator, fill + nbits;
    if pending < 64 {
      PackFits(flushed, tail, word);
      bits := Or(bits, Shl(code, 64 - pending));
      return bits, pending, None, tail + word;
    }
    PackSpills(flushed, tail, word);
    pending := pending - 64;
    bits := Or(bits, Shr(code, pending));
    full, tail' := Some(bits), word[nbits - pending..];
    bits := if pending == 0 then Zeros(64) else Shl(code, 64 - pending);
  }

  /** The final accumulator: pending bits, then ones up to the byte boundary `total`. */
  lemma {:induction false} PackTail(pending: Bits, total: nat)
    requires 0 < |pending| <= total <= 64 && |pending| < 64
    ensures Shr(Or(Packed(pending), Shr(Ones(64), |pending|)), if total == 64 then 0 else 64 - total)
         == Zeros(64 - total) + pending + Ones(total - |pending|)
  {
    assert Or(Packed(pending), Shr(Ones(64), |pending|)) == pending + Ones(64 - |pending|);
    assert (pending + Ones(64 - |pending|))[..total] == pending + Ones(total - |pending|);
  }

  lemma {:induction false} EncodeSplit(c: Code, v: seq<Byte>, i: nat)
    requires Sized(c) && i < |v|
    ensures EncodeBits(c, v[..i + 1]) == EncodeBits(c, v[..i]) + c.words[v[i]]
    ensures |EncodeBits(c, v[..i + 1])| <= |EncodeBits(c, v)|
  {
    assert v[..i + 1] == v[..i] + [v[i]];
    EncodeConcat(c, v[..i], [v[i]]);
    assert EncodeBits(c, [v[i]]) == c.words[v[i]] + EncodeBits(c, [v[i]][1..]);
    assert v == v[..i + 1] + v[i + 1..];
    EncodeConcat(c, v[..i + 1], v[i + 1..]);
  }

  /** The length of an encoding, without producing it; an error if it would be longer than the input. */
  method HuffmanEncodingLen(c: Code, src: seq<Byte>, lowerCase: bool)
    returns (r: Result<nat, BufferTooShortError>)
    requires Sized(c)
    ensures var n := |Encode(c, Lowered(lowerCase, src))|;
      r == if n <= |src| then Ok(n) else Err(BufferTooShortError)
    ensures forall w :: Spelled(lowerCase, src, w) ==>
      r == if |Encode(c, w)| <= |src| then Ok(|Encode(c, w)|) else Err(BufferTooShortError)
  {
    var bits := 0;
    ghost var v := Lowered(lowerCase, src);
    for i := 0 to |src|
      invariant bits == |EncodeBits(c, v[..i])|
    {
      var b := if lowerCase then ToLower(src[i]) else src[i];
      EncodeSplit(c, v, i);
      bits := bits + |c.words[b]|;
    }
    assert v[..|src|] == v;
    var len := bits / 8;
    if bits % 8 != 0 { len := len + 1; }
    PadUnique(bits, 8 * len - bits, len);
    r := if len > |src| then Err(BufferTooShortError) else Ok(len);
    forall w | Spelled(lowerCase, src, w) ensures w == v { SpelledOnce(lowerCase, src, w); }
  }

  // ---------- writing ----------

  /** An attempt to write `bytes` between `before` and `after` ended in `written` and `room`: it
      succeeds exactly when there is room, and leaves what was written before alone. */
  ghost predicate Wrote(r: Result<(), BufferTooShortError>, before: seq<Byte>, after: seq<Byte>, bytes: seq<Byte>,
                        written: seq<Byte>, room: seq<Byte>)
  {
    && (r.Ok? <==> |bytes| <= |after|)
    && (r.Ok? ==> written == before + bytes && room == after[|bytes|..])
    && before <= written
  }

  /** Two writes in a row are one write of both byte strings. */
  lemma {:induction false} WroteBoth(r: Result<(), BufferTooShortError>, before: seq<Byte>, after: seq<Byte>,
                                     a: seq<Byte>, b: seq<Byte>, written: seq<Byte>, room: seq<Byte>)
    requires |a| <= |after| && Wrote(r, before + a, after[|a|..], b, written, room)
    ensures Wrote(r, before, after, a + b, written, room)
  {
    assert before <= before + a;
    if r.Ok? {
      assert after[|a|..][|b|..] == after[|a + b|..];
      assert (before + a) + b == before + (a + b);
    }
  }

  class OctetsMut {
    const buf: array<Byte>
    var off: nat

    /** What lies before and after the cursor. */
    ghost var written: seq<Byte>
    ghost var room: seq<Byte>

    ghost predicate Valid()
      reads this, buf
    {
      off == |written| && buf[..] == written + room
    }

    constructor (buf: array<Byte>)
      ensures Valid() && this.buf == buf && written == [] && room == buf[..]
    {
      this.buf, off, written, room := buf, 0, [], buf[..];
    }

    /** Copies `bytes` to the cursor and moves past them, or fails and changes nothing. */
    method Put(bytes: seq<Byte>) returns (r: Result<(), BufferTooShortError>)
      requires Valid()
      modifies this, buf
      ensures Valid()
      ensures |bytes| <= |old(room)| ==>
                r.Ok? && written == old(written) + bytes && room == old(room)[|bytes|..]
      ensures |bytes| > |old(room)| ==> r.Err? && written == old(written) && room == old(room)
    {
      assert |buf[..]| == |written| + |room|;
      if buf.Length < off + |bytes| { return Err(BufferTooShortError); }
      forall i | 0 <= i < |bytes| { buf[off + i] := bytes[i]; }
      off := off + |bytes|;
      written, room := written + bytes, room[|bytes|..];
      r := Ok(());
    }

    /** Writes the low `n` bytes of the accumulator one by one. */
    method PutEach(bits: Word, n: nat) returns (r: Result<(), BufferTooShortError>)
      requires Valid() && n <= 8
      modifies this, buf
      ensures Valid() && Wrote(r, old(written), old(room), BytesOf(Low(bits, 8 * n)), written, room)
    {
      var pending: nat := 8 * n;
      ghost var start, all := written, BytesOf(Low(bits, 8 * n));
      ghost var k: nat := 0;
      r := Ok(());
      while pending > 0
        invariant r.Ok? && Valid() && k <= n && pending == 8 * (n - k)
        invariant written == start + all[..k] && k <= |old(room)| && room == old(room)[k..]
      {
        pending := pending - 8;
        var next := TailByte(bits, pending, n, k);
        r := Put(next);
        if r.Err? { return; }
        assert (start + all[..k]) + all[k..k + 1] == start + all[..k + 1];
        k := k + 1;
      }
      assert all[..k] == all;
    }

    /** Writes the low `n` bytes of the accumulator, four at once if there are that many. */
    method PutTail(bits: Word, n: nat) returns (r: Result<(), BufferTooShortError>)
      requires Valid() && n <= 8
      modifies this, buf
      ensures Valid() && Wrote(r, old(written), old(room), BytesOf(Low(bits, 8 * n)), written, room)
    {
      var bytes := n;
      if 8 * bytes >= 32 {
        bytes := bytes - 4;
        TailSlice(bits, n, 0, 4);
        TailRest(bits, n, 4);
        ghost var all := BytesOf(Low(bits, 8 * n));
        assert all == all[0..4] + all[4..];
        r := Put(BytesOf(Low(Shr(bits, 8 * bytes), 32)));
        if r.Err? { return; }
        r := PutEach(bits, bytes);
        WroteBoth(r, old(written), old(room), all[0..4], all[4..], written, room);
        return;
      }
      r := PutEach(bits, bytes);
    }

    /** Since the cursor was between `before` and `after`, exactly the bits `bits` were written. */
    ghost predicate Produced(before: seq<Byte>, after: seq<Byte>, bits: Bits)
      reads this
    {
      && |bits| % 8 == 0 && |BytesOf(bits)| <= |after|
      && written == before + BytesOf(bits) && room == after[|BytesOf(bits)|..]
    }

    method PutU64(bits: Word, ghost before: seq<Byte>, ghost after: seq<Byte>, ghost flushed: Bits)
      returns (r: Result<(), BufferTooShortError>)
      requires Valid() && Produced(before, after, flushed)
      modifies this, buf
      ensures Valid() && Produced(before, after, if r.Ok? then flushed + bits else flushed)
      ensures r.Err? ==> 8 * |after| < |flushed| + 64
    {
      FlushAdds(flushed, bits);
      r := Put(BytesOf(bits));
    }

    /** Packs the code words into 64-bit accumulators and writes every full one.  `flushed` are the
        bits written, `tail` those left in the accumulator. */
    method PutCodes(c: Code, v: seq<Byte>, lowerCase: bool)
      returns (r: Result<(), BufferTooShortError>, bits: Word, pending: nat, ghost flushed: Bits, ghost tail: Bits)
      requires Valid() && Sized(c)
      modifies this, buf
      ensures Valid() && Produced(old(written), old(room), flushed)
      ensures r.Ok? ==> flushed + tail == EncodeBits(c, Lowered(lowerCase, v))
      ensures r.Ok? ==> |tail| == pending < 64 && bits == Packed(tail)
      ensures r.Err? ==> 8 * |old(room)| < |EncodeBits(c, Lowered(lowerCase, v))|
    {
      bits, pending, flushed, tail := Zeros(64), 0, [], [];
      ghost var src := Lowered(lowerCase, v);
      assert Packed([]) == Zeros(64);
      for i := 0 to |v|
        invariant Valid() && Produced(old(written), old(room), flushed)
        invariant |tail| == pending < 64 && bits == Packed(tail)
        invariant flushed + tail == EncodeBits(c, src[..i])
      {
        var b := if lowerCase then ToLower(v[i]) else v[i];
        var full;
        EncodeSplit(c, src, i);
        bits, pending, full, tail := AddCode(bits, pending, c.words[b], flushed, tail);
        if full.Some? {
          r := PutU64(full.value, old(written), old(room), flushed);
          if r.Err? { return; }
          flushed := flushed + full.value;
        }
      }
      assert src[..|v|] == src;
      r := Ok(());
    }

    /** Writes the pending bits of a partly filled accumulator, padded with ones. */
    method PutPadded(accumulator: Word, pending: nat, ghost tail: Bits) returns (r: Result<(), BufferTooShortError>)
      requires Valid() && |tail| == pending < 64 && accumulator == Packed(tail)
      modifies this, buf
      ensures Valid()
      ensures Wrote(r, old(written), old(room), BytesOf(tail + Ones(PadLength(pending))), written, room)
    {
      if pending == 0 { return Ok(()); }
      var bits := Or(accumulator, Shr(Ones(64), pending));
      var n := (pending + 7) / 8;
      PadUnique(pending, 8 * n - pending, n);
      PackTail(tail, 8 * n);
      bits := Shr(bits, 64 - 8 * n);
      assert Low(bits, 8 * n) == tail + Ones(PadLength(pending));
      r := PutTail(bits, n);
    }

    /** Writes `v` Huffman-encoded: exactly `Encode`'s bytes when they fit, an error otherwise. */
    method PutHuffmanEncoded(c: Code, v: seq<Byte>, lowerCase: bool) returns (r: Result<(), BufferTooShortError>)
      requires Valid() && Sized(c)
      modifies this, buf
      ensures Valid()
      ensures Wrote(r, old(written), old(room), Encode(c, Lowered(lowerCase, v)), written, room)
      ensures forall w :: Spelled(lowerCase, v, w) ==> Wrote(r, old(written), old(room), Encode(c, w), written, room)
    {
      forall w | Spelled(lowerCase, v, w) ensures w == Lowered(lowerCase, v) { SpelledOnce(lowerCase, v, w); }
      var bits, pending;
      ghost var flushed, tail;
      r, bits, pending, flushed, tail := PutCodes(c, v, lowerCase);
      if r.Err? { return; }
      ghost var rest := BytesOf(tail + Ones(PadLength(pending)));
      SplitPadded(flushed, tail);
      r := PutPadded(bits, pending, tail);
      WroteBoth(r, old(written), old(room), BytesOf(flushed), rest, written, room);
    }

    /** Writes `v` as a varint of `n` bytes. */
    method PutVarintWithLen(v: nat, n: nat) returns (r: Result<(), BufferTooShortError>)
      requires Valid() && v <= U64_MAX && Length(n)
      modifies this, buf
      ensures Valid()
      ensures n <= |old(room)| ==>
                r.Ok? && written == old(written) + VarintBytes(v, n) && room == old(room)[n..]
      ensures n > |old(room)| ==> r.Err? && written == old(written) && room == old(room)
    {
      assert |buf[..]| == |written| + |room|;
      if buf.Length - off < n { return Err(BufferTooShortError); }
      var start := off;
      r := Put(BigEndian(v, n));
      var first := Tagged(buf[start], n);
      assert buf[start] == written[start] == BigEndian(v, n)[0];
      buf[start] := first;
      written := written[start := first];
    }

    method PutVarint(v: nat) returns (r: Result<(), BufferTooShortError>)
      requires Valid() && v <= MAX_VAR_INT
      modifies this, buf
      ensures Valid()
      ensures r.Ok? <==> VarintLen(v) <= |old(room)|
      ensures r.Ok? ==> written == old(written) + VarintBytes(v, VarintLen(v)) && room == old(room)[VarintLen(v)..]
      ensures r.Err? ==> written == old(written) && room == old(room)
    {
      r := PutVarintWithLen(v, VarintLen(v));
    }
  }

  // ---------- reading ----------

  class Octets {
    const buf: seq<Byte>
    var off: nat

    ghost predicate Valid()
      reads this
    {
      off <= |buf|
    }

    ghost function Rest(): seq<Byte>
      requires Valid()
      reads this
    {
      buf[off..]
    }

    constructor (buf: seq<Byte>)
      ensures Valid() && Rest() == buf
    {
      this.buf, off := buf, 0;
    }

    method GetU8() returns (r: Result<Byte, BufferTooShortError>)
      requires Valid()
      modifies this
      ensures Valid()
      ensures old(Rest()) == [] ==> r.Err? && off == old(off)
      ensures old(Rest()) != [] ==> r == Ok(old(Rest())[0]) && Rest() == old(Rest())[1..]
    {
      if off == |buf| { return Err(BufferTooShortError); }
      r := Ok(buf[off]);
      off := off + 1;
    }

    method GetBytes(n: nat) returns (r: Result<seq<Byte>, BufferTooShortError>)
      requires Valid()
      modifies this
      ensures Valid()
      ensures n > |old(Rest())| ==> r.Err? && off == old(off)
      ensures n <= |old(Rest())| ==> r == Ok(old(Rest())[..n]) && Rest() == old(Rest())[n..]
    {
      if |buf| - off < n { return Err(BufferTooShortError); }
      assert buf[off..off + n] == buf[off..][..n] && buf[off + n..] == buf[off..][n..];
      r := Ok(buf[off..off + n]);
      off := off + n;
    }

    /** Reads a varint; on failure the cursor stays. */
    method GetVarint() returns (r: Result<nat, BufferTooShortError>)
      requires Valid()
      modifies this
      ensures Valid()
      ensures match ReadVarint(old(Rest()))
        case None => r.Err? && off == old(off)
        case Some((v, n)) => r == Ok(v) && n <= |old(Rest())| && Rest() == old(Rest())[n..]
    {
      if off == |buf| { return Err(BufferTooShortError); }
      var n := VarintParseLen(buf[off]);
      if n > |buf| - off { return Err(BufferTooShortError); }
      var bytes := GetBytes(n);
      assert bytes.value[1..] == old(Rest())[1..n];
      MaskDropsLength(bytes.value);
      r := Ok(Masked(Number(bytes.value), n));
    }

    /** Decodes the rest of the buffer, two table lookups per byte; agrees with the bit-by-bit
        tree walk on every byte string. */
    method GetHuffmanDecoded(c: Code) returns (r: Result<seq<Byte>, BufferTooShortError>)
      requires Valid() && ValidCode(c)
      modifies this
      ensures Valid()
      ensures match DecodeBits(c, BytesBits(old(Rest())))
        case None => r.Err?
        case Some(v) => r == Ok(v) && Rest() == []
    {
      var out: seq<Byte> := [];
      var state: Bits := [];
      var eos := false;
      ghost var input := Rest();
      ghost var k := 0;
      while off < |buf|
        invariant Valid() && k <= |input| && Rest() == input[k..]
        invariant WalkBits(c, At([], []), BytesBits(input[..k])) == At(state, out)
        invariant eos == (state != [] && MayEnd(state))
        decreases |buf| - off
      {
        var byte := GetU8();
        assert byte.value == input[k];
        WalkNextByte(c, input, k);
        var failed;
        failed, state, out, eos := DecodeByte(c, byte.value, state, out);
        if failed { return Err(BufferTooShortError); }
        k := k + 1;
      }
      assert input[..k] == input;
      if state != [] && !eos { return Err(BufferTooShortError); }
      r := Ok(out);
    }
  }

  /** The walk over one more byte; a failed walk stays failed. */
  lemma {:induction false} WalkNextByte(c: Code, input: seq<Byte>, k: nat)
    requires |c.words| == 257 && k < |input|
    ensures var next := WalkBits(c, WalkBits(c, At([], []), BytesBits(input[..k])), ByteBits(input[k]));
      && WalkBits(c, At([], []), BytesBits(input[..k + 1])) == next
      && (next.Failed? ==> DecodeBits(c, BytesBits(input)).None?)
  {
    var before, byte, after := input[..k], [input[k]], input[k + 1..];
    assert input[..k + 1] == before + byte && input == (before + byte) + after;
    assert byte[1..] == [] && BytesBits(byte) == ByteBits(input[k]) + [] == ByteBits(input[k]);
    assert input[..k + 1] + after == input;
    BytesBitsConcat(before, byte);
    BytesBitsConcat(before + byte, after);
    WalkConcat(c, At([], []), BytesBits(before), BytesBits(byte));
    WalkConcat(c, At([], []), BytesBits(before + byte), BytesBits(after));
    WalkFailed(c, BytesBits(after));
  }

  /** Two table lookups, one per nibble. */
  method DecodeByte(c: Code, byte: Byte, state: Bits, out: seq<Byte>)
    returns (failed: bool, state': Bits, out': seq<Byte>, eos: bool)
    requires ValidCode(c)
    ensures WalkBits(c, At(state, out), ByteBits(byte)) == if failed then Failed else At(state', out')
    ensures !failed ==> eos == (state' != [] && MayEnd(state'))
  {
    state', out', eos := state, out, false;
    ByteIsNibbles(byte);
    WalkConcat(c, At(state, out), NibbleBits(byte / 16), NibbleBits(byte % 16));
    for i := 0 to 2
      invariant var read := if i == 0 then [] else if i == 1 then NibbleBits(byte / 16) else ByteBits(byte);
        WalkBits(c, At(state, out), read)
             == At(state', out')
      invariant i > 0 ==> eos == (state' != [] && MayEnd(state'))
    {
      var data := if i == 0 then byte / 16 else byte % 16;
      var entry := NibbleEntry(c, state', data);
      NibbleStep(c, state', out', data);
      if entry.error {
        WalkFailed(c, NibbleBits(byte % 16));
        return true, state', out', false;
      }
      if entry.symbol.Some? { out' := out' + [entry.symbol.value]; }
      state', eos := entry.next, entry.end;
    }
    failed := false;
  }

  /** The padded string is what was flushed followed by the padded rest. */
  lemma {:induction false} SplitPadded(flushed: Bits, tail: Bits)
    requires |flushed| % 8 == 0
    ensures var pad := PadLength(|tail|);
      && PadLength(|flushed + tail|) == pad
      && BytesOf(flushed + tail + Ones(pad)) == BytesOf(flushed) + BytesOf(tail + Ones(pad))
  {
    var pad := PadLength(|tail|);
    PadUnique(|flushed + tail|, pad, |flushed| / 8 + (|tail| + pad) / 8);
    assert flushed + tail + Ones(pad) == flushed + (tail + Ones(pad));
    BytesOfConcat(flushed, tail + Ones(pad));
  }

  lemma {:induction false} FlushAdds(flushed: Bits, word: Word)
    requires |flushed| % 8 == 0
    ensures |flushed + word| % 8 == 0 && |BytesOf(word)| == 8
    ensures BytesOf(flushed + word) == BytesOf(flushed) + BytesOf(word)
  {
    BytesOfConcat(flushed, word);
  }

  /** The byte of the accumulator above its `pending` low bits. */
  method TailByte(bits: Word, pending: nat, ghost n: nat, ghost k: nat) returns (next: seq<Byte>)
    requires k < n <= 8 && pending == 8 * (n - k - 1)
    ensures |next| == 1 && next == BytesOf(Low(bits, 8 * n))[k..k + 1]
  {
    TailSlice(bits, n, k, 1);
    next := BytesOf(Low(Shr(bits, pending), 8));
  }

  /** A chunk taken from the accumulator is the corresponding slice of its bytes. */
  lemma {:induction false} TailSlice(bits: Word, total: nat, start: nat, n: nat)
    requires 0 < n && start + n <= total <= 8
    ensures BytesOf(Low(Shr(bits, 8 * (total - start - n)), 8 * n))
         == BytesOf(Low(bits, 8 * total))[start..start + n]
  {
    assert Low(Shr(bits, 8 * (total - start - n)), 8 * n) == Low(bits, 8 * total)[8 * start..8 * (start + n)];
    BytesOfSlice(Low(bits, 8 * total), start, n);
  }

  lemma {:induction false} TailRest(bits: Word, total: nat, start: nat)
    requires start <= total <= 8
    ensures BytesOf(Low(bits, 8 * (total - start))) == BytesOf(Low(bits, 8 * total))[start..]
  {
    assert Low(bits, 8 * (total - start)) == Low(bits, 8 * total)[8 * start..8 * total];
    BytesOfSlice(Low(bits, 8 * total), start, total - start);
  }
}
