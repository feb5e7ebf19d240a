/** The Huffman code of HPACK (section 5.2 and Appendix B of RFC 7541) as a function on bit
    strings, for any prefix code of the same shape as the one in octets/src/huffman_table.rs.

    `DecodeBits` walks the code tree bit by bit; `NibbleEntry` is the entry of the table-driven
    automaton, that is, four tree steps at once. */
module Huffman {
  import opened Base
  import opened Bits

  const EOS: nat := 256

  /** `words[s]` is the code word of byte `s`; `words[256]` is the end-of-string marker. */
  datatype Code = Code(words: seq<Bits>)

  /** Code words are between 5 and 30 bits long. */
  predicate Sized(c: Code) {
    |c.words| == 257 && forall i :: 0 <= i < 257 ==> 5 <= |c.words[i]| <= 30
  }

  /** Moreover, no word is a prefix of another, and the end marker is thirty ones. */
  ghost predicate ValidCode(c: Code) {
    && Sized(c)
    && (forall i, j :: 0 <= i < 257 && 0 <= j < 257 && c.words[i] <= c.words[j] ==> i == j)
    && c.words[EOS] == Ones(30)
  }

  // ---------- the meaning of an encoded string ----------

  function EncodeBits(c: Code, v: seq<Byte>): Bits
    requires |c.words| == 257
  {
    if v == [] then [] else c.words[v[0]] + EncodeBits(c, v[1..])
  }

  /** Bits missing to the next byte boundary. */
  function PadLength(n: nat): (p: nat)
    ensures p < 8 && (n + p) % 8 == 0
  {
    (8 - n % 8) % 8
  }

  lemma {:induction false} PadUnique(n: nat, p: nat, bytes: nat)
    requires p < 8 && n + p == 8 * bytes
    ensures p == PadLength(n)
  {}

  /** The code words in order, filled up with ones to a whole number of bytes. */
  function Encode(c: Code, v: seq<Byte>): seq<Byte>
    requires |c.words| == 257
  {
    var bits := EncodeBits(c, v);
    BytesOf(bits + Ones(PadLength(|bits|)))
  }

  function ToLower(b: Byte): Byte { if 65 <= b <= 90 then b + 32 else b }

  const CAPITALS: string := "ABCDEFGHIJKLMNOPQRSTUVWXYZ"
  const SMALL: string := "abcdefghijklmnopqrstuvwxyz"

  /** The capital letters and the small ones are consecutive bytes. */
  lemma {:induction false} Alphabet(k: nat)
    requires k < 26
    ensures CAPITALS[k] as int == 65 + k && SMALL[k] as int == 97 + k
  {}

  predicate IsCapital(b: Byte) { exists k :: 0 <= k < 26 && CAPITALS[k] as int == b }

  /** `w` is how `v` is spelled: with the k-th small letter for the k-th capital if letters are to
      be lower-cased, and unchanged otherwise. */
  ghost predicate Spelled(lowerCase: bool, v: seq<Byte>, w: seq<Byte>) {
    && |w| == |v|
    && (!lowerCase ==> w == v)
    && (lowerCase ==>
          && (forall i, k :: 0 <= i < |v| && 0 <= k < 26 && v[i] == CAPITALS[k] as int ==> w[i] == SMALL[k] as int)
          && (forall i :: 0 <= i < |v| && !IsCapital(v[i]) ==> w[i] == v[i]))
  }

  lemma {:induction false} LowerLetter(b: Byte)
    ensures forall k :: 0 <= k < 26 && b == CAPITALS[k] as int ==> ToLower(b) == SMALL[k] as int
    ensures !IsCapital(b) ==> ToLower(b) == b
    ensures !IsCapital(ToLower(b))
  {
    forall k | 0 <= k < 26 ensures CAPITALS[k] as int == 65 + k && SMALL[k] as int == 97 + k { Alphabet(k); }
    if 65 <= b <= 90 { assert CAPITALS[b - 65] as int == b; }
  }

  function Lowered(lowerCase: bool, v: seq<Byte>): (r: seq<Byte>)
    ensures |r| == |v| && Spelled(lowerCase, v, r)
  {
    if lowerCase then
      var r := seq(|v|, i requires 0 <= i < |v| => ToLower(v[i]));
      assert Spelled(true, v, r) by {
        forall i | 0 <= i < |v| ensures r[i] == ToLower(v[i]) { LowerLetter(v[i]); }
        forall i, k | 0 <= i < |v| && 0 <= k < 26 && v[i] == CAPITALS[k] as int ensures r[i] == SMALL[k] as int {
          LowerLetter(v[i]);
        }
        forall i | 0 <= i < |v| && !IsCapital(v[i]) ensures r[i] == v[i] { LowerLetter(v[i]); }
      }
      r
    else v
  }

  /** There is one way to spell a string, and lower-cased it has no capital letter. */
  lemma {:induction false} SpelledOnce(lowerCase: bool, v: seq<Byte>, w: seq<Byte>)
    requires Spelled(lowerCase, v, w)
    ensures w == Lowered(lowerCase, v)
    ensures lowerCase ==> forall b <- w :: !IsCapital(b)
  {
    var r := Lowered(lowerCase, v);
    forall i | 0 <= i < |v| ensures w[i] == r[i] && (lowerCase ==> !IsCapital(w[i])) {
      LowerLetter(v[i]);
      if lowerCase && IsCapital(v[i]) {
        var k :| 0 <= k < 26 && CAPITALS[k] as int == v[i];
        assert w[i] == SMALL[k] as int == r[i] == ToLower(v[i]);
      }
    }
  }

  lemma {:induction false} EncodeConcat(c: Code, a: seq<Byte>, b: seq<Byte>)
    requires |c.words| == 257
    ensures EncodeBits(c, a + b) == EncodeBits(c, a) + EncodeBits(c, b)
  {
    if a == [] {
      assert a + b == b;
    } else {
      assert (a + b)[1..] == a[1..] + b;
      EncodeConcat(c, a[1..], b);
    }
  }

  lemma {:induction false} EncodeLength(c: Code, v: seq<Byte>)
    requires ValidCode(c)
    ensures 5 * |v| <= |EncodeBits(c, v)| <= 30 * |v|
  {
    if v != [] { EncodeLength(c, v[1..]); }
  }

  // ---------- walking the code tree ----------

  predicate OnTree(c: Code, q: Bits) { exists w <- c.words :: q <= w }

  /** Where a walk stands: the path from the root and the bytes decoded so far. */
  datatype Walk = At(path: Bits, out: seq<Byte>) | Failed

  /** One edge down the tree.  Reaching a leaf emits its byte and goes back to the root; reaching
      the end marker, or leaving the tree, is an error. */
  function Step(c: Code, w: Walk, bit: bool): Walk
    requires |c.words| == 257
  {
    match w
    case Failed => Failed
    case At(path, out) =>
      var q := path + [bit];
      var k := IndexOf(c.words, q);
      if k < EOS then At([], out + [k])
      else if k == EOS then Failed
      else if OnTree(c, q) then At(q, out)
      else Failed
  }

  function WalkBits(c: Code, w: Walk, bits: Bits): Walk
    requires |c.words| == 257
    decreases |bits|
  {
    if bits == [] then w else WalkBits(c, Step(c, w, bits[0]), bits[1..])
  }

  /** A string may end at the root or inside padding: at most seven bits, all ones. */
  predicate MayEnd(path: Bits) { |path| <= 7 && path == Ones(|path|) }

  function DecodeBits(c: Code, bits: Bits): Option<seq<Byte>>
    requires |c.words| == 257
  {
    match WalkBits(c, At([], []), bits)
    case Failed => None
    case At(path, out) => if MayEnd(path) then Some(out) else None
  }

  lemma {:induction false} WalkConcat(c: Code, w: Walk, a: Bits, b: Bits)
    requires |c.words| == 257
    ensures WalkBits(c, w, a + b) == WalkBits(c, WalkBits(c, w, a), b)
    decreases |a|
  {
    if a == [] {
      assert a + b == b;
    } else {
      assert (a + b)[1..] == a[1..] + b;
      WalkConcat(c, Step(c, w, a[0]), a[1..], b);
    }
  }

  lemma {:induction false} WalkFailed(c: Code, bits: Bits)
    requires |c.words| == 257
    ensures WalkBits(c, Failed, bits) == Failed
    decreases |bits|
  {
    if bits != [] { WalkFailed(c, bits[1..]); }
  }

  /** A walk that did not fail has read the code words of its output and then its path. */
  lemma {:induction false} WalkMeans(c: Code, path: Bits, out: seq<Byte>, bits: Bits)
    requires ValidCode(c)
    ensures var w := WalkBits(c, At(path, out), bits);
      w.At? ==> EncodeBits(c, out) + path + bits == EncodeBits(c, w.out) + w.path
    decreases |bits|
  {
    if bits != [] {
      var w := Step(c, At(path, out), bits[0]);
      if w.Failed? {
        WalkFailed(c, bits[1..]);
      } else {
        WalkMeans(c, w.path, w.out, bits[1..]);
        assert EncodeBits(c, out) + path + [bits[0]] == EncodeBits(c, w.out) + w.path by {
          StepMeans(c, path, out, bits[0]);
        }
        assert EncodeBits(c, out) + path + bits == (EncodeBits(c, out) + path + [bits[0]]) + bits[1..];
      }
    }
  }

  lemma {:induction false} StepMeans(c: Code, path: Bits, out: seq<Byte>, bit: bool)
    requires ValidCode(c)
    ensures var w := Step(c, At(path, out), bit);
      w.At? ==> EncodeBits(c, out) + path + [bit] == EncodeBits(c, w.out) + w.path
  {
    var q := path + [bit];
    var k := IndexOf(c.words, q);
    assert EncodeBits(c, out) + path + [bit] == EncodeBits(c, out) + q;
    if k < EOS {
      EncodeConcat(c, out, [k]);
      assert EncodeBits(c, [k]) == c.words[k] + EncodeBits(c, []);
      assert EncodeBits(c, out + [k]) == EncodeBits(c, out) + q;
    }
  }

  /** A proper prefix of a code word is on the tree and is not itself a code word. */
  lemma {:induction false} ProperPrefix(c: Code, k: nat, q: Bits)
    requires ValidCode(c) && k < 257 && q < c.words[k]
    ensures IndexOf(c.words, q) == 257 && OnTree(c, q)
  {
    forall i | 0 <= i < 257 ensures c.words[i] != q {
      if i != k { assert !(c.words[i] <= c.words[k]); }
    }
    assert c.words[k] in c.words && q <= c.words[k];
  }

  lemma {:induction false} WordFound(c: Code, k: nat)
    requires ValidCode(c) && k < 257
    ensures IndexOf(c.words, c.words[k]) == k
  {
    assert c.words[k] in c.words;
    var j := IndexOf(c.words, c.words[k]);
    assert c.words[j] <= c.words[k];
  }

  /** Reading part of a code word from inside it only moves down the tree. */
  lemma {:induction false} WalkInside(c: Code, k: nat, path: Bits, rest: Bits, out: seq<Byte>)
    requires ValidCode(c) && k < 257 && path + rest < c.words[k]
    ensures WalkBits(c, At(path, out), rest) == At(path + rest, out)
    decreases |rest|
  {
    if rest == [] {
      assert path + rest == path;
    } else {
      var q := path + [rest[0]];
      assert q + rest[1..] == path + rest;
      assert q < c.words[k];
      ProperPrefix(c, k, q);
      WalkInside(c, k, q, rest[1..], out);
    }
  }

  lemma {:induction false} WalkOne(c: Code, w: Walk, bit: bool)
    requires |c.words| == 257
    ensures WalkBits(c, w, [bit]) == Step(c, w, bit)
  {
    assert [bit][1..] == [];
  }

  /** Reading a whole code word from the root emits its byte. */
  lemma {:induction false} WalkWord(c: Code, k: Byte, out: seq<Byte>)
    requires ValidCode(c)
    ensures WalkBits(c, At([], out), c.words[k]) == At([], out + [k])
  {
    var w := c.words[k];
    var init, last := w[..|w| - 1], w[|w| - 1];
    assert w == init + [last] && [] + init == init;
    WalkInside(c, k, [], init, out);
    WalkConcat(c, At([], out), init, [last]);
    WalkOne(c, At(init, out), last);
    WordFound(c, k);
  }

  lemma {:induction false} WalkEncoded(c: Code, v: seq<Byte>, out: seq<Byte>)
    requires ValidCode(c)
    ensures WalkBits(c, At([], out), EncodeBits(c, v)) == At([], out + v)
    decreases |v|
  {
    if v == [] {
      assert out + v == out;
    } else {
      WalkConcat(c, At([], out), c.words[v[0]], EncodeBits(c, v[1..]));
      WalkWord(c, v[0], out);
      WalkEncoded(c, v[1..], out + [v[0]]);
      assert out + [v[0]] + v[1..] == out + v;
    }
  }

  /** Decoding characterised: a bit string decodes to `v` exactly when it is the encoding of `v`
      followed by at most seven one bits. */
  lemma {:induction false} DecodeExact(c: Code, bits: Bits, v: seq<Byte>)
    requires ValidCode(c)
    ensures DecodeBits(c, bits) == Some(v) <==>
      exists pad :: 0 <= pad <= 7 && bits == EncodeBits(c, v) + Ones(pad)
  {
    if DecodeBits(c, bits) == Some(v) {
      WalkMeans(c, [], [], bits);
      var w := WalkBits(c, At([], []), bits);
      assert EncodeBits(c, []) + [] + bits == bits;
      assert bits == EncodeBits(c, v) + Ones(|w.path|);
    }
    if pad :| 0 <= pad <= 7 && bits == EncodeBits(c, v) + Ones(pad) {
      WalkConcat(c, At([], []), EncodeBits(c, v), Ones(pad));
      WalkEncoded(c, v, []);
      assert [] + v == v && [] + Ones(pad) == Ones(pad);
      assert Ones(pad) == c.words[EOS][..pad];
      WalkInside(c, EOS, [], Ones(pad), v);
    }
  }

  /** Round trip: decoding what `Encode` produced gives the string back. */
  lemma {:induction false} RoundTrip(c: Code, v: seq<Byte>)
    requires ValidCode(c)
    ensures DecodeBits(c, BytesBits(Encode(c, v))) == Some(v)
  {
    var bits := EncodeBits(c, v);
    BytesBitsOf(bits + Ones(PadLength(|bits|)));
    DecodeExact(c, bits + Ones(PadLength(|bits|)), v);
  }

  /** Round trip with lower-casing: what is encoded decodes to the string with every capital letter
      replaced by its small one, and nothing else changed; without it, to the string itself. */
  lemma {:induction false} SpelledRoundTrip(c: Code, lowerCase: bool, v: seq<Byte>)
    requires ValidCode(c)
    ensures exists w ::
              && DecodeBits(c, BytesBits(Encode(c, Lowered(lowerCase, v)))) == Some(w)
              && Spelled(lowerCase, v, w) && (lowerCase ==> forall b <- w :: !IsCapital(b))
  {
    var w := Lowered(lowerCase, v);
    RoundTrip(c, w);
    SpelledOnce(lowerCase, v, w);
  }

  /** `Encode` is injective, and it produces the only whole-byte string that decodes to `v`. */
  lemma {:induction false} EncodingUnique(c: Code, bytes: seq<Byte>, v: seq<Byte>)
    requires ValidCode(c) && DecodeBits(c, BytesBits(bytes)) == Some(v)
    ensures BytesBits(bytes) == BytesBits(Encode(c, v))
  {
    DecodeExact(c, BytesBits(bytes), v);
    var bits := EncodeBits(c, v);
    var pad :| 0 <= pad <= 7 && BytesBits(bytes) == bits + Ones(pad);
    PadUnique(|bits|, pad, |bytes|);
    BytesBitsOf(bits + Ones(pad));
  }

  /** A decoded string has at most 8/5 bytes per input byte, so twice the input is enough room. */
  lemma {:induction false} DecodedLength(c: Code, bytes: seq<Byte>, v: seq<Byte>)
    requires ValidCode(c) && DecodeBits(c, BytesBits(bytes)) == Some(v)
    ensures 5 * |v| <= 8 * |bytes| && |v| <= 2 * |bytes|
  {
    var n := |EncodeBits(c, v)|;
    assert n <= 8 * |bytes| by {
      DecodeExact(c, BytesBits(bytes), v);
      var pad :| 0 <= pad <= 7 && BytesBits(bytes) == EncodeBits(c, v) + Ones(pad);
    }
    assert 5 * |v| <= n by { EncodeLength(c, v); }
  }

  // ---------- the nibble automaton ----------

  /** A table entry: the next node, the byte emitted if any, and the error and end flags. */
  datatype TableEntry = TableEntry(next: Bits, symbol: Option<Byte>, error: bool, end: bool)

  function NibbleEntry(c: Code, path: Bits, nibble: nat): TableEntry
    requires |c.words| == 257 && nibble < 16
  {
    match WalkBits(c, At(path, []), NibbleBits(nibble))
    case Failed => TableEntry([], None, true, false)
    case At(next, out) =>
      TableEntry(next, if out == [] then None else Some(out[0]), false, next != [] && MayEnd(next))
  }

  /** Bytes already decoded do not influence a walk. */
  lemma {:induction false} WalkFrame(c: Code, path: Bits, out: seq<Byte>, out': seq<Byte>, bits: Bits)
    requires |c.words| == 257
    ensures var w, w' := WalkBits(c, At(path, out), bits), WalkBits(c, At(path, out' + out), bits);
      (w.Failed? <==> w'.Failed?) && (w.At? ==> w' == At(w.path, out' + w.out))
    decreases |bits|
  {
    if bits != [] {
      var w := Step(c, At(path, out), bits[0]);
      var k := IndexOf(c.words, path + [bits[0]]);
      if w.Failed? {
        WalkFailed(c, bits[1..]);
      } else {
        if k < EOS { assert out' + (out + [k]) == (out' + out) + [k]; }
        WalkFrame(c, w.path, w.out, out', bits[1..]);
      }
    }
  }

  /** From the root, fewer than five bits emit nothing. */
  lemma {:induction false} ShortWalk(c: Code, path: Bits, out: seq<Byte>, bits: Bits)
    requires ValidCode(c) && |path| + |bits| < 5
    ensures var w := WalkBits(c, At(path, out), bits); w.At? ==> w.out == out
    decreases |bits|
  {
    if bits != [] {
      var w := Step(c, At(path, out), bits[0]);
      if w.Failed? { WalkFailed(c, bits[1..]); } else { ShortWalk(c, w.path, w.out, bits[1..]); }
    }
  }

  /** Four bits emit at most one byte. */
  lemma {:induction false} AtMostOne(c: Code, path: Bits, bits: Bits)
    requires ValidCode(c) && |bits| <= 4
    ensures var w := WalkBits(c, At(path, []), bits); w.At? ==> |w.out| <= 1
    decreases |bits|
  {
    if bits != [] {
      var w := Step(c, At(path, []), bits[0]);
      if w.Failed? { WalkFailed(c, bits[1..]); }
      else if w.out == [] { AtMostOne(c, w.path, bits[1..]); }
      else { ShortWalk(c, [], w.out, bits[1..]); }
    }
  }

  /** One table lookup advances the walk by the four bits of the nibble. */
  lemma {:induction false} NibbleStep(c: Code, path: Bits, out: seq<Byte>, nibble: nat)
    requires ValidCode(c) && nibble < 16
    ensures var t := NibbleEntry(c, path, nibble);
      WalkBits(c, At(path, out), NibbleBits(nibble)) ==
        if t.error then Failed else At(t.next, if t.symbol.None? then out else out + [t.symbol.value])
  {
    AtMostOne(c, path, NibbleBits(nibble));
    WalkFrame(c, path, [], out, NibbleBits(nibble));
    assert out + [] == out;
  }
}
