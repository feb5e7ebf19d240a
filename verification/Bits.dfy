/** Bit strings, most significant bit first, and their packing into bytes and 64-bit words. */
module Bits {
  import opened Base

  type Bits = seq<bool>

  function Zeros(n: nat): Bits { seq(n, _ => false) }

  function Ones(n: nat): Bits { seq(n, _ => true) }

  // ---------- numbers ----------

  /** The `n` low binary digits of `v`. */
  function BitsOf(v: nat, n: nat): (r: Bits)
    ensures |r| == n
  {
    if n == 0 then [] else BitsOf(v / 2, n - 1) + [v % 2 == 1]
  }

  /** The number with the given binary digits. */
  function Value(bits: Bits): (r: nat)
    ensures r < Pow2(|bits|)
  {
    if bits == [] then 0
    else 2 * Value(bits[..|bits| - 1]) + (if bits[|bits| - 1] then 1 else 0)
  }

  lemma {:induction false} BitsOfValue(bits: Bits)
    ensures BitsOf(Value(bits), |bits|) == bits
  {
    if bits != [] { BitsOfValue(bits[..|bits| - 1]); }
  }

  lemma {:induction false} Digit(h: nat, d: nat, n: nat)
    requires d < 2
    ensures BitsOf(2 * h + d, n + 1) == BitsOf(h, n) + [d == 1]
  {
    assert (2 * h + d) / 2 == h && (2 * h + d) % 2 == d;
  }

  lemma {:induction false} TwoDigits(h: nat, d1: nat, d0: nat, n: nat)
    requires d1 < 2 && d0 < 2
    ensures BitsOf(4 * h + 2 * d1 + d0, n + 2) == BitsOf(h, n) + [d1 == 1, d0 == 1]
  {
    Digit(2 * h + d1, d0, n + 1);
    Digit(h, d1, n);
  }

  /** The last four digits, written out. */
  lemma {:induction false} FourDigits(h: nat, d3: nat, d2: nat, d1: nat, d0: nat, n: nat)
    requires d3 < 2 && d2 < 2 && d1 < 2 && d0 < 2
    ensures BitsOf(16 * h + 8 * d3 + 4 * d2 + 2 * d1 + d0, n + 4) ==
      BitsOf(h, n) + [d3 == 1, d2 == 1, d1 == 1, d0 == 1]
  {
    TwoDigits(4 * h + 2 * d3 + d2, d1, d0, n + 2);
    TwoDigits(h, d3, d2, n);
  }

  // ---------- bytes ----------

  function NibbleBits(n: nat): Bits
    requires n < 16
  {
    BitsOf(n, 4)
  }

  function ByteBits(b: Byte): Bits { BitsOf(b, 8) }

  /** A byte is its high nibble followed by its low nibble. */
  lemma {:induction false} ByteIsNibbles(b: Byte)
    ensures ByteBits(b) == NibbleBits(b / 16) + NibbleBits(b % 16)
  {
    var h, low := b / 16, b % 16;
    var d3, d2, d1, d0 := low / 8, low / 4 % 2, low / 2 % 2, low % 2;
    assert low == 8 * d3 + 4 * d2 + 2 * d1 + d0;
    FourDigits(h, d3, d2, d1, d0, 4);
    FourDigits(0, d3, d2, d1, d0, 0);
  }

  function BytesBits(bs: seq<Byte>): (r: Bits)
    ensures |r| == 8 * |bs|
  {
    if bs == [] then [] else ByteBits(bs[0]) + BytesBits(bs[1..])
  }

  function ByteOf(bits: Bits): Byte
    requires |bits| == 8
  {
    assert Pow2(8) == 256;
    Value(bits)
  }

  /** The bytes whose bits are `bits`; bits beyond a whole number of bytes are ignored. */
  function BytesOf(bits: Bits): (bs: seq<Byte>)
    ensures 8 * |bs| <= |bits| < 8 * |bs| + 8
  {
    if |bits| < 8 then [] else [ByteOf(bits[..8])] + BytesOf(bits[8..])
  }

  /** Packing a bit string into bytes loses nothing. */
  lemma {:induction false} BytesBitsOf(bits: Bits)
    requires |bits| % 8 == 0
    ensures BytesBits(BytesOf(bits)) == bits
  {
    if bits != [] {
      BitsOfValue(bits[..8]);
      BytesBitsOf(bits[8..]);
    }
  }

  lemma {:induction false} BytesBitsConcat(a: seq<Byte>, b: seq<Byte>)
    ensures BytesBits(a + b) == BytesBits(a) + BytesBits(b)
  {
    if a == [] {
      assert a + b == b;
    } else {
      assert (a + b)[1..] == a[1..] + b;
      BytesBitsConcat(a[1..], b);
    }
  }

  lemma {:induction false} BytesOfConcat(a: Bits, b: Bits)
    requires |a| % 8 == 0 && |b| % 8 == 0
    ensures BytesOf(a + b) == BytesOf(a) + BytesOf(b)
  {
    if a == [] {
      assert a + b == b;
    } else {
      assert (a + b)[..8] == a[..8] && (a + b)[8..] == a[8..] + b;
      BytesOfConcat(a[8..], b);
    }
  }

  lemma {:induction false} BytesOfAt(bits: Bits, i: nat)
    requires |bits| % 8 == 0 && 8 * i + 8 <= |bits|
    ensures BytesOf(bits)[i] == ByteOf(bits[8 * i..8 * i + 8])
  {
    if i > 0 {
      BytesOfAt(bits[8..], i - 1);
      SliceOfSlice(bits, 8, |bits|, 8 * i - 8, 8 * i);
      assert bits[8..] == bits[8..|bits|];
    }
  }

  lemma {:induction false} SliceOfSlice(s: Bits, a: nat, b: nat, c: nat, d: nat)
    requires a <= b <= |s| && c <= d <= b - a
    ensures s[a..b][c..d] == s[a + c..a + d]
  {
    forall k | 0 <= k < d - c ensures s[a..b][c..d][k] == s[a + c..a + d][k] {
      assert s[a..b][c + k] == s[a + (c + k)];
    }
  }

  /** Whole-byte slices of a bit string are slices of its bytes. */
  lemma {:induction false} BytesOfSlice(bits: Bits, i: nat, n: nat)
    requires |bits| % 8 == 0 && 8 * (i + n) <= |bits|
    ensures BytesOf(bits[8 * i..8 * (i + n)]) == BytesOf(bits)[i..i + n]
  {
    var part := bits[8 * i..8 * (i + n)];
    forall j | 0 <= j < n ensures BytesOf(part)[j] == BytesOf(bits)[i + j] {
      BytesOfAt(part, j);
      BytesOfAt(bits, i + j);
      SliceOfSlice(bits, 8 * i, 8 * (i + n), 8 * j, 8 * j + 8);
    }
  }

  // ---------- 64-bit words ----------

  /** A machine word as its 64 bits. */
  type Word = w: Bits | |w| == 64 witness Zeros(64)

  /** `w << n`: bits pushed past the top are lost. */
  function Shl(w: Word, n: nat): Word
    requires n < 64
  {
    w[n..] + Zeros(n)
  }

  function Shr(w: Word, n: nat): Word
    requires n < 64
  {
    Zeros(n) + w[..64 - n]
  }

  function Or(a: Word, b: Word): Word { seq(64, i requires 0 <= i < 64 => a[i] || b[i]) }

  /** The word holding the number whose binary digits are `digits`. */
  function WordOf(digits: Bits): Word
    requires |digits| <= 64
  {
    Zeros(64 - |digits|) + digits
  }

  /** The low `n` bits of a word, as a narrowing cast keeps them. */
  function Low(w: Word, n: nat): Bits
    requires n <= 64
  {
    w[64 - n..]
  }

  /** OR-ing a value into the zero part of a word appends its bits. */
  lemma {:induction false} OrAppends(head: Bits, mid: Bits, tail: nat)
    requires |head| + |mid| + tail == 64
    ensures Or(head + Zeros(64 - |head|), Zeros(|head|) + mid + Zeros(tail)) == head + mid + Zeros(tail)
  {}
}
