/** QUIC variable-length integers (section 16 of RFC 9000, octets/src/lib.rs). */
module Varint {
  import opened Base

  const MAX_VAR_INT: nat := 4_611_686_018_427_387_903

  const U64_MAX: nat := 0xFFFF_FFFF_FFFF_FFFF

  /** The encodings a varint may have, by length in bytes. */
  predicate Length(n: nat) { n == 1 || n == 2 || n == 4 || n == 8 }

  /** The first value that does not fit into `n` bytes. */
  function Limit(n: nat): nat
    requires Length(n)
  {
    if n == 1 then 0x40 else if n == 2 then 0x4000 else if n == 4 then 0x4000_0000 else 0x4000_0000_0000_0000
  }

  function VarintLen(v: nat): nat
    requires v <= MAX_VAR_INT
  {
    if v <= 63 then 1 else if v <= 16383 then 2 else if v <= 1_073_741_823 then 4 else 8
  }

  function VarintParseLen(first: Byte): nat {
    match first / 64
    case 0 => 1
    case 1 => 2
    case 2 => 4
    case _ => 8
  }

  // ---------- big-endian numbers ----------

  function Pow256(n: nat): nat { if n == 0 then 1 else 256 * Pow256(n - 1) }

  /** The `n` low bytes of `v`, most significant first. */
  function BigEndian(v: nat, n: nat): (r: seq<Byte>)
    ensures |r| == n
  {
    if n == 0 then [] else BigEndian(v / 256, n - 1) + [v % 256]
  }

  function Number(bs: seq<Byte>): nat {
    if bs == [] then 0 else 256 * Number(bs[..|bs| - 1]) + bs[|bs| - 1]
  }

  lemma {:induction false} NumberOfBigEndian(v: nat, n: nat)
    requires v < Pow256(n)
    ensures Number(BigEndian(v, n)) == v
  {
    if n > 0 { NumberOfBigEndian(v / 256, n - 1); }
  }

  /** The first byte counts most. */
  lemma {:induction false} NumberHead(b: Byte, bs: seq<Byte>)
    ensures Number([b] + bs) == b * Pow256(|bs|) + Number(bs)
  {
    var all := [b] + bs;
    if bs == [] {
      assert all[..0] == [];
    } else {
      assert all[..|all| - 1] == [b] + bs[..|bs| - 1];
      NumberHead(b, bs[..|bs| - 1]);
      assert 256 * (b * Pow256(|bs| - 1)) == b * (256 * Pow256(|bs| - 1));
    }
  }

  // ---------- writing and reading ----------

  /** The byte after `|= tag`, where `tag` is 0, 0x40, 0x80 or 0xc0. */
  function Tagged(b: Byte, n: nat): Byte
    requires Length(n)
  {
    if n == 1 then b
    else if n == 2 then (if b / 64 % 2 == 1 then b else b + 64)
    else if n == 4 then (if b >= 128 then b else b + 128)
    else b % 64 + 192
  }

  /** What `put_varint_with_len` writes; a value too large for `n` bytes is cut off. */
  function VarintBytes(v: nat, n: nat): (r: seq<Byte>)
    requires Length(n)
    ensures |r| == n
  {
    var bs := BigEndian(v, n);
    [Tagged(bs[0], n)] + bs[1..]
  }

  /** The value without the two length bits, `v & 0x3f`, `v & 0x3fff` and so on. */
  function Masked(v: nat, n: nat): (r: nat)
    requires Length(n)
    ensures r < Limit(n)
  {
    if n == 1 then v % 0x40 else if n == 2 then v % 0x4000
    else if n == 4 then v % 0x4000_0000 else v % 0x4000_0000_0000_0000
  }

  /** What `get_varint` reads: the value and the number of bytes taken.  The two top bits of the
      first byte are the length, the rest is the value. */
  function ReadVarint(bs: seq<Byte>): Option<(nat, nat)> {
    if bs == [] then None
    else
      var n := VarintParseLen(bs[0]);
      if n > |bs| then None else Some((Number([bs[0] % 64] + bs[1..n]), n))
  }

  /** Masking the number is the same as dropping the two top bits of its first byte. */
  lemma {:induction false} MaskDropsLength(bs: seq<Byte>)
    requires Length(|bs|)
    ensures Masked(Number(bs), |bs|) == Number([bs[0] % 64] + bs[1..])
  {
    var rest := bs[1..];
    assert bs == [bs[0]] + rest;
    NumberHead(bs[0], rest);
    NumberHead(bs[0] % 64, rest);
    NumberBound(rest);
    Quarter(|bs|, bs[0], Number(rest));
    MaskQuarter(Number(bs), |bs|, bs[0] / 64, Number([bs[0] % 64] + rest));
  }

  lemma {:induction false} Quarter(n: nat, b: Byte, low: nat)
    requires Length(n) && low < Pow256(n - 1)
    ensures b * Pow256(n - 1) + low == b / 64 * Limit(n) + (b % 64 * Pow256(n - 1) + low)
    ensures b % 64 * Pow256(n - 1) + low < Limit(n)
  {
    assert Pow256(0) == 1 && Pow256(1) == 256 && Pow256(3) == 0x100_0000 && Pow256(7) == 0x100_0000_0000_0000;
    var p := Pow256(n - 1);
    assert b == 64 * (b / 64) + b % 64;
    SplitProduct(b / 64, b % 64, p);
    assert Limit(n) == 64 * p;
  }

  lemma {:induction false} SplitProduct(q: nat, r: nat, p: nat)
    requires r < 64
    ensures (64 * q + r) * p == q * (64 * p) + r * p && r * p <= 63 * p
  {}

  lemma {:induction false} MaskQuarter(v: nat, n: nat, q: nat, low: nat)
    requires Length(n) && q < 4 && low < Limit(n) && v == q * Limit(n) + low
    ensures Masked(v, n) == low
  {}

  lemma {:induction false} NumberBound(bs: seq<Byte>)
    ensures Number(bs) < Pow256(|bs|)
  {
    if bs != [] { NumberBound(bs[..|bs| - 1]); }
  }

  lemma {:induction false} ProductLower(b: nat, p: nat)
    ensures b >= 64 ==> b * p >= 64 * p
  {}

  /** A value below the limit leaves the two top bits free for the length. */
  lemma {:induction false} TopByteSmall(v: nat, n: nat)
    requires Length(n) && v < Limit(n)
    ensures var bs := BigEndian(v, n);
      v == bs[0] * Pow256(n - 1) + Number(bs[1..]) && bs[0] < 64
  {
    var bs := BigEndian(v, n);
    assert Pow256(1) == 256 && Pow256(3) == 0x100_0000 && Pow256(7) == 0x100_0000_0000_0000;
    assert Pow256(n) == 256 * Pow256(n - 1) && 256 * Pow256(n - 1) == 4 * Limit(n);
    NumberOfBigEndian(v, n);
    NumberHead(bs[0], bs[1..]);
    assert bs == [bs[0]] + bs[1..];
    ProductLower(bs[0], Pow256(n - 1));
  }

  /** Any legal length reads back, whatever follows. */
  lemma {:induction false} VarintRoundTrip(v: nat, n: nat, rest: seq<Byte>)
    requires Length(n) && v < Limit(n)
    ensures ReadVarint(VarintBytes(v, n) + rest) == Some((v, n))
  {
    var bs := BigEndian(v, n);
    var out := VarintBytes(v, n);
    TopByteSmall(v, n);
    assert (out + rest)[0] == out[0] && VarintParseLen(out[0]) == n && out[0] % 64 == bs[0];
    assert (out + rest)[1..n] == bs[1..];
    NumberHead(bs[0], bs[1..]);
  }

  /** Writing a value in `n` bytes and reading those bytes gives the value back exactly when it is
      below the limit for `n` bytes; otherwise the read fails or returns another value. */
  lemma {:induction false} VarintExact(v: nat, n: nat)
    requires Length(n)
    ensures (var r := ReadVarint(VarintBytes(v, n)); r.Some? && r.value.0 == v) <==> v < Limit(n)
  {
    if v < Limit(n) {
      VarintRoundTrip(v, n, []);
      assert VarintBytes(v, n) + [] == VarintBytes(v, n);
    } else {
      var out := VarintBytes(v, n);
      var m := VarintParseLen(out[0]);
      assert m == n || m > n;
      MaskDropsLength(out);
      assert out[1..n] == out[1..];
    }
  }

  /** `varint_len` is the shortest length that reads back. */
  lemma {:induction false} VarintLenLeast(v: nat, n: nat)
    requires v <= MAX_VAR_INT && Length(n)
    ensures Length(VarintLen(v)) && (v < Limit(n) <==> VarintLen(v) <= n)
  {}

  lemma {:induction false} BigEndianOfNumber(bs: seq<Byte>)
    ensures BigEndian(Number(bs), |bs|) == bs
  {
    if bs != [] { BigEndianOfNumber(bs[..|bs| - 1]); }
  }

  /** Whatever reads back as `v` from all its bytes is what is written for `v` in that length. */
  lemma {:induction false} VarintUnique(bs: seq<Byte>, v: nat)
    requires ReadVarint(bs) == Some((v, |bs|))
    ensures Length(|bs|) && bs == VarintBytes(v, |bs|)
  {
    var low := [bs[0] % 64] + bs[1..];
    assert bs[1..|bs|] == bs[1..];
    BigEndianOfNumber(low);
    assert low[0] == bs[0] % 64 && low[1..] == bs[1..] && Tagged(low[0], |bs|) == bs[0];
  }

  /** The tag is or-ed into the two top bits of the first byte, whatever they hold. */
  lemma {:induction false} TagIsOr(b: Byte, n: nat)
    requires Length(n)
    ensures var t := Tagged(b, n);
      && t % 64 == b % 64
      && (t / 128 == 1 <==> b / 128 == 1 || n >= 4)
      && (t / 64 % 2 == 1 <==> b / 64 % 2 == 1 || n == 2 || n == 8)
  {}

  lemma {:induction false} NumberPair(bs: seq<Byte>)
    requires |bs| >= 2
    ensures var n := |bs|; Number(bs) == 65536 * Number(bs[..n - 2]) + (bs[n - 2] as int) * 256 + bs[n - 1]
  {
    var n := |bs|;
    assert bs[..n - 1][..n - 2] == bs[..n - 2];
  }

  lemma {:induction false} NumberFour(a: Byte, b: Byte, c: Byte, d: Byte)
    ensures Number([a, b, c, d]) == (a as int) * 0x100_0000 + (b as int) * 0x1_0000 + (c as int) * 0x100 + d
  {
    NumberPair([a, b, c, d]);
    NumberPair([a, b]);
    assert [a, b, c, d][..2] == [a, b] && [a, b][..0] == [];
  }

  /** The examples of section A.1 of RFC 9000: the four lengths, read; `VarintUnique` says that they
      are also what is written. */
  lemma {:induction false} Examples()
    ensures ReadVarint([0x25]) == Some((37, 1)) && ReadVarint([0x40, 0x25]) == Some((37, 2))
    ensures ReadVarint([0x7b, 0xbd]) == Some((15293, 2))
  {
    assert [0x25 % 64] + [0x25][1..1] == [0x25] && [0x25][..0] == [];
    assert [0x40 % 64] + [0x40, 0x25][1..2] == [0, 0x25] && [0, 0x25][..0] == [];
    assert [0x7b % 64] + [0x7b, 0xbd][1..2] == [0x3b, 0xbd] && [0x3b, 0xbd][..0] == [];
    NumberPair([0x3b, 0xbd]);
    NumberPair([0, 0x25]);
  }

  lemma {:induction false} LongExamples()
    ensures ReadVarint([0x9d, 0x7f, 0x3e, 0x7d]) == Some((494878333, 4))
    ensures ReadVarint([0xc2, 0x19, 0x7c, 0x5e, 0xff, 0x14, 0xe8, 0x8c]) == Some((151288809941952652, 8))
  {
    var four, eight := [0x9d, 0x7f, 0x3e, 0x7d], [0xc2, 0x19, 0x7c, 0x5e, 0xff, 0x14, 0xe8, 0x8c];
    var low: seq<Byte> := [2, 0x19, 0x7c, 0x5e, 0xff, 0x14, 0xe8, 0x8c];
    assert [0x9d % 64] + four[1..4] == [0x1d, 0x7f, 0x3e, 0x7d] && [0xc2 % 64] + eight[1..8] == low;
    NumberFour(0x1d, 0x7f, 0x3e, 0x7d);
    NumberFour(2, 0x19, 0x7c, 0x5e);
    NumberPair(low);
    NumberPair(low[..6]);
    assert low[..6][..4] == [2, 0x19, 0x7c, 0x5e];
  }
}
