/** The code of HPACK is a valid prefix code, so everything proved about the Huffman encoder and
    decoder for such codes holds of it.

    Every word, cut to a shorter length, is above all words of that length; so none of those is a
    prefix of it. */
module HpackCode {
  import opened Base
  import opened Bits
  import opened Huffman
  import opened HuffmanTable

  /** The table of the source as a sequence. */
  function Table(): seq<CodeWord> { seq(257, b requires 0 <= b < 257 => Entry(b)) }

  function WordBits(e: CodeWord): Bits { BitsOf(e.value, e.length) }

  function CodeOf(es: seq<CodeWord>): Code { Code(seq(|es|, b requires 0 <= b < |es| => WordBits(es[b]))) }

  /** The code of the table. */
  function Hpack(): Code { CodeOf(Table()) }

  predicate Fits(e: CodeWord) { 5 <= e.length <= 30 && e.value < Pow2(e.length) }

  /** Cut to the shorter length, a longer word is above a shorter one. */
  predicate InOrder(a: CodeWord, b: CodeWord) {
    a.length < b.length ==> (a.value + 1) * Pow2(b.length - a.length) <= b.value
  }

  // ---------- levels ----------

  lemma {:induction false} PowThirty()
    ensures Pow2(30) == 0x40000000
  {
    assert Pow2(10) == 0x400;
    assert Pow2(20) == 0x100000;
  }

  lemma {:induction false} LevelBound(n: nat)
    requires 5 <= n <= 30
    ensures Level(n).first + Level(n).count <= Pow2(n)
    decreases 30 - n
  {
    if n == 30 {
      PowThirty();
    } else {
      LevelBound(n + 1);
      Canonical(n);
    }
  }

  /** Every word of length `n`, cut to length `m`, is above all words of length `m`. */
  lemma {:induction false} LevelAbove(m: nat, n: nat)
    requires 5 <= m < n <= 30
    ensures (Level(m).first + Level(m).count) * Pow2(n - m) <= Level(n).first
  {
    Canonical(n - 1);
    if m == n - 1 {
      assert Pow2(1) == 2;
    } else {
      LevelAbove(m, n - 1);
      Chain(Level(m).first + Level(m).count, Pow2(n - 1 - m), Level(n - 1).first, Level(n - 1).count);
      assert Pow2(n - m) == 2 * Pow2(n - 1 - m);
    }
  }

  lemma {:induction false} Chain(top: nat, p: nat, first: nat, count: nat)
    requires top * p <= first
    ensures top * (2 * p) <= 2 * (first + count)
  {
    assert top * (2 * p) == 2 * (top * p);
  }

  // ---------- bit strings as numbers ----------

  lemma {:induction false} ValueOfBits(v: nat, n: nat)
    requires v < Pow2(n)
    ensures Value(BitsOf(v, n)) == v
  {
    if n > 0 {
      ValueOfBits(v / 2, n - 1);
      assert BitsOf(v, n)[..n - 1] == BitsOf(v / 2, n - 1);
    }
  }

  lemma {:induction false} AllOnes(n: nat)
    ensures BitsOf(Pow2(n) - 1, n) == Ones(n)
  {
    if n > 0 {
      AllOnes(n - 1);
      assert (Pow2(n) - 1) / 2 == Pow2(n - 1) - 1;
    }
  }

  /** Extending a bit string by `d` bits keeps its value in the interval it stands for. */
  lemma {:induction false} PrefixInterval(a: Bits, b: Bits, d: nat)
    requires a <= b && |b| == |a| + d
    ensures Value(a) * Pow2(d) <= Value(b) < (Value(a) + 1) * Pow2(d)
  {
    if d == 0 {
      assert a == b;
    } else {
      var b' := b[..|b| - 1];
      PrefixInterval(a, b', d - 1);
      Doubled(Value(a), Value(b'), Pow2(d - 1));
      assert Pow2(d) == 2 * Pow2(d - 1);
    }
  }

  lemma {:induction false} NotPrefix(a: Bits, b: Bits)
    requires |a| <= |b| && (Value(a) + 1) * Pow2(|b| - |a|) <= Value(b)
    ensures !(a <= b)
  {
    if a <= b { PrefixInterval(a, b, |b| - |a|); }
  }

  lemma {:induction false} Doubled(a: nat, b: nat, p: nat)
    requires a * p <= b < (a + 1) * p
    ensures a * (2 * p) <= 2 * b && 2 * b + 1 < (a + 1) * (2 * p)
  {
    assert a * (2 * p) == 2 * (a * p) && (a + 1) * (2 * p) == 2 * ((a + 1) * p);
  }

  lemma {:induction false} WordValue(e: CodeWord)
    requires Fits(e)
    ensures Value(WordBits(e)) == e.value
  {
    ValueOfBits(e.value, e.length);
  }

  lemma {:induction false} LongerNotExtension(a: CodeWord, b: CodeWord)
    requires Fits(a) && Fits(b) && InOrder(a, b) && a.length < b.length
    ensures !(WordBits(a) <= WordBits(b))
  {
    assert (Value(WordBits(a)) + 1) * Pow2(b.length - a.length) <= Value(WordBits(b)) by {
      WordValue(a);
      WordValue(b);
    }
    NotPrefix(WordBits(a), WordBits(b));
  }

  lemma {:induction false} PrefixIsSame(a: CodeWord, b: CodeWord)
    requires Fits(a) && Fits(b) && InOrder(a, b) && WordBits(a) <= WordBits(b)
    ensures a == b
  {
    if a.length < b.length {
      LongerNotExtension(a, b);
    } else {
      assert WordBits(a) == WordBits(b);
      WordValue(a);
      WordValue(b);
    }
  }

  // ---------- the entries of the table ----------

  lemma {:induction false} PlacedFits(a: CodeWord, i: nat)
    requires Placed(a.length, a.value, i)
    ensures Fits(a)
  {
    LevelBound(a.length);
  }

  lemma {:induction false} PlacedInOrder(a: CodeWord, i: nat, b: CodeWord, j: nat)
    requires Placed(a.length, a.value, i) && Placed(b.length, b.value, j)
    ensures InOrder(a, b)
  {
    if a.length < b.length {
      var g := Level(a.length);
      LevelAbove(a.length, b.length);
      Monotone(a.value + 1, g.first + g.count, Pow2(b.length - a.length));
    }
  }

  lemma {:induction false} EntryFits(i: nat)
    requires i <= 256
    ensures Fits(Entry(i))
  {
    EntryPlaced(i);
    PlacedFits(Entry(i), i);
  }

  lemma {:induction false} EntryInOrder(i: nat, j: nat)
    requires i <= 256 && j <= 256
    ensures InOrder(Entry(i), Entry(j))
  {
    EntryPlaced(i);
    EntryPlaced(j);
    PlacedInOrder(Entry(i), i, Entry(j), j);
  }

  lemma {:induction false} Monotone(a: nat, b: nat, p: nat)
    requires a <= b
    ensures a * p <= b * p
  {}

  // ---------- the main result ----------

  lemma {:induction false} CodeOfValid(es: seq<CodeWord>)
    requires |es| == 257 && es[EOS] == CodeWord(30, 0x3fffffff)
    requires forall e <- es :: Fits(e)
    requires forall a <- es, b <- es :: InOrder(a, b)
    requires forall i, j :: 0 <= i < 257 && 0 <= j < 257 && es[i] == es[j] ==> i == j
    ensures ValidCode(CodeOf(es))
  {
    var c := CodeOf(es);
    forall i | 0 <= i < 257 ensures 5 <= |c.words[i]| <= 30 { assert Fits(es[i]); }
    forall i, j | 0 <= i < 257 && 0 <= j < 257 && c.words[i] <= c.words[j] ensures i == j {
      assert Fits(es[i]) && Fits(es[j]) && InOrder(es[i], es[j]);
      PrefixIsSame(es[i], es[j]);
    }
    PowThirty();
    AllOnes(30);
  }

  /** The code of HPACK is a prefix code of the shape everything in `Huffman` and `Octets` needs. */
  lemma {:induction false} HpackValid()
    ensures ValidCode(Hpack())
  {
    var es := Table();
    forall e <- es ensures Fits(e) {
      var i :| 0 <= i < |es| && es[i] == e;
      EntryFits(i);
    }
    forall a <- es, b <- es ensures InOrder(a, b) {
      var i, j :| 0 <= i < |es| && es[i] == a && 0 <= j < |es| && es[j] == b;
      EntryInOrder(i, j);
    }
    forall i, j | 0 <= i < 257 && 0 <= j < 257 && es[i] == es[j] ensures i == j { EntryOnce(i, j); }
    CodeOfValid(es);
  }

  /** Whatever is encoded with the code of HPACK decodes to itself. */
  lemma {:induction false} HpackRoundTrip(v: seq<Byte>)
    ensures DecodeBits(Hpack(), BytesBits(Encode(Hpack(), v))) == Some(v)
  {
    HpackValid();
    RoundTrip(Hpack(), v);
  }
}
