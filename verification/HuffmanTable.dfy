/** The code table of HPACK (Appendix B of RFC 7541), as octets/src/huffman_table.rs lists it.

    The code is canonical: the words of one length are consecutive numbers, in the order of their
    symbols.  `Level` says which numbers those are, and `Symbol` reads the symbol back from the
    word; that both fit the table is checked here, row by row. */
module HuffmanTable {
  /** Consecutive entries of the table: the length of a code word and the word as a number. */
  datatype Words = End | Word(length: nat, value: nat, rest: Words)

  /** The code words of the bytes `8 * r` to `8 * r + 7`; the last row is the end marker. */
  function Row(r: nat): Words {
    match r
    case 0 =>
      Word(13, 0x1ff8, Word(23, 0x7fffd8, Word(28, 0xfffffe2, Word(28, 0xfffffe3,
      Word(28, 0xfffffe4, Word(28, 0xfffffe5, Word(28, 0xfffffe6, Word(28, 0xfffffe7, End))))))))
    case 1 =>
      Word(28, 0xfffffe8, Word(24, 0xffffea, Word(30, 0x3ffffffc, Word(28, 0xfffffe9,
      Word(28, 0xfffffea, Word(30, 0x3ffffffd, Word(28, 0xfffffeb, Word(28, 0xfffffec, End))))))))
    case 2 =>
      Word(28, 0xfffffed, Word(28, 0xfffffee, Word(28, 0xfffffef, Word(28, 0xffffff0,
      Word(28, 0xffffff1, Word(28, 0xffffff2, Word(30, 0x3ffffffe, Word(28, 0xffffff3, End))))))))
    case 3 =>
      Word(28, 0xffffff4, Word(28, 0xffffff5, Word(28, 0xffffff6, Word(28, 0xffffff7,
      Word(28, 0xffffff8, Word(28, 0xffffff9, Word(28, 0xffffffa, Word(28, 0xffffffb, End))))))))
    case 4 =>
      Word(6, 0x14, Word(10, 0x3f8, Word(10, 0x3f9, Word(12, 0xffa,
      Word(13, 0x1ff9, Word(6, 0x15, Word(8, 0xf8, Word(11, 0x7fa, End))))))))
    case 5 =>
      Word(10, 0x3fa, Word(10, 0x3fb, Word(8, 0xf9, Word(11, 0x7fb,
      Word(8, 0xfa, Word(6, 0x16, Word(6, 0x17, Word(6, 0x18, End))))))))
    case 6 =>
      Word(5, 0x0, Word(5, 0x1, Word(5, 0x2, Word(6, 0x19,
      Word(6, 0x1a, Word(6, 0x1b, Word(6, 0x1c, Word(6, 0x1d, End))))))))
    case 7 =>
      Word(6, 0x1e, Word(6, 0x1f, Word(7, 0x5c, Word(8, 0xfb,
      Word(15, 0x7ffc, Word(6, 0x20, Word(12, 0xffb, Word(10, 0x3fc, End))))))))
    case 8 =>
      Word(13, 0x1ffa, Word(6, 0x21, Word(7, 0x5d, Word(7, 0x5e,
      Word(7, 0x5f, Word(7, 0x60, Word(7, 0x61, Word(7, 0x62, End))))))))
    case 9 =>
      Word(7, 0x63, Word(7, 0x64, Word(7, 0x65, Word(7, 0x66,
      Word(7, 0x67, Word(7, 0x68, Word(7, 0x69, Word(7, 0x6a, End))))))))
    case 10 =>
      Word(7, 0x6b, Word(7, 0x6c, Word(7, 0x6d, Word(7, 0x6e,
      Word(7, 0x6f, Word(7, 0x70, Word(7, 0x71, Word(7, 0x72, End))))))))
    case 11 =>
      Word(8, 0xfc, Word(7, 0x73, Word(8, 0xfd, Word(13, 0x1ffb,
      Word(19, 0x7fff0, Word(13, 0x1ffc, Word(14, 0x3ffc, Word(6, 0x22, End))))))))
    case 12 =>
      Word(15, 0x7ffd, Word(5, 0x3, Word(6, 0x23, Word(5, 0x4,
      Word(6, 0x24, Word(5, 0x5, Word(6, 0x25, Word(6, 0x26, End))))))))
    case 13 =>
      Word(6, 0x27, Word(5, 0x6, Word(7, 0x74, Word(7, 0x75,
      Word(6, 0x28, Word(6, 0x29, Word(6, 0x2a, Word(5, 0x7, End))))))))
    case 14 =>
      Word(6, 0x2b, Word(7, 0x76, Word(6, 0x2c, Word(5, 0x8,
      Word(5, 0x9, Word(6, 0x2d, Word(7, 0x77, Word(7, 0x78, End))))))))
    case 15 =>
      Word(7, 0x79, Word(7, 0x7a, Word(7, 0x7b, Word(15, 0x7ffe,
      Word(11, 0x7fc, Word(14, 0x3ffd, Word(13, 0x1ffd, Word(28, 0xffffffc, End))))))))
    case 16 =>
      Word(20, 0xfffe6, Word(22, 0x3fffd2, Word(20, 0xfffe7, Word(20, 0xfffe8,
      Word(22, 0x3fffd3, Word(22, 0x3fffd4, Word(22, 0x3fffd5, Word(23, 0x7fffd9, End))))))))
    case 17 =>
      Word(22, 0x3fffd6, Word(23, 0x7fffda, Word(23, 0x7fffdb, Word(23, 0x7fffdc,
      Word(23, 0x7fffdd, Word(23, 0x7fffde, Word(24, 0xffffeb, Word(23, 0x7fffdf, End))))))))
    case 18 =>
      Word(24, 0xffffec, Word(24, 0xffffed, Word(22, 0x3fffd7, Word(23, 0x7fffe0,
      Word(24, 0xffffee, Word(23, 0x7fffe1, Word(23, 0x7fffe2, Word(23, 0x7fffe3, End))))))))
    case 19 =>
      Word(23, 0x7fffe4, Word(21, 0x1fffdc, Word(22, 0x3fffd8, Word(23, 0x7fffe5,
      Word(22, 0x3fffd9, Word(23, 0x7fffe6, Word(23, 0x7fffe7, Word(24, 0xffffef, End))))))))
    case 20 =>
      Word(22, 0x3fffda, Word(21, 0x1fffdd, Word(20, 0xfffe9, Word(22, 0x3fffdb,
      Word(22, 0x3fffdc, Word(23, 0x7fffe8, Word(23, 0x7fffe9, Word(21, 0x1fffde, End))))))))
    case 21 =>
      Word(23, 0x7fffea, Word(22, 0x3fffdd, Word(22, 0x3fffde, Word(24, 0xfffff0,
      Word(21, 0x1fffdf, Word(22, 0x3fffdf, Word(23, 0x7fffeb, Word(23, 0x7fffec, End))))))))
    case 22 =>
      Word(21, 0x1fffe0, Word(21, 0x1fffe1, Word(22, 0x3fffe0, Word(21, 0x1fffe2,
      Word(23, 0x7fffed, Word(22, 0x3fffe1, Word(23, 0x7fffee, Word(23, 0x7fffef, End))))))))
    case 23 =>
      Word(20, 0xfffea, Word(22, 0x3fffe2, Word(22, 0x3fffe3, Word(22, 0x3fffe4,
      Word(23, 0x7ffff0, Word(22, 0x3fffe5, Word(22, 0x3fffe6, Word(23, 0x7ffff1, End))))))))
    case 24 =>
      Word(26, 0x3ffffe0, Word(26, 0x3ffffe1, Word(20, 0xfffeb, Word(19, 0x7fff1,
      Word(22, 0x3fffe7, Word(23, 0x7ffff2, Word(22, 0x3fffe8, Word(25, 0x1ffffec, End))))))))
    case 25 =>
      Word(26, 0x3ffffe2, Word(26, 0x3ffffe3, Word(26, 0x3ffffe4, Word(27, 0x7ffffde,
      Word(27, 0x7ffffdf, Word(26, 0x3ffffe5, Word(24, 0xfffff1, Word(25, 0x1ffffed, End))))))))
    case 26 =>
      Word(19, 0x7fff2, Word(21, 0x1fffe3, Word(26, 0x3ffffe6, Word(27, 0x7ffffe0,
      Word(27, 0x7ffffe1, Word(26, 0x3ffffe7, Word(27, 0x7ffffe2, Word(24, 0xfffff2, End))))))))
    case 27 =>
      Word(21, 0x1fffe4, Word(21, 0x1fffe5, Word(26, 0x3ffffe8, Word(26, 0x3ffffe9,
      Word(28, 0xffffffd, Word(27, 0x7ffffe3, Word(27, 0x7ffffe4, Word(27, 0x7ffffe5, End))))))))
    case 28 =>
      Word(20, 0xfffec, Word(24, 0xfffff3, Word(20, 0xfffed, Word(21, 0x1fffe6,
      Word(22, 0x3fffe9, Word(21, 0x1fffe7, Word(21, 0x1fffe8, Word(23, 0x7ffff3, End))))))))
    case 29 =>
      Word(22, 0x3fffea, Word(22, 0x3fffeb, Word(25, 0x1ffffee, Word(25, 0x1ffffef,
      Word(24, 0xfffff4, Word(24, 0xfffff5, Word(26, 0x3ffffea, Word(23, 0x7ffff4, End))))))))
    case 30 =>
      Word(26, 0x3ffffeb, Word(27, 0x7ffffe6, Word(26, 0x3ffffec, Word(26, 0x3ffffed,
      Word(27, 0x7ffffe7, Word(27, 0x7ffffe8, Word(27, 0x7ffffe9, Word(27, 0x7ffffea, End))))))))
    case 31 =>
      Word(27, 0x7ffffeb, Word(28, 0xffffffe, Word(27, 0x7ffffec, Word(27, 0x7ffffed,
      Word(27, 0x7ffffee, Word(27, 0x7ffffef, Word(27, 0x7fffff0, Word(26, 0x3ffffee, End))))))))
    case _ => Word(30, 0x3fffffff, End)
  }

  function Pick(i: nat, a0: nat, a1: nat, a2: nat, a3: nat, a4: nat, a5: nat, a6: nat, a7: nat): nat {
    match i
    case 0 => a0 case 1 => a1 case 2 => a2 case 3 => a3
    case 4 => a4 case 5 => a5 case 6 => a6 case _ => a7
  }

  /** The `k`-th symbol in the order of code lengths, then code words. */
  function Symbol(k: nat): nat {
    match k / 8
    case 0 => Pick(k % 8, 48, 49, 50, 97, 99, 101, 105, 111)
    case 1 => Pick(k % 8, 115, 116, 32, 37, 45, 46, 47, 51)
    case 2 => Pick(k % 8, 52, 53, 54, 55, 56, 57, 61, 65)
    case 3 => Pick(k % 8, 95, 98, 100, 102, 103, 104, 108, 109)
    case 4 => Pick(k % 8, 110, 112, 114, 117, 58, 66, 67, 68)
    case 5 => Pick(k % 8, 69, 70, 71, 72, 73, 74, 75, 76)
    case 6 => Pick(k % 8, 77, 78, 79, 80, 81, 82, 83, 84)
    case 7 => Pick(k % 8, 85, 86, 87, 89, 106, 107, 113, 118)
    case 8 => Pick(k % 8, 119, 120, 121, 122, 38, 42, 44, 59)
    case 9 => Pick(k % 8, 88, 90, 33, 34, 40, 41, 63, 39)
    case 10 => Pick(k % 8, 43, 124, 35, 62, 0, 36, 64, 91)
    case 11 => Pick(k % 8, 93, 126, 94, 125, 60, 96, 123, 92)
    case 12 => Pick(k % 8, 195, 208, 128, 130, 131, 162, 184, 194)
    case 13 => Pick(k % 8, 224, 226, 153, 161, 167, 172, 176, 177)
    case 14 => Pick(k % 8, 179, 209, 216, 217, 227, 229, 230, 129)
    case 15 => Pick(k % 8, 132, 133, 134, 136, 146, 154, 156, 160)
    case 16 => Pick(k % 8, 163, 164, 169, 170, 173, 178, 181, 185)
    case 17 => Pick(k % 8, 186, 187, 189, 190, 196, 198, 228, 232)
    case 18 => Pick(k % 8, 233, 1, 135, 137, 138, 139, 140, 141)
    case 19 => Pick(k % 8, 143, 147, 149, 150, 151, 152, 155, 157)
    case 20 => Pick(k % 8, 158, 165, 166, 168, 174, 175, 180, 182)
    case 21 => Pick(k % 8, 183, 188, 191, 197, 231, 239, 9, 142)
    case 22 => Pick(k % 8, 144, 145, 148, 159, 171, 206, 215, 225)
    case 23 => Pick(k % 8, 236, 237, 199, 207, 234, 235, 192, 193)
    case 24 => Pick(k % 8, 200, 201, 202, 205, 210, 213, 218, 219)
    case 25 => Pick(k % 8, 238, 240, 242, 243, 255, 203, 204, 211)
    case 26 => Pick(k % 8, 212, 214, 221, 222, 223, 241, 244, 245)
    case 27 => Pick(k % 8, 246, 247, 248, 250, 251, 252, 253, 254)
    case 28 => Pick(k % 8, 2, 3, 4, 5, 6, 7, 8, 11)
    case 29 => Pick(k % 8, 12, 14, 15, 16, 17, 18, 19, 20)
    case 30 => Pick(k % 8, 21, 23, 24, 25, 26, 27, 28, 29)
    case 31 => Pick(k % 8, 30, 31, 127, 220, 249, 10, 13, 22)
    case _ => 256
  }

  /** The words of one length: the first as a number, how many there are, and how many symbols
      have shorter words. */
  datatype Group = Group(first: nat, count: nat, before: nat)

  function Level(n: nat): Group {
    match n
    case 5 => Group(0x0, 10, 0)
    case 6 => Group(0x14, 26, 10)
    case 7 => Group(0x5c, 32, 36)
    case 8 => Group(0xf8, 6, 68)
    case 9 => Group(0x1fc, 0, 74)
    case 10 => Group(0x3f8, 5, 74)
    case 11 => Group(0x7fa, 3, 79)
    case 12 => Group(0xffa, 2, 82)
    case 13 => Group(0x1ff8, 6, 84)
    case 14 => Group(0x3ffc, 2, 90)
    case 15 => Group(0x7ffc, 3, 92)
    case 16 => Group(0xfffe, 0, 95)
    case 17 => Group(0x1fffc, 0, 95)
    case 18 => Group(0x3fff8, 0, 95)
    case 19 => Group(0x7fff0, 3, 95)
    case 20 => Group(0xfffe6, 8, 98)
    case 21 => Group(0x1fffdc, 13, 106)
    case 22 => Group(0x3fffd2, 26, 119)
    case 23 => Group(0x7fffd8, 29, 145)
    case 24 => Group(0xffffea, 12, 174)
    case 25 => Group(0x1ffffec, 4, 186)
    case 26 => Group(0x3ffffe0, 15, 190)
    case 27 => Group(0x7ffffde, 19, 205)
    case 28 => Group(0xfffffe2, 29, 224)
    case 29 => Group(0x1ffffffe, 0, 253)
    case _ => Group(0x3ffffffc, 4, 253)
  }

  /** The entry of symbol `b` is in its level, and `Symbol` finds `b` back from it. */
  predicate Placed(n: nat, v: nat, b: nat) {
    && 5 <= n <= 30
    && var g := Level(n);
      g.first <= v < g.first + g.count && Symbol(v - g.first + g.before) == b
  }

  /** `ws` holds the `size` entries from symbol `b` on, all of them placed. */
  predicate RowPlaced(ws: Words, b: nat, size: nat) {
    match ws
    case End => size == 0
    case Word(n, v, rest) => size > 0 && Placed(n, v, b) && RowPlaced(rest, b + 1, size - 1)
  }

  // ---------- every row is placed ----------

  lemma Row0() ensures RowPlaced(Row(0), 0, 8) {}
  lemma Row1() ensures RowPlaced(Row(1), 8, 8) {}
  lemma Row2() ensures RowPlaced(Row(2), 16, 8) {}
  lemma Row3() ensures RowPlaced(Row(3), 24, 8) {}
  lemma Row4() ensures RowPlaced(Row(4), 32, 8) {}
  lemma Row5() ensures RowPlaced(Row(5), 40, 8) {}
  lemma Row6() ensures RowPlaced(Row(6), 48, 8) {}
  lemma Row7() ensures RowPlaced(Row(7), 56, 8) {}
  lemma Row8() ensures RowPlaced(Row(8), 64, 8) {}
  lemma Row9() ensures RowPlaced(Row(9), 72, 8) {}
  lemma Row10() ensures RowPlaced(Row(10), 80, 8) {}
  lemma Row11() ensures RowPlaced(Row(11), 88, 8) {}
  lemma Row12() ensures RowPlaced(Row(12), 96, 8) {}
  lemma Row13() ensures RowPlaced(Row(13), 104, 8) {}
  lemma Row14() ensures RowPlaced(Row(14), 112, 8) {}
  lemma Row15() ensures RowPlaced(Row(15), 120, 8) {}
  lemma Row16() ensures RowPlaced(Row(16), 128, 8) {}
  lemma Row17() ensures RowPlaced(Row(17), 136, 8) {}
  lemma Row18() ensures RowPlaced(Row(18), 144, 8) {}
  lemma Row19() ensures RowPlaced(Row(19), 152, 8) {}
  lemma Row20() ensures RowPlaced(Row(20), 160, 8) {}
  lemma Row21() ensures RowPlaced(Row(21), 168, 8) {}
  lemma Row22() ensures RowPlaced(Row(22), 176, 8) {}
  lemma Row23() ensures RowPlaced(Row(23), 184, 8) {}
  lemma Row24() ensures RowPlaced(Row(24), 192, 8) {}
  lemma Row25() ensures RowPlaced(Row(25), 200, 8) {}
  lemma Row26() ensures RowPlaced(Row(26), 208, 8) {}
  lemma Row27() ensures RowPlaced(Row(27), 216, 8) {}
  lemma Row28() ensures RowPlaced(Row(28), 224, 8) {}
  lemma Row29() ensures RowPlaced(Row(29), 232, 8) {}
  lemma Row30() ensures RowPlaced(Row(30), 240, 8) {}
  lemma Row31() ensures RowPlaced(Row(31), 248, 8) {}
  lemma Row32() ensures RowPlaced(Row(32), 256, 1) {}

  lemma {:induction false} RowsPlaced(r: nat)
    requires r <= 32
    ensures RowPlaced(Row(r), 8 * r, if r < 32 then 8 else 1)
  {
    match r
    case 0 => Row0(); case 1 => Row1(); case 2 => Row2(); case 3 => Row3();
    case 4 => Row4(); case 5 => Row5(); case 6 => Row6(); case 7 => Row7();
    case 8 => Row8(); case 9 => Row9(); case 10 => Row10(); case 11 => Row11();
    case 12 => Row12(); case 13 => Row13(); case 14 => Row14(); case 15 => Row15();
    case 16 => Row16(); case 17 => Row17(); case 18 => Row18(); case 19 => Row19();
    case 20 => Row20(); case 21 => Row21(); case 22 => Row22(); case 23 => Row23();
    case 24 => Row24(); case 25 => Row25(); case 26 => Row26(); case 27 => Row27();
    case 28 => Row28(); case 29 => Row29(); case 30 => Row30(); case 31 => Row31();
    case _ => Row32();
  }

  // ---------- the code ----------

  datatype CodeWord = CodeWord(length: nat, value: nat)

  /** The `i`-th entry of a row. */
  function Nth(ws: Words, i: nat): CodeWord {
    match ws
    case End => CodeWord(0, 0)
    case Word(n, v, rest) => if i == 0 then CodeWord(n, v) else Nth(rest, i - 1)
  }

  lemma {:induction false} NthPlaced(ws: Words, b: nat, size: nat, i: nat)
    requires RowPlaced(ws, b, size) && i < size
    ensures var e := Nth(ws, i); Placed(e.length, e.value, b + i)
  {
    if i > 0 { NthPlaced(ws.rest, b + 1, size - 1, i - 1); }
  }

  /** The table entry of symbol `b`. */
  function Entry(b: nat): CodeWord { Nth(Row(b / 8), b % 8) }

  lemma {:induction false} EntryPlaced(b: nat)
    requires b <= 256
    ensures var e := Entry(b); Placed(e.length, e.value, b)
  {
    RowsPlaced(b / 8);
    NthPlaced(Row(b / 8), 8 * (b / 8), if b < 256 then 8 else 1, b % 8);
  }

  lemma {:induction false} EntryOnce(i: nat, j: nat)
    requires i <= 256 && j <= 256 && Entry(i) == Entry(j)
    ensures i == j
  {
    EntryPlaced(i);
    EntryPlaced(j);
  }

  // ---------- levels ----------

  /** The first word of a length is twice the number after the last word of the length before. */
  lemma {:induction false} Canonical(n: nat)
    requires 5 <= n < 30
    ensures Level(n + 1).first == 2 * (Level(n).first + Level(n).count)
  {}
}
