/**
  The hash values that the self-test of the lookup3 code lists, computed from the reference digest.

  An exclusive or of known words is computed half by half and bit by bit, from the top; a rotation is
  computed by one division. Each line of `mix` and `final` is then checked on known states.
*/
module HashVectors {
  import opened Bits
  import opened LookupMix
  import opened JenkinsHash

  // ------------------------------------------------------------------ computing with known words

  /** What is left of a number below 2 * w when the bit of weight w is taken off. */
  function Below(x: nat, w: nat): nat
  {
    if x < w then x else x - w
  }

  /** The bit of weight w of the exclusive or of two numbers below 2 * w. */
  function TopBit(x: nat, y: nat, w: nat): nat
  {
    if x < w <==> y < w then 0 else w
  }

  lemma {:induction false} XorTopBit(x: nat, y: nat, n: nat, w: nat)
    requires w == Pow2(n) && x < 2 * w && y < 2 * w
    ensures Xor(x, y) == TopBit(x, y, w) + Xor(Below(x, w), Below(y, w))
  {
    if n > 0 {
      var v := Pow2(n - 1);
      XorTopBit(x / 2, y / 2, n - 1, v);
      XorHalved(x, y);
      XorHalved(Below(x, w), Below(y, w));
      HalfBelow(x, v);
      HalfBelow(y, v);
    }
  }

  lemma XorHalved(x: nat, y: nat)
    ensures Xor(x, y) == 2 * Xor(x / 2, y / 2) + (if x % 2 != y % 2 then 1 else 0)
  {
  }

  lemma HalfBelow(x: nat, v: nat)
    ensures Below(x, 2 * v) / 2 == Below(x / 2, v) && Below(x, 2 * v) % 2 == x % 2
  {
  }

  /** Four bits, the lowest of which has weight w. */
  function TopDigit(x: nat, y: nat, w: nat): nat
  {
    var x3, y3 := Below(x, 8 * w), Below(y, 8 * w);
    var x2, y2 := Below(x3, 4 * w), Below(y3, 4 * w);
    var x1, y1 := Below(x2, 2 * w), Below(y2, 2 * w);
    TopBit(x, y, 8 * w) + TopBit(x3, y3, 4 * w) + TopBit(x2, y2, 2 * w) + TopBit(x1, y1, w)
  }

  function Rest(x: nat, w: nat): nat
  {
    Below(Below(Below(Below(x, 8 * w), 4 * w), 2 * w), w)
  }

  lemma XorTopDigit(x: nat, y: nat, n: nat, w: nat)
    requires w == Pow2(n) && x < 16 * w && y < 16 * w
    ensures Xor(x, y) == TopDigit(x, y, w) + Xor(Rest(x, w), Rest(y, w))
    ensures Rest(x, w) < w && Rest(y, w) < w
  {
    var x3, y3 := Below(x, 8 * w), Below(y, 8 * w);
    var x2, y2 := Below(x3, 4 * w), Below(y3, 4 * w);
    assert Pow2(n + 1) == 2 * w && Pow2(n + 2) == 4 * w && Pow2(n + 3) == 8 * w;
    XorTopBit(x, y, n + 3, 8 * w);
    XorTopBit(x3, y3, n + 2, 4 * w);
    XorTopBit(x2, y2, n + 1, 2 * w);
    XorTopBit(Below(x2, 2 * w), Below(y2, 2 * w), n, w);
  }

  /** The exclusive or of two 16-bit numbers. */
  function XorHalf(x: nat, y: nat): nat
  {
    var x3, y3 := Rest(x, 0x1000), Rest(y, 0x1000);
    var x2, y2 := Rest(x3, 0x100), Rest(y3, 0x100);
    var x1, y1 := Rest(x2, 0x10), Rest(y2, 0x10);
    TopDigit(x, y, 0x1000) + TopDigit(x3, y3, 0x100) + TopDigit(x2, y2, 0x10) + TopDigit(x1, y1, 1)
  }

  lemma XorOfHalf(x: nat, y: nat)
    requires x < 0x1_0000 && y < 0x1_0000
    ensures XorHalf(x, y) == Xor(x, y)
  {
    var x3, y3 := Rest(x, 0x1000), Rest(y, 0x1000);
    var x2, y2 := Rest(x3, 0x100), Rest(y3, 0x100);
    PowerTable();
    XorTopDigit(x, y, 12, 0x1000);
    XorTopDigit(x3, y3, 8, 0x100);
    XorTopDigit(x2, y2, 4, 0x10);
    XorTopDigit(Rest(x2, 0x10), Rest(y2, 0x10), 0, 1);
  }

  lemma PowerTable()
    ensures Pow2(4) == 0x10 && Pow2(6) == 0x40 && Pow2(7) == 0x80 && Pow2(8) == 0x100 && Pow2(11) == 0x800
    ensures Pow2(12) == 0x1000 && Pow2(13) == 0x2000 && Pow2(14) == 0x4000 && Pow2(16) == 0x1_0000
    ensures Pow2(18) == 0x4_0000 && Pow2(19) == 0x8_0000 && Pow2(21) == 0x20_0000 && Pow2(24) == 0x100_0000
    ensures Pow2(25) == 0x200_0000 && Pow2(26) == 0x400_0000 && Pow2(28) == 0x1000_0000
  {
    assert Pow2(1) == 2 && Pow2(2) == 4 && Pow2(3) == 8 && Pow2(4) == 0x10 && Pow2(5) == 0x20 && Pow2(6) == 0x40;
    assert Pow2(7) == 0x80 && Pow2(8) == 0x100 && Pow2(9) == 0x200 && Pow2(10) == 0x400 && Pow2(11) == 0x800;
    Pow2Add(4, 8);
    Pow2Add(5, 8);
    Pow2Add(6, 8);
    Pow2Add(8, 8);
    Pow2Add(8, 10);
    Pow2Add(8, 11);
    Pow2Add(10, 11);
    Pow2Add(8, 16);
    Pow2Add(9, 16);
    Pow2Add(10, 16);
    Pow2Add(12, 16);
  }

  /** A number moved up by n bits. */
  function Shifted(x: nat, n: nat): nat
  {
    if n == 0 then x else 2 * Shifted(x, n - 1)
  }

  lemma {:induction false} ShiftedIsProduct(x: nat, n: nat)
    ensures Shifted(x, n) == Pow2(n) * x
  {
    if n > 0 {
      ShiftedIsProduct(x, n - 1);
      Doubled(Pow2(n - 1), x);
    }
  }

  lemma Doubled(v: nat, x: nat)
    ensures (2 * v) * x == 2 * (v * x)
  {
  }

  /** The exclusive or of two numbers, first above and then below n bits. */
  lemma {:induction false} XorParts(xh: nat, xl: nat, yh: nat, yl: nat, n: nat)
    requires xl < Pow2(n) && yl < Pow2(n)
    ensures Xor(Shifted(xh, n) + xl, Shifted(yh, n) + yl) == Shifted(Xor(xh, yh), n) + Xor(xl, yl)
  {
    if n > 0 {
      XorParts(xh, xl / 2, yh, yl / 2, n - 1);
      XorOfDoubles(Shifted(xh, n - 1), xl, Shifted(yh, n - 1), yl);
      XorHalved(xl, yl);
    }
  }

  lemma XorOfDoubles(x: nat, xl: nat, y: nat, yl: nat)
    ensures Xor(2 * x + xl, 2 * y + yl) == 2 * Xor(x + xl / 2, y + yl / 2) + (if xl % 2 != yl % 2 then 1 else 0)
  {
    XorHalved(2 * x + xl, 2 * y + yl);
    assert (2 * x + xl) / 2 == x + xl / 2 && (2 * y + yl) / 2 == y + yl / 2;
  }

  lemma HighHalf(x: nat)
    ensures Shifted(x, 16) == 0x1_0000 * x
  {
    PowerTable();
    ShiftedIsProduct(x, 16);
  }

  lemma XorOfParts(xh: nat, xl: nat, yh: nat, yl: nat)
    requires xl < 0x1_0000 && yl < 0x1_0000
    ensures Xor(0x1_0000 * xh + xl, 0x1_0000 * yh + yl) == 0x1_0000 * Xor(xh, yh) + Xor(xl, yl)
  {
    PowerTable();
    HighHalf(xh);
    HighHalf(yh);
    HighHalf(Xor(xh, yh));
    XorParts(xh, xl, yh, yl, 16);
  }

  /** The exclusive or of two words, one half after the other. */
  lemma XorOfWords(x: Word, y: Word, xh: nat, xl: nat, yh: nat, yl: nat)
    requires Halves(x, xh, xl) && Halves(y, yh, yl)
    ensures XorWord(x, y) == 0x1_0000 * XorHalf(xh, yh) + XorHalf(xl, yl)
  {
    XorOfParts(xh, xl, yh, yl);
    XorOfHalf(xh, yh);
    XorOfHalf(xl, yl);
  }

  predicate Halves(x: Word, high: nat, low: nat)
  {
    high < 0x1_0000 && low < 0x1_0000 && x == 0x1_0000 * high + low
  }

  /** 2 to the power of k, and of 32 - k, for the nine distances by which words are turned. */
  function Up(k: nat): nat
  {
    match k
    case 4 => 0x10
    case 6 => 0x40
    case 8 => 0x100
    case 11 => 0x800
    case 14 => 0x4000
    case 16 => 0x1_0000
    case 19 => 0x8_0000
    case 24 => 0x100_0000
    case _ => 0x200_0000
  }

  function Down(k: nat): nat
  {
    match k
    case 4 => 0x1000_0000
    case 6 => 0x400_0000
    case 8 => 0x100_0000
    case 11 => 0x20_0000
    case 14 => 0x4_0000
    case 16 => 0x1_0000
    case 19 => 0x2000
    case 24 => 0x100
    case _ => 0x80
  }

  predicate Distance(k: nat)
  {
    k == 4 || k == 6 || k == 8 || k == 11 || k == 14 || k == 16 || k == 19 || k == 24 || k == 25
  }

  /** The word r is x turned by k, whose top k bits are h. */
  predicate Turned(x: Word, k: nat, h: nat, r: nat)
  {
    Down(k) * h <= x < Down(k) * h + Down(k) && r == (x - Down(k) * h) * Up(k) + h
  }

  lemma RotOf(x: Word, k: nat, h: nat, r: nat)
    requires Distance(k) && Turned(x, k, h, r)
    ensures Rot(x, k) == r
  {
    UpAndDown(k);
    TopBitsTurned(x, k, Up(k), Down(k), h);
  }

  lemma TopBitsTurned(x: Word, k: nat, p: nat, q: nat, h: nat)
    requires 0 < k < 32 && p == Pow2(k) && q == Pow2(32 - k) && q * h <= x < q * h + q
    ensures Rot(x, k) == (x - q * h) * p + h
  {
    RotIsRotation(x, k);
    RemainderUnique(x, q, h, x - q * h);
  }

  lemma UpAndDown(k: nat)
    requires Distance(k)
    ensures Up(k) == Pow2(k) && Down(k) == Pow2(32 - k)
  {
    PowerTable();
  }

  /** A line of `mix` on a known state: h are the top k bits of c; the words of the exclusive or, the second of
      which is the turned c, come in halves. */
  lemma StirLine(s: State, k: nat, h: nat, r: Word, dh: nat, dl: nat, rh: nat, rl: nat, t: State)
    requires Distance(k) && Turned(s.c, k, h, r)
    requires Halves(Sub(s.a, s.c), dh, dl) && Halves(r, rh, rl)
    requires t.a == s.b && t.b == Add(s.c, s.b) && t.c == 0x1_0000 * XorHalf(dh, rh) + XorHalf(dl, rl)
    ensures Stir(s, k) == t
  {
    RotOf(s.c, k, h, r);
    XorOfWords(Sub(s.a, s.c), r, dh, dl, rh, rl);
  }

  /** A line of `final`: h are the top k bits of b, r is the turned b; c and b come in halves. */
  lemma FoldLine(s: State, k: nat, h: nat, r: Word, ch: nat, cl: nat, bh: nat, bl: nat, t: State)
    requires Distance(k) && Turned(s.b, k, h, r)
    requires Halves(s.c, ch, cl) && Halves(s.b, bh, bl)
    requires t.a == s.b && Add(t.b, r) == 0x1_0000 * XorHalf(ch, bh) + XorHalf(cl, bl) && t.c == s.a
    ensures Fold(s, k) == t
  {
    RotOf(s.b, k, h, r);
    XorOfWords(s.c, s.b, ch, cl, bh, bl);
    assert Add(t.b, r) == XorWord(s.c, s.b);
    WordLaws(t.b, r);
  }

  // ------------------------------------------------------------------ the 30-byte key

  // "Four score and seven years ago", and its little-endian words.
  const KEY: seq<Byte> :=
    [0x46, 0x6f, 0x75, 0x72, 0x20, 0x73, 0x63, 0x6f, 0x72, 0x65, 0x20, 0x61, 0x6e, 0x64, 0x20,
     0x73, 0x65, 0x76, 0x65, 0x6e, 0x20, 0x79, 0x65, 0x61, 0x72, 0x73, 0x20, 0x61, 0x67, 0x6f]
  const WORDS: seq<Word> :=
    [0x7275_6f46, 0x6f63_7320, 0x6120_6572, 0x7320_646e, 0x6e65_7665, 0x6165_7920, 0x6120_7372, 0x6f67]

  const FIRST_0: State := State(0x5123_2e53, 0x4e11_322d, 0x3fce_247f)
  const FIRST_1: State := State(0x4e11_322d, 0x8ddf_56ac, 0xedb7_4e27)
  const FIRST_2: State := State(0x8ddf_56ac, 0x7b96_a4d3, 0xd8a_6dfd)
  const FIRST_3: State := State(0x7b96_a4d3, 0x8921_12d0, 0xa39_15a2)
  const FIRST_4: State := State(0x8921_12d0, 0x935a_2872, 0x64ff_8508)
  const FIRST_5: State := State(0x935a_2872, 0xf859_ad7a, 0xc62_aa34)
  const FIRST_6: State := State(0xf859_ad7a, 0x4bc_57ae, 0x40dd_dd7e)

  lemma First1()
    ensures Stir(FIRST_0, 4) == FIRST_1
  {
    StirLine(FIRST_0, 4, 0x3, 0xfce2_47f3, 0x1155, 0x9d4, 0xfce2, 0x47f3, FIRST_1);
  }

  lemma First2()
    ensures Stir(FIRST_1, 6) == FIRST_2
  {
    StirLine(FIRST_1, 6, 0x3b, 0x6dd3_89fb, 0x6059, 0xe406, 0x6dd3, 0x89fb, FIRST_2);
  }

  lemma First3()
    ensures Stir(FIRST_2, 8) == FIRST_3
  {
    StirLine(FIRST_2, 8, 0xd, 0x8a6d_fd0d, 0x8054, 0xe8af, 0x8a6d, 0xfd0d, FIRST_3);
  }

  lemma First4()
    ensures Stir(FIRST_3, 16) == FIRST_4
  {
    StirLine(FIRST_3, 16, 0xa39, 0x15a2_0a39, 0x715d, 0x8f31, 0x15a2, 0xa39, FIRST_4);
  }

  lemma First5()
    ensures Stir(FIRST_4, 19) == FIRST_5
  {
    StirLine(FIRST_4, 19, 0x3_27fc, 0x2843_27fc, 0x2421, 0x8dc8, 0x2843, 0x27fc, FIRST_5);
  }

  lemma First6()
    ensures Stir(FIRST_5, 4) == FIRST_6
  {
    StirLine(FIRST_5, 4, 0x0, 0xc62a_a340, 0x86f7, 0x7e3e, 0xc62a, 0xa340, FIRST_6);
  }

  lemma FirstBlock()
    ensures Mix(FIRST_0) == FIRST_6
  {
    First1();
    First2();
    First3();
    First4();
    First5();
    First6();
  }

  const SECOND_0: State := State(0x6b7a_11e8, 0x7321_ce13, 0xa243_569e)
  const SECOND_1: State := State(0x7321_ce13, 0x1565_24b1, 0xed03_d2a0)
  const SECOND_2: State := State(0x1565_24b1, 0x268_f751, 0xc6e9_5348)
  const SECOND_3: State := State(0x268_f751, 0xc952_4a99, 0xa728_99af)
  const SECOND_4: State := State(0xc952_4a99, 0x707a_e448, 0xc2ef_fa8a)
  const SECOND_5: State := State(0x707a_e448, 0x336a_ded2, 0xd234_4770)
  const SECOND_6: State := State(0x336a_ded2, 0x59f_2642, 0xbd02_ebd5)

  lemma Second1()
    ensures Stir(SECOND_0, 4) == SECOND_1
  {
    StirLine(SECOND_0, 4, 0xa, 0x2435_69ea, 0xc936, 0xbb4a, 0x2435, 0x69ea, SECOND_1);
  }

  lemma Second2()
    ensures Stir(SECOND_1, 6) == SECOND_2
  {
    StirLine(SECOND_1, 6, 0x3b, 0x40f4_a83b, 0x861d, 0xfb73, 0x40f4, 0xa83b, SECOND_2);
  }

  lemma Second3()
    ensures Stir(SECOND_2, 8) == SECOND_3
  {
    StirLine(SECOND_2, 8, 0xc6, 0xe953_48c6, 0x4e7b, 0xd169, 0xe953, 0x48c6, SECOND_3);
  }

  lemma Second4()
    ensures Stir(SECOND_3, 16) == SECOND_4
  {
    StirLine(SECOND_3, 16, 0xa728, 0x99af_a728, 0x5b40, 0x5da2, 0x99af, 0xa728, SECOND_4);
  }

  lemma Second5()
    ensures Stir(SECOND_4, 19) == SECOND_5
  {
    StirLine(SECOND_4, 19, 0x6_177f, 0xd456_177f, 0x662, 0x500f, 0xd456, 0x177f, SECOND_5);
  }

  lemma Second6()
    ensures Stir(SECOND_5, 4) == SECOND_6
  {
    StirLine(SECOND_5, 4, 0xd, 0x2344_770d, 0x9e46, 0x9cd8, 0x2344, 0x770d, SECOND_6);
  }

  lemma SecondBlock()
    ensures Mix(SECOND_0) == SECOND_6
  {
    Second1();
    Second2();
    Second3();
    Second4();
    Second5();
    Second6();
  }

  const LAST_0: State := State(0x948b_5244, 0x59f_95a9, 0xbd02_ebd5)
  const LAST_1: State := State(0x59f_95a9, 0xd333_3d15, 0x948b_5244)
  const LAST_2: State := State(0xd333_3d15, 0xadcf_c0b8, 0x59f_95a9)
  const LAST_3: State := State(0xadcf_c0b8, 0x36f4_b590, 0xd333_3d15)
  const LAST_4: State := State(0x36f4_b590, 0x3037_5191, 0xadcf_c0b8)
  const LAST_5: State := State(0x3037_5191, 0x9a83_7816, 0x36f4_b590)
  const LAST_6: State := State(0x9a83_7816, 0xce72_26e6, 0x3037_5191)
  const LAST_7: State := State(0xce72_26e6, 0x1777_0551, 0x9a83_7816)

  lemma Last1()
    ensures Fold(LAST_0, 14) == LAST_1
  {
    FoldLine(LAST_0, 14, 0x167, 0xe56a_4167, 0xbd02, 0xebd5, 0x59f, 0x95a9, LAST_1);
  }

  lemma Last2()
    ensures Fold(LAST_1, 11) == LAST_2
  {
    FoldLine(LAST_1, 11, 0x699, 0x99e8_ae99, 0x948b, 0x5244, 0xd333, 0x3d15, LAST_2);
  }

  lemma Last3()
    ensures Fold(LAST_2, 25) == LAST_3
  {
    FoldLine(LAST_2, 25, 0x15b_9f81, 0x715b_9f81, 0x59f, 0x95a9, 0xadcf, 0xc0b8, LAST_3);
  }

  lemma Last4()
    ensures Fold(LAST_3, 16) == LAST_4
  {
    FoldLine(LAST_3, 16, 0x36f4, 0xb590_36f4, 0xd333, 0x3d15, 0x36f4, 0xb590, LAST_4);
  }

  lemma Last5()
    ensures Fold(LAST_4, 4) == LAST_5
  {
    FoldLine(LAST_4, 4, 0x3, 0x375_1913, 0xadcf, 0xc0b8, 0x3037, 0x5191, LAST_5);
  }

  lemma Last6()
    ensures Fold(LAST_5, 14) == LAST_6
  {
    FoldLine(LAST_5, 14, 0x26a0, 0xde05_a6a0, 0x36f4, 0xb590, 0x9a83, 0x7816, LAST_6);
  }

  lemma Last7()
    ensures Fold(LAST_6, 24) == LAST_7
  {
    FoldLine(LAST_6, 24, 0xce_7226, 0xe6ce_7226, 0x3037, 0x5191, 0xce72, 0x26e6, LAST_7);
  }

  lemma LastBlock()
    ensures Final(LAST_0) == State(LAST_7.c, LAST_7.a, LAST_7.b)
  {
    Last1();
    Last2();
    Last3();
    Last4();
    Last5();
    Last6();
    Last7();
  }

  lemma KeyAsWords()
    ensures KeyWords(false, KEY) == WORDS
  {
  }

  /** The key is the text, character by character. */
  lemma KeyIsText()
    ensures var text := "Four score and seven years ago";
            |text| == |KEY| == 30 && forall k :: 0 <= k < |text| ==> text[k] as int == KEY[k]
  {
  }

  /** A key of seven or eight words takes two rounds of `mix` and one of `final`. */
  lemma ThreeBlocks(ws: seq<Word>, s: State, s1: State, s2: State)
    requires 7 <= |ws| <= 8
    requires Mix(Absorb(s, ws)) == s1 && Mix(Absorb(s1, ws[3..])) == s2
    ensures Digest(ws, s) == Final(Absorb(s2, ws[6..]))
  {
    assert ws[3..][3..] == ws[6..];
    assert Digest(ws[6..], s2) == Final(Absorb(s2, ws[6..]));
    assert Digest(ws[3..], s1) == Digest(ws[6..], s2);
  }

  lemma AbsorbedWords()
    ensures Absorb(Seeded(30, 0, 0), WORDS) == FIRST_0
    ensures Absorb(FIRST_6, WORDS[3..]) == SECOND_0
    ensures Absorb(SECOND_6, WORDS[6..]) == LAST_0
  {
  }

  /** The state after the key, without seeds: its last two words are the ones listed. */
  lemma FourScore()
    ensures BytesDigest(false, KEY, 0, 0) == State(0x9a83_7816, 0xce72_26e6, 0x1777_0551)
  {
    KeyAsWords();
    AbsorbedWords();
    FirstBlock();
    SecondBlock();
    ThreeBlocks(WORDS, Seeded(30, 0, 0), FIRST_6, SECOND_6);
    LastBlock();
  }

  /** An empty key gives the seeds back. */
  lemma EmptyKey()
    ensures BytesDigest(false, [], 0, 0).c == BytesDigest(false, [], 0, 0).b == 0xdead_beef
    ensures BytesDigest(false, [], 0, 0xdead_beef).c == 0xbd5b_7dde
    ensures BytesDigest(false, [], 0, 0xdead_beef).b == 0xdead_beef
    ensures BytesDigest(false, [], 0xdead_beef, 0xdead_beef).c == 0x9c09_3ccd
    ensures BytesDigest(false, [], 0xdead_beef, 0xdead_beef).b == 0xbd5b_7dde
  {
  }
}
