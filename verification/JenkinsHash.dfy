/**
  Bob Jenkins' lookup3 in all the forms the repository keeps: byte by byte, with 16-bit and 32-bit
  reads, over arrays of words, and for big-endian machines.

  The reference is `Digest`: absorb the key as 32-bit words, three at a time, the last word padded
  with zero bytes. Every form is a method proved against it, so any two forms agree whenever they
  see the same words.
*/
module JenkinsHash {
  import opened Bits
  import opened LookupMix

  type Byte = x: nat | x < 0x100

  // ------------------------------------------------------------------ the reference

  /** Four bytes as one word, the first byte lowest (little) or highest (big). */
  function Compose(big: bool, b0: Byte, b1: Byte, b2: Byte, b3: Byte): Word
  {
    if big then b3 + 0x100 * b2 + 0x1_0000 * b1 + 0x100_0000 * b0
    else b0 + 0x100 * b1 + 0x1_0000 * b2 + 0x100_0000 * b3
  }

  function At(key: seq<Byte>, i: nat): Byte
  {
    if i < |key| then key[i] else 0
  }

  /** A byte moved up by one, two or three bytes. */
  function Up8(b: Byte): Word
  {
    (b as int) * 0x100
  }

  function Up16(b: Byte): Word
  {
    (b as int) * 0x1_0000
  }

  function Up24(b: Byte): Word
  {
    (b as int) * 0x100_0000
  }

  /** The i-th word of a key; bytes past the end of the key count as zero. */
  function KeyWord(big: bool, key: seq<Byte>, i: nat): Word
  {
    Compose(big, At(key, 4 * i), At(key, 4 * i + 1), At(key, 4 * i + 2), At(key, 4 * i + 3))
  }

  function KeyWords(big: bool, key: seq<Byte>): (ws: seq<Word>)
    ensures |ws| == (|key| + 3) / 4
  {
    seq((|key| + 3) / 4, i requires 0 <= i => KeyWord(big, key, i))
  }

  /** The word of a list at i, absent words counting as zero. */
  function WordAt(ws: seq<Word>, i: nat): Word
  {
    if i < |ws| then ws[i] else 0
  }

  function Absorb(s: State, ws: seq<Word>): State
  {
    State(Add(s.a, WordAt(ws, 0)), Add(s.b, WordAt(ws, 1)), Add(s.c, WordAt(ws, 2)))
  }

  /** The internal state after the whole key. */
  function Digest(ws: seq<Word>, s: State): State
    decreases |ws|
  {
    if |ws| > 3 then Digest(ws[3..], Mix(Absorb(s, ws)))
    else if |ws| > 0 then Final(Absorb(s, ws))
    else s
  }

  /** The state for a key of the given length in bytes and two seeds. A `size_t` length is cut to
      32 bits. */
  function Seeded(length: nat, pc: Word, pb: Word): State
  {
    var x := Add(Add(0xdead_beef, length % 0x1_0000_0000), pc);
    State(x, x, Add(x, pb))
  }

  function BytesDigest(big: bool, key: seq<Byte>, pc: Word, pb: Word): State
  {
    Digest(KeyWords(big, key), Seeded(|key|, pc, pb))
  }

  function WordsDigest(ws: seq<Word>, pc: Word, pb: Word): State
  {
    Digest(ws, Seeded(4 * |ws|, pc, pb))
  }

  // ------------------------------------------------------------------ reading a key in blocks

  lemma DigestBlock(big: bool, key: seq<Byte>, s: State)
    requires |key| > 12
    ensures Digest(KeyWords(big, key), s) ==
            Digest(KeyWords(big, key[12..]),
                   Mix(State(Add(s.a, KeyWord(big, key, 0)), Add(s.b, KeyWord(big, key, 1)),
                             Add(s.c, KeyWord(big, key, 2)))))
  {
    var ws, rest := KeyWords(big, key), KeyWords(big, key[12..]);
    assert ws[3..] == rest by {
      forall i | 0 <= i < |rest|
        ensures ws[3..][i] == rest[i]
      {
        assert ws[3 + i] == KeyWord(big, key, 3 + i);
        assert At(key, 4 * (3 + i)) == At(key[12..], 4 * i);
        assert At(key, 4 * (3 + i) + 1) == At(key[12..], 4 * i + 1);
        assert At(key, 4 * (3 + i) + 2) == At(key[12..], 4 * i + 2);
        assert At(key, 4 * (3 + i) + 3) == At(key[12..], 4 * i + 3);
      }
    }
  }

  lemma DigestTail(big: bool, key: seq<Byte>, s: State)
    requires |key| <= 12
    ensures Digest(KeyWords(big, key), s) ==
            if |key| == 0 then s
            else Final(State(Add(s.a, KeyWord(big, key, 0)), Add(s.b, KeyWord(big, key, 1)),
                             Add(s.c, KeyWord(big, key, 2))))
  {
    if |key| > 0 {
      forall i | 0 <= i < 3
        ensures WordAt(KeyWords(big, key), i) == KeyWord(big, key, i)
      {
        if i >= (|key| + 3) / 4 {
          assert KeyWord(big, key, i) == Compose(big, 0, 0, 0, 0);
        }
      }
    }
  }

  // ------------------------------------------------------------------ byte-wise forms

  /** Adding the bytes of one word in either order is adding the word. */
  lemma AddBytes(big: bool, x: Word, b0: Byte, b1: Byte, b2: Byte, b3: Byte)
    ensures !big ==> Add(Add(Add(Add(x, b0), Up8(b1)), Up16(b2)), Up24(b3)) == Add(x, Compose(big, b0, b1, b2, b3))
    ensures !big ==> Add(Add(Add(Add(x, Up24(b3)), Up16(b2)), Up8(b1)), b0) == Add(x, Compose(big, b0, b1, b2, b3))
    ensures big ==> Add(Add(Add(Add(x, Up24(b0)), Up16(b1)), Up8(b2)), b3) == Add(x, Compose(big, b0, b1, b2, b3))
    ensures big ==> Add(Add(Add(Add(x, b3), Up8(b2)), Up16(b1)), Up24(b0)) == Add(x, Compose(big, b0, b1, b2, b3))
  {
    if big {
      AddFour(x, Up24(b0), Up16(b1), Up8(b2), b3);
      AddFour(x, b3, Up8(b2), Up16(b1), Up24(b0));
    } else {
      AddFour(x, b0, Up8(b1), Up16(b2), Up24(b3));
      AddFour(x, Up24(b3), Up16(b2), Up8(b1), b0);
    }
  }

  lemma AddFour(x: Word, p: Word, q: Word, r: Word, t: Word)
    requires p + q + r + t < 0x1_0000_0000
    ensures Add(Add(Add(Add(x, p), q), r), t) == Add(x, p + q + r + t)
  {
    assert Add(Add(x, p), q) == Add(x, p + q);
    assert Add(Add(x, p + q), r) == Add(x, p + q + r);
  }

  /** One full 12-byte block of the main loop, little-endian. */
  method AddBlockLittle(k: seq<Byte>, a0: Word, b0: Word, c0: Word)
    returns (a: Word, b: Word, c: Word)
    requires |k| >= 12
    ensures a == Add(a0, KeyWord(false, k, 0))
    ensures b == Add(b0, KeyWord(false, k, 1))
    ensures c == Add(c0, KeyWord(false, k, 2))
  {
    a, b, c := a0, b0, c0;
    AddBytes(false, a, k[0], k[1], k[2], k[3]);
    AddBytes(false, b, k[4], k[5], k[6], k[7]);
    AddBytes(false, c, k[8], k[9], k[10], k[11]);
    a := Add(a, k[0]); a := Add(a, Up8(k[1])); a := Add(a, Up16(k[2])); a := Add(a, Up24(k[3]));
    b := Add(b, k[4]); b := Add(b, Up8(k[5])); b := Add(b, Up16(k[6])); b := Add(b, Up24(k[7]));
    c := Add(c, k[8]); c := Add(c, Up8(k[9])); c := Add(c, Up16(k[10])); c := Add(c, Up24(k[11]));
  }

  /** The four cases of the fall-through switch that touch word i, little-endian. */
  method AddTailWordLittle(k: seq<Byte>, i: nat, x0: Word) returns (x: Word)
    ensures x == Add(x0, KeyWord(false, k, i))
  {
    AddBytes(false, x0, At(k, 4 * i), At(k, 4 * i + 1), At(k, 4 * i + 2), At(k, 4 * i + 3));
    x := x0;
    if |k| >= 4 * i + 4 { x := Add(x, Up24(k[4 * i + 3])); }
    if |k| >= 4 * i + 3 { x := Add(x, Up16(k[4 * i + 2])); }
    if |k| >= 4 * i + 2 { x := Add(x, Up8(k[4 * i + 1])); }
    if |k| >= 4 * i + 1 { x := Add(x, k[4 * i]); }
  }

  /** The switch on the last block: cases 12 to 9 touch c, 8 to 5 touch b, 4 to 1 touch a. */
  method AddTailLittle(k: seq<Byte>, a0: Word, b0: Word, c0: Word)
    returns (a: Word, b: Word, c: Word)
    ensures a == Add(a0, KeyWord(false, k, 0))
    ensures b == Add(b0, KeyWord(false, k, 1))
    ensures c == Add(c0, KeyWord(false, k, 2))
  {
    c := AddTailWordLittle(k, 2, c0);
    b := AddTailWordLittle(k, 1, b0);
    a := AddTailWordLittle(k, 0, a0);
  }

  method HashLittle(key: seq<Byte>, initval: Word) returns (hash: Word)
    ensures hash == BytesDigest(false, key, initval, 0).c
  {
    var a: Word := Add(Add(0xdead_beef, |key| % 0x1_0000_0000), initval);
    var b, c := a, a;
    var k := key;
    while |k| > 12
      invariant Digest(KeyWords(false, k), State(a, b, c)) == BytesDigest(false, key, initval, 0)
    {
      DigestBlock(false, k, State(a, b, c));
      a, b, c := AddBlockLittle(k, a, b, c);
      a, b, c := MixInPlace(a, b, c);
      k := k[12..];
    }
    DigestTail(false, k, State(a, b, c));
    if |k| == 0 {
      return c;
    }
    a, b, c := AddTailLittle(k, a, b, c);
    a, b, c := FinalInPlace(a, b, c);
    hash := c;
  }

  method AddBlockBig(k: seq<Byte>, a0: Word, b0: Word, c0: Word)
    returns (a: Word, b: Word, c: Word)
    requires |k| >= 12
    ensures a == Add(a0, KeyWord(true, k, 0))
    ensures b == Add(b0, KeyWord(true, k, 1))
    ensures c == Add(c0, KeyWord(true, k, 2))
  {
    a, b, c := a0, b0, c0;
    AddBytes(true, a, k[0], k[1], k[2], k[3]);
    AddBytes(true, b, k[4], k[5], k[6], k[7]);
    AddBytes(true, c, k[8], k[9], k[10], k[11]);
    a := Add(a, Up24(k[0])); a := Add(a, Up16(k[1])); a := Add(a, Up8(k[2])); a := Add(a, k[3]);
    b := Add(b, Up24(k[4])); b := Add(b, Up16(k[5])); b := Add(b, Up8(k[6])); b := Add(b, k[7]);
    c := Add(c, Up24(k[8])); c := Add(c, Up16(k[9])); c := Add(c, Up8(k[10])); c := Add(c, k[11]);
  }

  method AddTailWordBig(k: seq<Byte>, i: nat, x0: Word) returns (x: Word)
    ensures x == Add(x0, KeyWord(true, k, i))
  {
    AddBytes(true, x0, At(k, 4 * i), At(k, 4 * i + 1), At(k, 4 * i + 2), At(k, 4 * i + 3));
    x := x0;
    if |k| >= 4 * i + 4 { x := Add(x, k[4 * i + 3]); }
    if |k| >= 4 * i + 3 { x := Add(x, Up8(k[4 * i + 2])); }
    if |k| >= 4 * i + 2 { x := Add(x, Up16(k[4 * i + 1])); }
    if |k| >= 4 * i + 1 { x := Add(x, Up24(k[4 * i])); }
  }

  method HashBig(key: seq<Byte>, initval: Word) returns (hash: Word)
    ensures hash == BytesDigest(true, key, initval, 0).c
  {
    var a: Word := Add(Add(0xdead_beef, |key| % 0x1_0000_0000), initval);
    var b, c := a, a;
    var k := key;
    while |k| > 12
      invariant Digest(KeyWords(true, k), State(a, b, c)) == BytesDigest(true, key, initval, 0)
    {
      DigestBlock(true, k, State(a, b, c));
      a, b, c := AddBlockBig(k, a, b, c);
      a, b, c := MixInPlace(a, b, c);
      k := k[12..];
    }
    DigestTail(true, k, State(a, b, c));
    if |k| == 0 {
      return c;
    }
    c := AddTailWordBig(k, 2, c);
    b := AddTailWordBig(k, 1, b);
    a := AddTailWordBig(k, 0, a);
    a, b, c := FinalInPlace(a, b, c);
    hash := c;
  }

  /** `jenkins_hash`: the byte order of the machine picks the function. */
  method Hash(wordsBigEndian: bool, key: seq<Byte>, initval: Word) returns (hash: Word)
    ensures hash == BytesDigest(wordsBigEndian, key, initval, 0).c
  {
    if wordsBigEndian {
      hash := HashBig(key, initval);
    } else {
      hash := HashLittle(key, initval);
    }
  }

  // ------------------------------------------------------------------ forms over word arrays

  lemma DigestWords(ws: seq<Word>, s: State)
    ensures |ws| == 0 ==> Digest(ws, s) == s
    ensures |ws| == 1 ==> Digest(ws, s) == Final(State(Add(s.a, ws[0]), s.b, s.c))
    ensures |ws| == 2 ==> Digest(ws, s) == Final(State(Add(s.a, ws[0]), Add(s.b, ws[1]), s.c))
    ensures |ws| == 3 ==>
              Digest(ws, s) == Final(State(Add(s.a, ws[0]), Add(s.b, ws[1]), Add(s.c, ws[2])))
    ensures |ws| > 3 ==>
              Digest(ws, s) ==
              Digest(ws[3..], Mix(State(Add(s.a, ws[0]), Add(s.b, ws[1]), Add(s.c, ws[2]))))
  {
    if |ws| == 1 {
      assert Absorb(s, ws) == State(Add(s.a, ws[0]), s.b, s.c);
    } else if |ws| == 2 {
      assert Absorb(s, ws) == State(Add(s.a, ws[0]), Add(s.b, ws[1]), s.c);
    } else if |ws| >= 3 {
      assert Absorb(s, ws) == State(Add(s.a, ws[0]), Add(s.b, ws[1]), Add(s.c, ws[2]));
    }
  }

  /** A key of one word enters the first word of the state; the seed enters all three. */
  lemma OneWordDigest(w: Word, seed: Word, x: Word)
    requires x == Add(0xdead_bef3, seed)
    ensures WordsDigest([w], seed, 0) == Final(State(Add(x, w), x, x))
  {
    SeedsOfOneWord(seed, x);
    DigestWords([w], State(x, x, x));
  }

  lemma SeedsOfOneWord(seed: Word, x: Word)
    requires x == Add(0xdead_bef3, seed)
    ensures Seeded(4, seed, 0) == State(x, x, x)
  {
  }

  lemma ShiftedLength(n: nat)
    ensures ((n % 0x1_0000_0000) * 4) % 0x1_0000_0000 == (4 * n) % 0x1_0000_0000
  {
    var q, r := n / 0x1_0000_0000, n % 0x1_0000_0000;
    assert 4 * n == 0x1_0000_0000 * (4 * q) + 4 * r;
  }

  /** The loop and the switch the two word forms share. */
  method DigestInPlace(key: seq<Word>, a0: Word, b0: Word, c0: Word)
    returns (a: Word, b: Word, c: Word)
    ensures State(a, b, c) == Digest(key, State(a0, b0, c0))
  {
    a, b, c := a0, b0, c0;
    var k := key;
    while |k| > 3
      invariant Digest(k, State(a, b, c)) == Digest(key, State(a0, b0, c0))
    {
      DigestWords(k, State(a, b, c));
      a := Add(a, k[0]);
      b := Add(b, k[1]);
      c := Add(c, k[2]);
      a, b, c := MixInPlace(a, b, c);
      k := k[3..];
    }
    DigestWords(k, State(a, b, c));
    if |k| == 3 { c := Add(c, k[2]); }
    if |k| >= 2 { b := Add(b, k[1]); }
    if |k| >= 1 {
      a := Add(a, k[0]);
      a, b, c := FinalInPlace(a, b, c);
    }
  }

  method HashWord(key: seq<Word>, initval: Word) returns (hash: Word)
    ensures hash == WordsDigest(key, initval, 0).c
  {
    ShiftedLength(|key|);
    var a: Word := Add(Add(0xdead_beef, ((|key| % 0x1_0000_0000) * 4) % 0x1_0000_0000), initval);
    var b, c := a, a;
    a, b, c := DigestInPlace(key, a, b, c);
    hash := c;
  }

  method HashWord2(key: seq<Word>, pc: Word, pb: Word) returns (primary: Word, secondary: Word)
    ensures var t := WordsDigest(key, pc, pb); primary == t.c && secondary == t.b
  {
    var a: Word := Add(Add(0xdead_beef, (|key| * 4) % 0x1_0000_0000), pc);
    var b, c := a, a;
    c := Add(c, pb);
    assert State(a, b, c) == Seeded(4 * |key|, pc, pb);
    a, b, c := DigestInPlace(key, a, b, c);
    primary, secondary := c, b;
  }

  // ------------------------------------------------------------------ hashlittle2

  /** The number of bytes a key of the given length touches when read in whole words. */
  function WholeWords(length: nat): (n: nat)
    ensures length <= n < length + 4 && n % 4 == 0
  {
    (length + 3) / 4 * 4
  }

  lemma WholeWordsOfBlock(length: nat)
    requires length >= 12
    ensures WholeWords(length - 12) == WholeWords(length) - 12
  {
  }

  /** A 32-bit and a 16-bit little-endian load from memory. */
  function Load32(mem: seq<Byte>, at: nat): Word
    requires at + 4 <= |mem|
  {
    Compose(false, mem[at], mem[at + 1], mem[at + 2], mem[at + 3])
  }

  function Load16(mem: seq<Byte>, at: nat): Word
    requires at + 2 <= |mem|
  {
    mem[at] + Up8(mem[at + 1])
  }

  /** A mask of n low bytes drops exactly the bytes that are not part of the key. */
  lemma MaskedLoad(mem: seq<Byte>, length: nat, i: nat)
    requires length <= |mem| && 4 * i + 4 <= |mem|
    ensures length == 4 * i + 1 ==> And(Load32(mem, 4 * i), 0xff) == KeyWord(false, mem[..length], i)
    ensures length == 4 * i + 2 ==> And(Load32(mem, 4 * i), 0xffff) == KeyWord(false, mem[..length], i)
    ensures length == 4 * i + 3 ==> And(Load32(mem, 4 * i), 0xff_ffff) == KeyWord(false, mem[..length], i)
  {
    MaskedCompose(mem[4 * i], mem[4 * i + 1], mem[4 * i + 2], mem[4 * i + 3]);
  }

  lemma WholeLoad(mem: seq<Byte>, length: nat, i: nat)
    requires 4 * i + 4 <= length <= |mem|
    ensures Load32(mem, 4 * i) == KeyWord(false, mem[..length], i)
  {
  }

  lemma MaskedCompose(b0: Byte, b1: Byte, b2: Byte, b3: Byte)
    ensures And(Compose(false, b0, b1, b2, b3), 0xff) == Compose(false, b0, 0, 0, 0)
    ensures And(Compose(false, b0, b1, b2, b3), 0xffff) == Compose(false, b0, b1, 0, 0)
    ensures And(Compose(false, b0, b1, b2, b3), 0xff_ffff) == Compose(false, b0, b1, b2, 0)
  {
    var w := Compose(false, b0, b1, b2, b3);
    Pow2Values();
    Pow2Add(8, 16);
    AndLowMask(w, 8);
    RemainderUnique(w, 0x100, b1 + 0x100 * b2 + 0x1_0000 * b3, b0);
    AndLowMask(w, 16);
    RemainderUnique(w, 0x1_0000, b2 + 0x100 * b3, b0 + 0x100 * b1);
    AndLowMask(w, 24);
    RemainderUnique(w, 0x100_0000, b3, b0 + 0x100 * b1 + 0x1_0000 * b2);
  }

  /** The switch of the 32-bit branch: whole words and masked words, no fall-through. */
  method AddTailAligned4(mem: seq<Byte>, length: nat, a0: Word, b0: Word, c0: Word)
    returns (a: Word, b: Word, c: Word)
    requires 0 < length <= 12
    requires |mem| >= WholeWords(length)
    ensures var key := mem[..length];
            && a == Add(a0, KeyWord(false, key, 0))
            && b == Add(b0, KeyWord(false, key, 1))
            && c == Add(c0, KeyWord(false, key, 2))
  {
    a, b, c := a0, b0, c0;
    if length >= 4 { WholeLoad(mem, length, 0); } else { MaskedLoad(mem, length, 0); }
    if length >= 8 { WholeLoad(mem, length, 1); } else if length > 4 { MaskedLoad(mem, length, 1); }
    if length >= 12 { WholeLoad(mem, length, 2); } else if length > 8 { MaskedLoad(mem, length, 2); }
    match length {
      case 12 => c := Add(c, Load32(mem, 8)); b := Add(b, Load32(mem, 4)); a := Add(a, Load32(mem, 0));
      case 11 => c := Add(c, And(Load32(mem, 8), 0xff_ffff)); b := Add(b, Load32(mem, 4)); a := Add(a, Load32(mem, 0));
      case 10 => c := Add(c, And(Load32(mem, 8), 0xffff)); b := Add(b, Load32(mem, 4)); a := Add(a, Load32(mem, 0));
      case 9 => c := Add(c, And(Load32(mem, 8), 0xff)); b := Add(b, Load32(mem, 4)); a := Add(a, Load32(mem, 0));
      case 8 => b := Add(b, Load32(mem, 4)); a := Add(a, Load32(mem, 0));
      case 7 => b := Add(b, And(Load32(mem, 4), 0xff_ffff)); a := Add(a, Load32(mem, 0));
      case 6 => b := Add(b, And(Load32(mem, 4), 0xffff)); a := Add(a, Load32(mem, 0));
      case 5 => b := Add(b, And(Load32(mem, 4), 0xff)); a := Add(a, Load32(mem, 0));
      case 4 => a := Add(a, Load32(mem, 0));
      case 3 => a := Add(a, And(Load32(mem, 0), 0xff_ffff));
      case 2 => a := Add(a, And(Load32(mem, 0), 0xffff));
      case _ => a := Add(a, And(Load32(mem, 0), 0xff));
    }
  }

  /** Two 16-bit loads make a 32-bit load. */
  function Pair16(mem: seq<Byte>, at: nat): (w: Word)
    requires at + 4 <= |mem|
    ensures w == Load32(mem, at)
  {
    Load16(mem, at) + (Load16(mem, at + 2) as int) * 0x1_0000
  }

  /** The switch of the 16-bit branch: half words, single bytes, and fall-through from odd cases. */
  method AddTailAligned2(k: seq<Byte>, a0: Word, b0: Word, c0: Word)
    returns (a: Word, b: Word, c: Word)
    requires 0 < |k| <= 12
    ensures a == Add(a0, KeyWord(false, k, 0))
    ensures b == Add(b0, KeyWord(false, k, 1))
    ensures c == Add(c0, KeyWord(false, k, 2))
  {
    a, b, c := a0, b0, c0;
    if |k| == 12 { c := Add(c, Pair16(k, 8)); }
    if |k| == 11 { c := Add(c, Up16(k[10])); }
    if |k| == 11 || |k| == 10 { c := Add(c, Load16(k, 8)); }
    if |k| == 9 { c := Add(c, k[8]); }
    if |k| >= 8 { b := Add(b, Pair16(k, 4)); }
    if |k| == 7 { b := Add(b, Up16(k[6])); }
    if |k| == 7 || |k| == 6 { b := Add(b, Load16(k, 4)); }
    if |k| == 5 { b := Add(b, k[4]); }
    if |k| >= 4 { a := Add(a, Pair16(k, 0)); }
    if |k| == 3 { a := Add(a, Up16(k[2])); }
    if |k| == 3 || |k| == 2 { a := Add(a, Load16(k, 0)); }
    if |k| == 1 { a := Add(a, k[0]); }
  }

  lemma AlignedBlock(k: seq<Byte>, left: nat, s: State)
    requires 12 < left <= |k|
    ensures Digest(KeyWords(false, k[..left]), s) ==
            Digest(KeyWords(false, k[12..][..left - 12]),
                   Mix(State(Add(s.a, Load32(k, 0)), Add(s.b, Load32(k, 4)), Add(s.c, Load32(k, 8)))))
  {
    var key := k[..left];
    var rest := k[12..][..left - 12];
    assert rest == key[12..];
    WholeLoad(k, left, 0);
    WholeLoad(k, left, 1);
    WholeLoad(k, left, 2);
    calc {
      Digest(KeyWords(false, key), s);
      { DigestBlock(false, key, s); }
      Digest(KeyWords(false, rest),
             Mix(State(Add(s.a, KeyWord(false, key, 0)), Add(s.b, KeyWord(false, key, 1)),
                       Add(s.c, KeyWord(false, key, 2)))));
      Digest(KeyWords(false, rest),
             Mix(State(Add(s.a, Load32(k, 0)), Add(s.b, Load32(k, 4)), Add(s.c, Load32(k, 8)))));
    }
  }

  /** The branch for keys at a multiple of four. It reads whole words, so `mem` may go on behind
      the key; what is there has no influence. */
  method HashLittle2Aligned4(mem: seq<Byte>, length: nat, pc: Word, pb: Word)
    returns (primary: Word, secondary: Word)
    requires |mem| >= WholeWords(length)
    ensures var t := BytesDigest(false, mem[..length], pc, pb); primary == t.c && secondary == t.b
  {
    var a: Word := Add(Add(0xdead_beef, length % 0x1_0000_0000), pc);
    var b, c := a, a;
    c := Add(c, pb);
    var k, left := mem, length;
    ghost var goal := BytesDigest(false, mem[..length], pc, pb);
    while left > 12
      invariant 0 <= left <= |k| && |k| >= WholeWords(left)
      invariant Digest(KeyWords(false, k[..left]), State(a, b, c)) == goal
    {
      AlignedBlock(k, left, State(a, b, c));
      WholeWordsOfBlock(left);
      a := Add(a, Load32(k, 0));
      b := Add(b, Load32(k, 4));
      c := Add(c, Load32(k, 8));
      a, b, c := MixInPlace(a, b, c);
      left := left - 12;
      k := k[12..];
    }
    DigestTail(false, k[..left], State(a, b, c));
    if left == 0 {
      return c, b;
    }
    a, b, c := AddTailAligned4(k, left, a, b, c);
    a, b, c := FinalInPlace(a, b, c);
    primary, secondary := c, b;
  }

  method HashLittle2Aligned2(key: seq<Byte>, pc: Word, pb: Word) returns (primary: Word, secondary: Word)
    ensures var t := BytesDigest(false, key, pc, pb); primary == t.c && secondary == t.b
  {
    var a: Word := Add(Add(0xdead_beef, |key| % 0x1_0000_0000), pc);
    var b, c := a, a;
    c := Add(c, pb);
    var k := key;
    while |k| > 12
      invariant Digest(KeyWords(false, k), State(a, b, c)) == BytesDigest(false, key, pc, pb)
    {
      DigestBlock(false, k, State(a, b, c));
      a := Add(a, Pair16(k, 0));
      b := Add(b, Pair16(k, 4));
      c := Add(c, Pair16(k, 8));
      a, b, c := MixInPlace(a, b, c);
      k := k[12..];
    }
    DigestTail(false, k, State(a, b, c));
    if |k| == 0 {
      return c, b;
    }
    a, b, c := AddTailAligned2(k, a, b, c);
    a, b, c := FinalInPlace(a, b, c);
    primary, secondary := c, b;
  }

  method HashLittle2Unaligned(key: seq<Byte>, pc: Word, pb: Word) returns (primary: Word, secondary: Word)
    ensures var t := BytesDigest(false, key, pc, pb); primary == t.c && secondary == t.b
  {
    var a: Word := Add(Add(0xdead_beef, |key| % 0x1_0000_0000), pc);
    var b, c := a, a;
    c := Add(c, pb);
    var k := key;
    while |k| > 12
      invariant Digest(KeyWords(false, k), State(a, b, c)) == BytesDigest(false, key, pc, pb)
    {
      DigestBlock(false, k, State(a, b, c));
      a, b, c := AddBlockLittle(k, a, b, c);
      a, b, c := MixInPlace(a, b, c);
      k := k[12..];
    }
    DigestTail(false, k, State(a, b, c));
    if |k| == 0 {
      return c, b;
    }
    a, b, c := AddTailLittle(k, a, b, c);
    a, b, c := FinalInPlace(a, b, c);
    primary, secondary := c, b;
  }

  /** `jenkins_hashlittle2`: machine byte order and the address of the key pick the branch. The
      result depends on neither, nor on memory behind the key. */
  method HashLittle2(littleEndian: bool, address: nat, mem: seq<Byte>, length: nat, pc: Word, pb: Word)
    returns (primary: Word, secondary: Word)
    requires |mem| >= if littleEndian && address % 4 == 0 then WholeWords(length) else length
    ensures var t := BytesDigest(false, mem[..length], pc, pb); primary == t.c && secondary == t.b
  {
    Pow2Values();
    assert Pow2(2) == 4 && Pow2(1) == 2;
    AndLowMask(address, 2);
    AndLowMask(address, 1);
    if littleEndian && And(address, 0x3) == 0 {
      primary, secondary := HashLittle2Aligned4(mem, length, pc, pb);
    } else if littleEndian && And(address, 0x1) == 0 {
      primary, secondary := HashLittle2Aligned2(mem[..length], pc, pb);
    } else {
      primary, secondary := HashLittle2Unaligned(mem[..length], pc, pb);
    }
  }

  // ------------------------------------------------------------------ the forms agree

  /** The bytes of a word array in memory. */
  function WordBytes(big: bool, ws: seq<Word>): (bytes: seq<Byte>)
    ensures |bytes| == 4 * |ws|
  {
    seq(4 * |ws|, i requires 0 <= i < 4 * |ws| => WordByte(big, ws[i / 4], i % 4))
  }

  function WordByte(big: bool, w: Word, i: nat): Byte
    requires i < 4
  {
    match if big then 3 - i else i
    case 0 => w % 0x100
    case 1 => w / 0x100 % 0x100
    case 2 => w / 0x100 / 0x100 % 0x100
    case _ => w / 0x100 / 0x100 / 0x100
  }

  lemma WordBytesAt(big: bool, ws: seq<Word>, i: nat, j: nat)
    requires i < |ws| && j < 4
    ensures At(WordBytes(big, ws), 4 * i + j) == WordByte(big, ws[i], j)
  {
    assert (4 * i + j) / 4 == i && (4 * i + j) % 4 == j;
  }

  lemma ComposeBytes(big: bool, w: Word)
    ensures Compose(big, WordByte(big, w, 0), WordByte(big, w, 1), WordByte(big, w, 2), WordByte(big, w, 3)) == w
  {
  }

  /** Hashing a word array as words is hashing the bytes it occupies in memory: `hashword` is
      `hashlittle` on a little-endian machine and `hashbig` on a big-endian one. */
  lemma WordFormsAgree(big: bool, ws: seq<Word>, pc: Word, pb: Word)
    ensures BytesDigest(big, WordBytes(big, ws), pc, pb) == WordsDigest(ws, pc, pb)
  {
    var bytes := WordBytes(big, ws);
    forall i | 0 <= i < |ws|
      ensures KeyWords(big, bytes)[i] == ws[i]
    {
      WordBytesAt(big, ws, i, 0);
      WordBytesAt(big, ws, i, 1);
      WordBytesAt(big, ws, i, 2);
      WordBytesAt(big, ws, i, 3);
      ComposeBytes(big, ws[i]);
    }
    assert KeyWords(big, bytes) == ws;
  }

  /** `jenkins_hashlittle2` with memory going on behind the key and no second seed. */
  method HashLittle2InMemory(address: nat, key: seq<Byte>, behind: seq<Byte>, initval: Word) returns (primary: Word)
    ensures primary == BytesDigest(false, key, initval, 0).c
  {
    var mem := key + behind + [0, 0, 0];
    assert mem[..|key|] == key;
    var secondary;
    primary, secondary := HashLittle2(true, address, mem, |key|, initval, 0);
  }

  /** The agreements that the self test of the file spot-checks, here for every word array, seed,
      address and every continuation of memory behind the key. */
  method CompareForms(ws: seq<Word>, initval: Word, address: nat, behind: seq<Byte>)
    returns (word: Word, word2: Word, little: Word, little2: Word, big: Word)
    ensures word == word2 == little == little2 == big
  {
    WordFormsAgree(false, ws, initval, 0);
    WordFormsAgree(true, ws, initval, 0);
    word := HashWord(ws, initval);
    var secondary;
    word2, secondary := HashWord2(ws, initval, 0);
    var bytes := WordBytes(false, ws);
    little := HashLittle(bytes, initval);
    little2 := HashLittle2InMemory(address, bytes, behind, initval);
    bytes := WordBytes(true, ws);
    big := HashBig(bytes, initval);
  }

  // ------------------------------------------------------------------ nothing is lost

  function Unabsorb(s: State, ws: seq<Word>): State
  {
    State(Sub(s.a, WordAt(ws, 0)), Sub(s.b, WordAt(ws, 1)), Sub(s.c, WordAt(ws, 2)))
  }

  /** Runs a digest backwards: from the final state and the key to the state at the start. */
  function Undigest(ws: seq<Word>, t: State): State
    decreases |ws|
  {
    if |ws| > 3 then Unabsorb(Unmix(Undigest(ws[3..], t)), ws)
    else if |ws| > 0 then Unabsorb(Unfinal(t), ws)
    else t
  }

  lemma UnabsorbAbsorb(s: State, ws: seq<Word>)
    ensures Unabsorb(Absorb(s, ws), ws) == s
    ensures Absorb(Unabsorb(s, ws), ws) == s
  {
    WordLaws(s.a, WordAt(ws, 0));
    WordLaws(s.b, WordAt(ws, 1));
    WordLaws(s.c, WordAt(ws, 2));
  }

  /** For a fixed key the whole hash is a bijection on states, with `Undigest` as its inverse. */
  lemma {:induction false} DigestIsBijection(ws: seq<Word>, s: State)
    ensures Undigest(ws, Digest(ws, s)) == s
    ensures Digest(ws, Undigest(ws, s)) == s
    decreases |ws|
  {
    if |ws| > 3 {
      var m := Absorb(s, ws);
      DigestIsBijection(ws[3..], Mix(m));
      MixIsBijection(m);
      UnabsorbAbsorb(s, ws);
      var u := Undigest(ws[3..], s);
      DigestIsBijection(ws[3..], s);
      MixIsBijection(u);
      UnabsorbAbsorb(Unmix(u), ws);
    } else if |ws| > 0 {
      FinalIsBijection(Absorb(s, ws));
      UnabsorbAbsorb(s, ws);
      FinalIsBijection(s);
      UnabsorbAbsorb(Unfinal(s), ws);
    }
  }

  /** Two word lists of the same length that differ in one block of three words only. */
  ghost predicate DifferInBlock(ws: seq<Word>, vs: seq<Word>, block: nat)
  {
    && |ws| == |vs|
    && ws != vs
    && forall i :: 0 <= i < |ws| && (i < 3 * block || 3 * block + 3 <= i) ==> ws[i] == vs[i]
  }

  lemma AbsorbDiffers(s: State, ws: seq<Word>, vs: seq<Word>)
    requires DifferInBlock(ws, vs, 0)
    ensures Absorb(s, ws) != Absorb(s, vs)
  {
    var i :| 0 <= i < |ws| && ws[i] != vs[i];
    assert i < 3;
    assert WordAt(ws, i) != WordAt(vs, i);
  }

  lemma {:induction false} BlockReachesState(ws: seq<Word>, vs: seq<Word>, block: nat, s: State)
    requires DifferInBlock(ws, vs, block)
    ensures Digest(ws, s) != Digest(vs, s)
    decreases block
  {
    if block == 0 {
      AbsorbDiffers(s, ws, vs);
      var m, n := Absorb(s, ws), Absorb(s, vs);
      if |ws| > 3 {
        assert ws[3..] == vs[3..];
        MixIsBijection(m);
        MixIsBijection(n);
        DigestIsBijection(ws[3..], Mix(m));
        DigestIsBijection(ws[3..], Mix(n));
      } else {
        FinalIsBijection(m);
        FinalIsBijection(n);
      }
    } else {
      var i :| 0 <= i < |ws| && ws[i] != vs[i];
      assert i >= 3;
      assert ws[3..][i - 3] != vs[3..][i - 3];
      assert Absorb(s, ws) == Absorb(s, vs);
      BlockReachesState(ws[3..], vs[3..], block - 1, Mix(Absorb(s, ws)));
    }
  }

  /** Two keys of equal length that differ inside exactly one 12-byte block end in different
      internal states, whatever the seeds, the length and the byte order. */
  lemma KeyBlockReachesState(big: bool, key: seq<Byte>, other: seq<Byte>, block: nat, pc: Word,
                             pb: Word)
    requires |key| == |other| && key != other
    requires forall i :: 0 <= i < |key| && (i < 12 * block || 12 * block + 12 <= i) ==> key[i] == other[i]
    ensures BytesDigest(big, key, pc, pb) != BytesDigest(big, other, pc, pb)
  {
    var ws, vs := KeyWords(big, key), KeyWords(big, other);
    var j :| 0 <= j < |key| && key[j] != other[j];
    var w := j / 4;
    KeyWordDiffers(big, key, other, w, j % 4);
    assert ws[w] != vs[w];
    forall i | 0 <= i < |ws| && (i < 3 * block || 3 * block + 3 <= i)
      ensures ws[i] == vs[i]
    {
      assert At(key, 4 * i) == At(other, 4 * i);
      assert At(key, 4 * i + 1) == At(other, 4 * i + 1);
      assert At(key, 4 * i + 2) == At(other, 4 * i + 2);
      assert At(key, 4 * i + 3) == At(other, 4 * i + 3);
    }
    BlockReachesState(ws, vs, block, Seeded(|key|, pc, pb));
  }

  lemma KeyWordDiffers(big: bool, key: seq<Byte>, other: seq<Byte>, w: nat, i: nat)
    requires i < 4 && At(key, 4 * w + i) != At(other, 4 * w + i)
    ensures KeyWord(big, key, w) != KeyWord(big, other, w)
  {
    ComposeInjective(At(key, 4 * w), At(key, 4 * w + 1), At(key, 4 * w + 2), At(key, 4 * w + 3),
                     At(other, 4 * w), At(other, 4 * w + 1), At(other, 4 * w + 2), At(other, 4 * w + 3));
    ComposeInjective(At(key, 4 * w + 3), At(key, 4 * w + 2), At(key, 4 * w + 1), At(key, 4 * w),
                     At(other, 4 * w + 3), At(other, 4 * w + 2), At(other, 4 * w + 1), At(other, 4 * w));
  }

  lemma ComposeInjective(b0: Byte, b1: Byte, b2: Byte, b3: Byte, c0: Byte, c1: Byte, c2: Byte,
                         c3: Byte)
    ensures Compose(false, b0, b1, b2, b3) == Compose(false, c0, c1, c2, c3) ==>
              b0 == c0 && b1 == c1 && b2 == c2 && b3 == c3
  {
    if Compose(false, b0, b1, b2, b3) == Compose(false, c0, c1, c2, c3) {
      assert b0 - c0 == 0x100 * (c1 - b1 + 0x100 * (c2 - b2 + 0x100 * (c3 - b3)));
      assert b1 - c1 == 0x100 * (c2 - b2 + 0x100 * (c3 - b3));
      assert b2 - c2 == 0x100 * (c3 - b3);
    }
  }
}
