/**
  The two mixing macros of Bob Jenkins' lookup3 hash and their inverses.

  `mix` and `final` are straight-line code over three 32-bit words. Both are a repetition of one
  step on rotated roles, so each is written here twice: once as the macro spells it out (the
  methods) and once as iterated steps (the functions), and the steps have explicit inverses.
  A uint32_t is a natural number below 2^32, with its wrap-around written out.
*/
module LookupMix {
  import opened Bits

  type Word = x: nat | x < 0x1_0000_0000

  function Add(x: Word, y: Word): Word
  {
    if x + y < 0x1_0000_0000 then x + y else x + y - 0x1_0000_0000
  }

  function Sub(x: Word, y: Word): Word
  {
    if y <= x then x - y else x + 0x1_0000_0000 - y
  }

  function XorWord(x: Word, y: Word): Word
  {
    Pow2Values();
    XorBound(x, y, 32);
    Xor(x, y)
  }

  function ShiftLeft(x: Word, k: nat): Word
  {
    (x * Pow2(k)) % 0x1_0000_0000
  }

  function ShiftRight(x: Word, k: nat): Word
  {
    QuotientBound(x, Pow2(k));
    x / Pow2(k)
  }

  function OrWord(x: Word, y: Word): Word
  {
    Pow2Values();
    OrBound(x, y, 32);
    Or(x, y)
  }

  /** The `rot` macro. */
  function Rot(x: Word, k: nat): Word
    requires 0 < k < 32
  {
    OrWord(ShiftLeft(x, k), ShiftRight(x, 32 - k))
  }

  /** `rot` turns the word left: the low 32 - k bits move up by k and the top k bits come in below. */
  lemma RotIsRotation(x: Word, k: nat)
    requires 0 < k < 32
    ensures Rot(x, k) == (x % Pow2(32 - k)) * Pow2(k) + x / Pow2(32 - k)
  {
    WordSplit(k);
    RotParts(x, k, Pow2(k), Pow2(32 - k));
  }

  lemma WordSplit(k: nat)
    requires k <= 32
    ensures Pow2(k) * Pow2(32 - k) == 0x1_0000_0000
  {
    Pow2Values();
    Pow2Add(k, 32 - k);
  }

  lemma RotParts(x: Word, k: nat, p: nat, q: nat)
    requires 0 < k < 32 && p == Pow2(k) && q == Pow2(32 - k) && p * q == 0x1_0000_0000
    ensures Rot(x, k) == (x % q) * p + x / q
  {
    QuotientBound(x, q);
    RotPieces(x, k, p, q, x / q, x % q);
  }

  lemma RotPieces(x: Word, k: nat, p: nat, q: nat, h: nat, l: nat)
    requires 0 < k < 32 && p == Pow2(k) && q == Pow2(32 - k) && p * q == 0x1_0000_0000
    requires h == x / q && l == x % q
    ensures Rot(x, k) == l * p + h
  {
    TurnedParts(x, p, q, h, l);
    JoinedParts(l * p, h, l, k);
  }

  lemma JoinedParts(high: nat, low: nat, l: nat, k: nat)
    requires high == l * Pow2(k) && low < Pow2(k)
    ensures Or(high, low) == high + low
  {
    OrDisjoint(l, low, k);
  }

  lemma TurnedParts(x: Word, p: nat, q: nat, h: nat, l: nat)
    requires p > 0 && q > 0 && p * q == 0x1_0000_0000 && h == x / q && l == x % q
    ensures h < p && (x * p) % 0x1_0000_0000 == l * p
  {
    BelowProduct(x, p, q, h, l);
    Regrouped(x, p, q, h, l);
    RemainderUnique(x * p, 0x1_0000_0000, h, l * p);
  }

  lemma BelowProduct(x: nat, p: nat, q: nat, h: nat, l: nat)
    requires x == q * h + l && x < p * q && l < q
    ensures h < p && l * p < p * q
  {
    if h >= p {
      MulMonotone(q, p, h);
      assert false;
    }
    MulMonotone(p, l + 1, q);
  }

  lemma MulMonotone(d: nat, m: nat, n: nat)
    requires m <= n
    ensures d * m <= d * n
  {
    assert d * n == d * m + d * (n - m);
  }

  lemma Regrouped(x: nat, p: nat, q: nat, h: nat, l: nat)
    requires x == q * h + l
    ensures x * p == (p * q) * h + l * p
  {
    assert (q * h) * p == (p * q) * h;
  }

  /** Subtraction undoes addition and the other way round; exclusive or undoes itself. */
  lemma WordLaws(x: Word, y: Word)
    ensures Add(Sub(x, y), y) == x
    ensures Sub(Add(x, y), y) == x
    ensures XorWord(XorWord(x, y), y) == x
  {
    XorTwice(x, y);
  }

  datatype State = State(a: Word, b: Word, c: Word)

  /** One line `a -= c; a ^= rot(c, k); c += b;` of `mix`. The result is turned so that the next
      line is the same step again: the new (a, b, c) are the old (b, c, a). */
  function Stir(s: State, k: nat): State
    requires 0 < k < 32
  {
    State(s.b, Add(s.c, s.b), XorWord(Sub(s.a, s.c), Rot(s.c, k)))
  }

  function Unstir(t: State, k: nat): State
    requires 0 < k < 32
  {
    var c := Sub(t.b, t.a);
    State(Add(XorWord(t.c, Rot(c, k)), c), t.a, c)
  }

  function Mix(s: State): State
  {
    Stir(Stir(Stir(Stir(Stir(Stir(s, 4), 6), 8), 16), 19), 4)
  }

  function Unmix(t: State): State
  {
    Unstir(Unstir(Unstir(Unstir(Unstir(Unstir(t, 4), 19), 16), 8), 6), 4)
  }

  /** One line `c ^= b; c -= rot(b, k);` of `final`, turned like `Stir`. */
  function Fold(s: State, k: nat): State
    requires 0 < k < 32
  {
    State(s.b, Sub(XorWord(s.c, s.b), Rot(s.b, k)), s.a)
  }

  function Unfold(t: State, k: nat): State
    requires 0 < k < 32
  {
    State(t.c, t.a, XorWord(Add(t.b, Rot(t.a, k)), t.a))
  }

  /** `final` has seven lines, so the roles end up turned once and are turned back. */
  function Final(s: State): State
  {
    var t := Fold(Fold(Fold(Fold(Fold(Fold(Fold(s, 14), 11), 25), 16), 4), 14), 24);
    State(t.c, t.a, t.b)
  }

  function Unfinal(t: State): State
  {
    Unfold(Unfold(Unfold(Unfold(Unfold(Unfold(Unfold(State(t.b, t.c, t.a),
                                                     24), 14), 4), 16), 25), 11), 14)
  }

  /** The `mix` macro, as written. */
  method MixInPlace(a0: Word, b0: Word, c0: Word) returns (a: Word, b: Word, c: Word)
    ensures State(a, b, c) == Mix(State(a0, b0, c0))
  {
    a, b, c := a0, b0, c0;
    a := Sub(a, c);  a := XorWord(a, Rot(c, 4));   c := Add(c, b);
    b := Sub(b, a);  b := XorWord(b, Rot(a, 6));   a := Add(a, c);
    c := Sub(c, b);  c := XorWord(c, Rot(b, 8));   b := Add(b, a);
    a := Sub(a, c);  a := XorWord(a, Rot(c, 16));  c := Add(c, b);
    b := Sub(b, a);  b := XorWord(b, Rot(a, 19));  a := Add(a, c);
    c := Sub(c, b);  c := XorWord(c, Rot(b, 4));   b := Add(b, a);
  }

  /** The `final` macro, as written. */
  method FinalInPlace(a0: Word, b0: Word, c0: Word) returns (a: Word, b: Word, c: Word)
    ensures State(a, b, c) == Final(State(a0, b0, c0))
  {
    a, b, c := a0, b0, c0;
    c := XorWord(c, b);  c := Sub(c, Rot(b, 14));
    a := XorWord(a, c);  a := Sub(a, Rot(c, 11));
    b := XorWord(b, a);  b := Sub(b, Rot(a, 25));
    c := XorWord(c, b);  c := Sub(c, Rot(b, 16));
    a := XorWord(a, c);  a := Sub(a, Rot(c, 4));
    b := XorWord(b, a);  b := Sub(b, Rot(a, 14));
    c := XorWord(c, b);  c := Sub(c, Rot(b, 24));
  }

  lemma UnstirStir(s: State, k: nat)
    requires 0 < k < 32
    ensures Unstir(Stir(s, k), k) == s
  {
    WordLaws(s.c, s.b);
    WordLaws(s.a, s.c);
    WordLaws(Sub(s.a, s.c), Rot(s.c, k));
  }

  lemma StirUnstir(t: State, k: nat)
    requires 0 < k < 32
    ensures Stir(Unstir(t, k), k) == t
  {
    var c := Sub(t.b, t.a);
    WordLaws(t.b, t.a);
    WordLaws(XorWord(t.c, Rot(c, k)), c);
    WordLaws(t.c, Rot(c, k));
  }

  lemma UnfoldFold(s: State, k: nat)
    requires 0 < k < 32
    ensures Unfold(Fold(s, k), k) == s
  {
    WordLaws(s.c, s.b);
    WordLaws(XorWord(s.c, s.b), Rot(s.b, k));
  }

  lemma FoldUnfold(t: State, k: nat)
    requires 0 < k < 32
    ensures Fold(Unfold(t, k), k) == t
  {
    WordLaws(Add(t.b, Rot(t.a, k)), t.a);
    WordLaws(t.b, Rot(t.a, k));
  }

  /** `mix` is reversible: nothing in (a, b, c) is lost, and every state is reached. */
  lemma MixIsBijection(s: State)
    ensures Unmix(Mix(s)) == s
    ensures Mix(Unmix(s)) == s
  {
    var s1 := Stir(s, 4);
    var s2 := Stir(s1, 6);
    var s3 := Stir(s2, 8);
    var s4 := Stir(s3, 16);
    var s5 := Stir(s4, 19);
    UnstirStir(s5, 4); UnstirStir(s4, 19); UnstirStir(s3, 16);
    UnstirStir(s2, 8); UnstirStir(s1, 6); UnstirStir(s, 4);
    var t1 := Unstir(s, 4);
    var t2 := Unstir(t1, 19);
    var t3 := Unstir(t2, 16);
    var t4 := Unstir(t3, 8);
    var t5 := Unstir(t4, 6);
    StirUnstir(t5, 4); StirUnstir(t4, 6); StirUnstir(t3, 8);
    StirUnstir(t2, 16); StirUnstir(t1, 19); StirUnstir(s, 4);
  }

  /** `final` loses nothing either, as long as all three words are kept. */
  lemma FinalIsBijection(s: State)
    ensures Unfinal(Final(s)) == s
    ensures Final(Unfinal(s)) == s
  {
    var s1 := Fold(s, 14);
    var s2 := Fold(s1, 11);
    var s3 := Fold(s2, 25);
    var s4 := Fold(s3, 16);
    var s5 := Fold(s4, 4);
    var s6 := Fold(s5, 14);
    UnfoldFold(s6, 24); UnfoldFold(s5, 14); UnfoldFold(s4, 4); UnfoldFold(s3, 16);
    UnfoldFold(s2, 25); UnfoldFold(s1, 11); UnfoldFold(s, 14);
    var t0 := State(s.b, s.c, s.a);
    var t1 := Unfold(t0, 24);
    var t2 := Unfold(t1, 14);
    var t3 := Unfold(t2, 4);
    var t4 := Unfold(t3, 16);
    var t5 := Unfold(t4, 25);
    var t6 := Unfold(t5, 11);
    FoldUnfold(t6, 14); FoldUnfold(t5, 11); FoldUnfold(t4, 25); FoldUnfold(t3, 16);
    FoldUnfold(t2, 4); FoldUnfold(t1, 14); FoldUnfold(t0, 24);
  }
}
