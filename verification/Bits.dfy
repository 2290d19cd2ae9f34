/** Bits of natural numbers, the C operators on them, and bit strings. */
module Bits {

  type byte = b: int | 0 <= b < 256

  /** Earlier lines of text, the nearest first. */
  type Lines = seq<seq<byte>>

  /** A string of bits, most significant first. */
  type Word = seq<bool>

  function Pow2(n: nat): (p: nat)
    ensures p >= 1
  {
    if n == 0 then 1 else 2 * Pow2(n - 1)
  }

  /** The bit of `x` that has weight 2^w. */
  predicate Bit(x: nat, w: nat)
    decreases w
  {
    if w == 0 then x % 2 == 1 else Bit(x / 2, w - 1)
  }

  /** `a | b` */
  function Or(a: nat, b: nat): nat {
    if a == 0 && b == 0 then 0
    else 2 * Or(a / 2, b / 2) + (if a % 2 == 1 || b % 2 == 1 then 1 else 0)
  }

  /** `a & b` */
  function And(a: nat, b: nat): nat {
    if a == 0 || b == 0 then 0
    else 2 * And(a / 2, b / 2) + (if a % 2 == 1 && b % 2 == 1 then 1 else 0)
  }

  /** `x << n` */
  function Shl(x: nat, n: nat): nat
    decreases n
  {
    if n == 0 then x else Shl(2 * x, n - 1)
  }

  /** `x >> n` */
  function Shr(x: nat, n: nat): nat
    decreases n
  {
    if n == 0 then x else Shr(x / 2, n - 1)
  }

  lemma {:induction false} ZeroBits(w: nat)
    ensures !Bit(0, w)
  {
    if w > 0 { ZeroBits(w - 1); }
  }

  lemma Half(q: nat, r: nat)
    requires r < 2
    ensures (2 * q + r) / 2 == q && (2 * q + r) % 2 == r
  {
  }

  lemma OrHalf(a: nat, b: nat)
    ensures Or(a, b) / 2 == Or(a / 2, b / 2)
    ensures Or(a, b) % 2 == 1 <==> a % 2 == 1 || b % 2 == 1
  {
  }

  lemma {:induction false} OrBit(a: nat, b: nat, w: nat)
    ensures Bit(Or(a, b), w) <==> Bit(a, w) || Bit(b, w)
    decreases w
  {
    hide Or;
    OrHalf(a, b);
    if w > 0 {
      OrBit(a / 2, b / 2, w - 1);
    }
  }

  lemma AndHalf(a: nat, b: nat)
    ensures And(a, b) / 2 == And(a / 2, b / 2)
    ensures And(a, b) % 2 == 1 <==> a % 2 == 1 && b % 2 == 1
  {
  }

  lemma {:induction false} AndBit(a: nat, b: nat, w: nat)
    ensures Bit(And(a, b), w) <==> Bit(a, w) && Bit(b, w)
    decreases w
  {
    hide And;
    AndHalf(a, b);
    if w > 0 {
      AndBit(a / 2, b / 2, w - 1);
    }
  }

  lemma {:induction false} ShlBit(x: nat, n: nat, w: nat)
    ensures Bit(Shl(x, n), w) <==> w >= n && Bit(x, w - n)
    decreases n
  {
    if n > 0 {
      ShlBit(2 * x, n - 1, w);
      if w >= n { assert Bit(2 * x, w - n + 1) == Bit(2 * x / 2, w - n); }
    }
  }

  lemma {:induction false} ShrBit(x: nat, n: nat, w: nat)
    ensures Bit(Shr(x, n), w) <==> Bit(x, w + n)
    decreases n
  {
    if n > 0 { ShrBit(x / 2, n - 1, w); }
  }

  lemma {:induction false} OrBound(a: nat, b: nat, n: nat)
    requires a < Pow2(n) && b < Pow2(n)
    ensures Or(a, b) < Pow2(n)
    decreases n
  {
    if n > 0 && !(a == 0 && b == 0) { OrBound(a / 2, b / 2, n - 1); }
  }

  lemma {:induction false} AndBound(a: nat, b: nat)
    ensures And(a, b) <= b
    decreases b
  {
    if a != 0 && b != 0 { AndBound(a / 2, b / 2); }
  }

  lemma {:induction false} ShrBound(x: nat, n: nat, m: nat)
    requires x < Pow2(n + m)
    ensures Shr(x, n) < Pow2(m)
    decreases n
  {
    if n > 0 { ShrBound(x / 2, n - 1, m); }
  }

  lemma {:induction false} OnesBits(n: nat, w: nat)
    ensures Bit(Pow2(n) - 1, w) <==> w < n
    decreases w
  {
    if n == 0 {
      ZeroBits(w);
    } else if w > 0 {
      assert (Pow2(n) - 1) / 2 == Pow2(n - 1) - 1;
      OnesBits(n - 1, w - 1);
    }
  }

  /** `x & (1 << w)` is nonzero exactly when the bit is set. */
  lemma {:induction false} AndSingle(x: nat, w: nat)
    ensures And(x, Pow2(w)) != 0 <==> Bit(x, w)
    decreases w
  {
    if x == 0 {
      ZeroBits(w);
    } else if w > 0 {
      AndSingle(x / 2, w - 1);
    } else {
      assert And(x, 1) == 2 * And(x / 2, 0) + (if x % 2 == 1 then 1 else 0);
    }
  }

  /** An OR of two numbers that have no common bit is their sum. */
  lemma {:induction false} OrDisjoint(a: nat, b: nat, n: nat)
    requires a < Pow2(n)
    ensures Or(a, b * Pow2(n)) == a + b * Pow2(n)
    decreases n
  {
    if n == 0 {
      OrZero(b);
    } else {
      hide Or;
      OrDisjoint(a / 2, b, n - 1);
      OrEven(a, b * Pow2(n - 1));
      TwiceProduct(b, Pow2(n - 1));
    }
  }

  lemma TwiceProduct(b: nat, p: nat)
    ensures b * (2 * p) == 2 * (b * p)
  {
  }

  lemma OrEven(a: nat, c: nat)
    ensures Or(a, 2 * c) == 2 * Or(a / 2, c) + a % 2
  {
    Half(c, 0);
  }

  lemma {:induction false} OrZero(b: nat)
    ensures Or(0, b) == b
  {
    if b > 0 { OrZero(b / 2); }
  }

  // ----- numbers as bit strings -----

  /** The `n` low bits of `val`, most significant first. */
  function Bin(val: nat, n: nat): (r: Word)
    ensures |r| == n
    decreases n
  {
    if n == 0 then [] else Bin(val / 2, n - 1) + [val % 2 == 1]
  }

  /** The number that a bit string spells. */
  function FromBin(w: Word): nat {
    if w == [] then 0 else 2 * FromBin(w[..|w| - 1]) + (if w[|w| - 1] then 1 else 0)
  }

  lemma {:induction false} FromBinBin(val: nat, n: nat)
    requires val < Pow2(n)
    ensures FromBin(Bin(val, n)) == val
    decreases n
  {
    if n > 0 {
      FromBinBin(val / 2, n - 1);
      assert Bin(val, n)[..n - 1] == Bin(val / 2, n - 1);
    }
  }

  lemma {:induction false} BinAt(val: nat, n: nat, i: nat)
    requires i < n
    ensures Bin(val, n)[i] == Bit(val, n - 1 - i)
    decreases n
  {
    if i < n - 1 { BinAt(val / 2, n - 1, i); }
  }

  lemma ShlBin(x: nat, k: nat, n: nat, i: nat, w: nat)
    requires i < n && w == n - 1 - i + k
    ensures Bit(Shl(x, k), w) == Bin(x, n)[i]
  {
    ShlBit(x, k, w);
    BinAt(x, n, i);
  }

  /** Concatenating bit strings is shifting and adding. */
  lemma {:induction false} BinConcat(a: nat, m: nat, b: nat, n: nat)
    requires b < Pow2(n)
    ensures Bin(a * Pow2(n) + b, m + n) == Bin(a, m) + Bin(b, n)
    decreases n
  {
    if n > 0 {
      var c := a * Pow2(n - 1);
      assert a * Pow2(n) == 2 * c;
      assert (2 * c + b) / 2 == c + b / 2 && (2 * c + b) % 2 == b % 2;
      BinConcat(a, m, b / 2, n - 1);
      assert Bin(a, m) + Bin(b, n) == Bin(a, m) + Bin(b / 2, n - 1) + [b % 2 == 1];
    } else {
      assert Bin(a, m) + Bin(b, 0) == Bin(a, m);
    }
  }

  // ----- bit strings in byte buffers -----

  /** Bit `k` of a byte, counted from the top. */
  predicate ByteBit(b: byte, k: nat)
    requires k < 8
  {
    Bit(b, 7 - k)
  }

  /** Bit `p` of a buffer, counted from the top bit of its first byte. */
  predicate BitAt(buf: seq<byte>, p: nat)
    requires p < 8 * |buf|
  {
    ByteBit(buf[p / 8], p % 8)
  }

  function BitsOf(buf: seq<byte>): (r: Word)
    ensures |r| == 8 * |buf|
    ensures forall p {:trigger r[p]} | 0 <= p < |r| :: r[p] == BitAt(buf, p)
  {
    seq(8 * |buf|, p requires 0 <= p < 8 * |buf| => BitAt(buf, p))
  }

  /** `w` is what `bits` says from position `pos` on. */
  predicate StartsAt(bits: Word, pos: nat, w: Word) {
    pos + |w| <= |bits| && bits[pos..pos + |w|] == w
  }

  lemma ConcatAssoc(u: Word, v: Word, w: Word)
    ensures u + v + w == u + (v + w)
  {
  }

  lemma ConcatAssoc4(u: Word, v: Word, w: Word, x: Word)
    ensures u + v + w + x == u + (v + (w + x))
  {
  }

  lemma PrefixStarts(bits: Word, u: Word, w: Word)
    requires u + w <= bits
    ensures u <= bits && StartsAt(bits, |u|, w)
  {
    assert (u + w)[..|u|] == u && (u + w)[|u|..] == w;
    assert bits[..|u|] == bits[..|u + w|][..|u|];
    assert bits[|u|..|u| + |w|] == bits[..|u + w|][|u|..];
  }

  lemma StartsAtSplit(bits: Word, pos: nat, u: Word, v: Word)
    requires StartsAt(bits, pos, u + v)
    ensures StartsAt(bits, pos, u) && StartsAt(bits, pos + |u|, v)
  {
    assert bits[pos..pos + |u|] == (u + v)[..|u|];
    assert bits[pos + |u|..pos + |u| + |v|] == (u + v)[|u|..];
    assert (u + v)[..|u|] == u && (u + v)[|u|..] == v;
  }
}
