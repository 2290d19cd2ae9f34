/** The bit writer: `append_bits` on a byte buffer refines appending to a bit string. */
module BitBuffer {
  import opened Bits

  /** Bit `i` of a 16-bit code, counted from the top. */
  predicate CodeBit(code: nat, i: nat)
    requires i < 16
  {
    Bit(code, 15 - i)
  }

  /** The top `n` bits of a 16-bit code. Bits above the sixteenth are never looked at. */
  function CodeBits(code: nat, n: nat): (r: Word)
    requires n <= 16
    ensures |r| == n
  {
    seq(n, i requires 0 <= i < n => CodeBit(code, i))
  }

  /** `code >> 9 == 0x1C`: the code opens with the seven bits that switch to set 2. */
  predicate HasSet2Prefix(code: nat) {
    Shr(code, 9) == 0x1C
  }

  /** The bits a call of `append_bits` adds: in set 2 the prefix that switches to set 2 is dropped. */
  function Emitted(code: nat, clen: nat, digits: bool): (r: Word)
    requires clen <= 16
  {
    if !digits || !HasSet2Prefix(code) then CodeBits(code, clen)
    else if clen < 7 then []
    else CodeBits(code, clen)[7..]
  }

  function RoundUp8(p: nat): nat {
    (p + 7) / 8 * 8
  }

  /** The buffer spells `w`, and the unused tail of its last byte is zero. */
  ghost predicate Holds(buf: seq<byte>, w: Word) {
    && |w| <= 8 * |buf|
    && (forall p | 0 <= p < |w| :: BitAt(buf, p) == w[p])
    && (forall p | |w| <= p < RoundUp8(|w|) :: !BitAt(buf, p))
  }

  /** The buffer spells `w`, and what is left over in its last byte only has ones where `next` has
      ones, so that writing `next` over it with OR leaves `next`. */
  ghost predicate Ready(buf: seq<byte>, w: Word, next: Word) {
    && |w| <= 8 * |buf|
    && (forall p | 0 <= p < |w| :: BitAt(buf, p) == w[p])
    && (forall p | |w| <= p < RoundUp8(|w|) && BitAt(buf, p) :: p - |w| < |next| && next[p - |w|])
  }

  lemma HoldsReady(buf: seq<byte>, w: Word, next: Word)
    requires Holds(buf, w)
    ensures Ready(buf, w, next)
  {
  }

  lemma ReadyHolds(buf: seq<byte>, w: Word)
    requires Ready(buf, w, [])
    ensures Holds(buf, w)
  {
  }

  /** `mask[n - 1]`: the top `n` of 16 bits. */
  function Mask(n: nat): nat
    requires 1 <= n <= 8
  {
    match n
    case 1 => 0x8000
    case 2 => 0xC000
    case 3 => 0xE000
    case 4 => 0xF000
    case 5 => 0xF800
    case 6 => 0xFC00
    case 7 => 0xFE00
    case _ => 0xFF00
  }

  lemma MaskBits(n: nat, w: nat)
    requires 1 <= n <= 8
    ensures Bit(Mask(n), w) <==> 16 - n <= w < 16
  {
    assert Shl(1, 15) == 0x8000 && Shl(3, 14) == 0xC000 && Shl(7, 13) == 0xE000 && Shl(15, 12) == 0xF000;
    assert Shl(31, 11) == 0xF800 && Shl(63, 10) == 0xFC00 && Shl(127, 9) == 0xFE00 && Shl(255, 8) == 0xFF00;
    assert Pow2(1) == 2 && Pow2(2) == 4 && Pow2(3) == 8 && Pow2(4) == 16;
    assert Pow2(5) == 32 && Pow2(6) == 64 && Pow2(7) == 128 && Pow2(8) == 256;
    assert Mask(n) == Shl(Pow2(n) - 1, 16 - n);
    ShlBit(Pow2(n) - 1, 16 - n, w);
    if w >= 16 - n { OnesBits(n, w - (16 - n)); }
  }

  /** The byte that one round of the loop stores or ORs in: `((code & mask[n - 1]) >> 8) >> cur`. */
  function Slice(code: nat, n: nat, cur: nat): (r: byte)
    requires 1 <= n <= 8
    ensures forall k | 0 <= k < 8 :: ByteBit(r, k) <==> cur <= k < cur + n && CodeBit(code, k - cur)
  {
    SliceFits(code, n, cur);
    var r: byte := Shr(Shr(And(code, Mask(n)), 8), cur);
    SliceBits(code, n, cur, r);
    r
  }

  lemma SliceFits(code: nat, n: nat, cur: nat)
    requires 1 <= n <= 8
    ensures Shr(Shr(And(code, Mask(n)), 8), cur) < 256
  {
    var masked := And(code, Mask(n));
    AndBound(code, Mask(n));
    assert Pow2(16) == 65536 && Pow2(8) == 256;
    ShrBound(masked, 8, 8);
    ShrLe(Shr(masked, 8), cur);
  }

  lemma SliceBits(code: nat, n: nat, cur: nat, r: byte)
    requires 1 <= n <= 8 && r == Shr(Shr(And(code, Mask(n)), 8), cur)
    ensures forall k | 0 <= k < 8 :: ByteBit(r, k) <==> cur <= k < cur + n && CodeBit(code, k - cur)
  {
    hide Mask, And, Shr, Bit;
    var masked := And(code, Mask(n));
    forall k | 0 <= k < 8
      ensures ByteBit(r, k) <==> cur <= k < cur + n && CodeBit(code, k - cur)
    {
      ShrBit(Shr(masked, 8), cur, 7 - k);
      ShrBit(masked, 8, 7 - k + cur);
      AndBit(code, Mask(n), 15 - k + cur);
      MaskBits(n, 15 - k + cur);
    }
  }

  lemma {:induction false} ShrLe(x: nat, n: nat)
    ensures Shr(x, n) <= x
    decreases n
  {
    if n > 0 { ShrLe(x / 2, n - 1); }
  }

  /** `old | new` on bytes. */
  function OrByte(a: byte, b: byte): (r: byte)
    ensures forall k | 0 <= k < 8 :: ByteBit(r, k) <==> ByteBit(a, k) || ByteBit(b, k)
  {
    assert Or(a, b) < 256 by {
      assert Pow2(8) == 256;
      OrBound(a, b, 8);
    }
    var r: byte := Or(a, b);
    assert forall k | 0 <= k < 8 :: ByteBit(r, k) <==> ByteBit(a, k) || ByteBit(b, k) by {
      forall k | 0 <= k < 8
        ensures ByteBit(r, k) <==> ByteBit(a, k) || ByteBit(b, k)
      {
        OrBit(a, b, 7 - k);
      }
    }
    r
  }

  /** The buffer after one round: the byte is stored if it is a new one and ORed in otherwise. */
  function Stored(buf: seq<byte>, i: nat, cur: nat, a: byte): (r: seq<byte>)
    requires i < |buf|
  {
    buf[i := if cur == 0 then a else OrByte(buf[i], a)]
  }

  lemma StoredBit(buf: seq<byte>, i: nat, cur: nat, a: byte, p: nat)
    requires i < |buf| && p < 8 * |buf|
    ensures p / 8 != i ==> BitAt(Stored(buf, i, cur, a), p) == BitAt(buf, p)
    ensures p / 8 == i ==> BitAt(Stored(buf, i, cur, a), p) == ((cur != 0 && BitAt(buf, p)) || ByteBit(a, p % 8))
  {
  }

  /** The byte `a` carries the next `n` bits from bit `cur` on, and nothing else. */
  ghost predicate Carries(a: byte, cur: nat, n: nat, next: Word)
    requires n <= |next|
  {
    forall k | 0 <= k < 8 :: ByteBit(a, k) <==> cur <= k < cur + n && next[k - cur]
  }

  lemma StoredPrefix(buf: seq<byte>, w: Word, next: Word, a: byte, n: nat, p: nat)
    requires Ready(buf, w, next) && n <= |next| && |w| + |next| <= 8 * |buf| && 0 < |next|
    requires Carries(a, |w| % 8, n, next)
    requires p < |w| + n && p < |w| / 8 * 8 + 8
    ensures BitAt(Stored(buf, |w| / 8, |w| % 8, a), p) == (w + next)[p]
  {
    var i, cur := |w| / 8, |w| % 8;
    StoredBit(buf, i, cur, a, p);
    if p < |w| {
      assert BitAt(buf, p) == w[p];
      assert p / 8 == i ==> p % 8 < cur;
    } else {
      assert p / 8 == i && p % 8 - cur == p - |w|;
      assert BitAt(buf, p) && cur != 0 ==> next[p - |w|];
    }
  }

  lemma StoredTail(buf: seq<byte>, w: Word, next: Word, a: byte, p: nat)
    requires Ready(buf, w, next) && 0 < |next| && |w| + |next| <= 8 * |buf|
    requires Carries(a, |w| % 8, |next|, next)
    requires |w| + |next| <= p < |w| / 8 * 8 + 8
    ensures !BitAt(Stored(buf, |w| / 8, |w| % 8, a), p)
  {
    var i, cur := |w| / 8, |w| % 8;
    assert p / 8 == i && p % 8 >= cur + |next|;
    StoredBit(buf, i, cur, a, p);
  }

  lemma RoundUpInByte(l: nat, m: nat)
    requires 0 < m && l % 8 + m <= 8
    ensures RoundUp8(l + m) == l / 8 * 8 + 8
  {
  }

  /** One round of the loop moves up to a byte's worth of bits from the pending code to the buffer. */
  lemma StoreByte(buf: seq<byte>, w: Word, next: Word, a: byte, n: nat, cur: nat, m: nat)
    requires Ready(buf, w, next) && 0 < |next| && |w| + |next| <= 8 * |buf|
    requires n == if |next| > 8 then 8 else |next|
    requires cur == |w| % 8
    requires m == if n + cur > 8 then 8 - cur else n
    requires Carries(a, cur, n, next)
    ensures Ready(Stored(buf, |w| / 8, cur, a), w + next[..m], next[m..])
  {
    var buf' := Stored(buf, |w| / 8, cur, a);
    assert |w| / 8 * 8 + cur == |w|;
    RoundUpInByte(|w|, m);
    hide RoundUp8, Stored, BitAt, Carries;
    forall p | 0 <= p < |w| + m
      ensures BitAt(buf', p) == (w + next[..m])[p]
    {
      StoredPrefix(buf, w, next, a, n, p);
    }
    forall p | |w| + m <= p < RoundUp8(|w| + m)
      ensures !BitAt(buf', p)
    {
      StoredTail(buf, w, next, a, p);
    }
  }

  /** `next` is what is left of a code after some shifting: its top `n` bits. */
  ghost predicate Pending(code: nat, n: int, next: Word) {
    && |next| == (if n < 0 then 0 else n) && n <= 16
    && forall i | 0 <= i < n :: CodeBit(code, i) == next[i]
  }

  /** `code <<= m` drops the first `m` bits of what is pending. */
  lemma ShlPending(code: nat, n: int, next: Word, m: nat)
    requires Pending(code, n, next) && m <= |next|
    ensures Pending(Shl(code, m), n - m, next[m..])
  {
    forall i | 0 <= i < n - m
      ensures CodeBit(Shl(code, m), i) == next[m..][i]
    {
      ShlBit(code, m, 15 - i);
      assert CodeBit(code, m + i) == next[m + i];
    }
  }

  lemma PlainPending(code: nat, clen: nat, digits: bool)
    requires clen <= 16 && !(digits && HasSet2Prefix(code))
    ensures Pending(code, clen, Emitted(code, clen, digits))
  {
  }

  /** Dropping the prefix that switches to set 2. */
  lemma EmittedPending(code: nat, clen: nat)
    requires clen <= 16 && HasSet2Prefix(code)
    ensures Pending(Shl(code, 7), clen - 7, Emitted(code, clen, true))
  {
    if clen >= 7 {
      ShlPending(code, clen, CodeBits(code, clen), 7);
    }
  }

  /** Two buffers agree from byte `i` on. */
  ghost predicate SameFrom(a: seq<byte>, b: seq<byte>, i: nat) {
    |a| == |b| && forall k | i <= k < |a| :: a[k] == b[k]
  }

  lemma SameFromStored(a: seq<byte>, b: seq<byte>, q: nat, p: nat, cur: nat, x: byte)
    requires p < q <= 8 * |b| && SameFrom(a, b, RoundUp8(q) / 8)
    ensures SameFrom(a, Stored(b, p / 8, cur, x), RoundUp8(q) / 8)
  {
    assert p / 8 < RoundUp8(q) / 8;
  }

  /** append_bits: adds the top `clen` bits of `code` to the `ol` bits already in `out`. */
  method AppendBits(out: array<byte>, ol: nat, code: nat, clen: nat, digits: bool, ghost w: Word)
    returns (ol': nat)
    requires clen <= 16
    requires |w| == ol && ol + |Emitted(code, clen, digits)| <= 8 * out.Length
    requires Ready(out[..], w, Emitted(code, clen, digits))
    modifies out
    ensures ol' == ol + |Emitted(code, clen, digits)|
    ensures Holds(out[..], w + Emitted(code, clen, digits))
    ensures SameFrom(old(out[..]), out[..], RoundUp8(ol') / 8)
  {
    hide Emitted, CodeBits, CodeBit, Slice, Ready, Shl, HasSet2Prefix;
    ghost var u, next := w, Emitted(code, clen, digits);
    ghost var total := w + next;
    var c, n: int := code, clen;
    if !(digits && HasSet2Prefix(code)) { PlainPending(code, clen, digits); }
    if digits {
      if HasSet2Prefix(code) {
        c := Shl(c, 7);
        n := n - 7;
        EmittedPending(code, clen);
      }
    }
    ol' := ol;
    while n > 0
      invariant u + next == total
      invariant |u| == ol' && |total| <= 8 * out.Length
      invariant Pending(c, n, next)
      invariant Ready(out[..], u, next)
      invariant SameFrom(old(out[..]), out[..], RoundUp8(|total|) / 8)
    {
      ghost var buf := out[..];
      var curBit := ol' % 8;
      var blen := if n > 8 then 8 else n;
      var aByte := Slice(c, blen, curBit);
      ghost var blen0 := blen;
      if blen + curBit > 8 {
        blen := 8 - curBit;
      }
      assert Carries(aByte, curBit, blen0, next);
      StoreByte(buf, u, next, aByte, blen0, curBit, blen);
      if curBit == 0 {
        out[ol' / 8] := aByte;
      } else {
        out[ol' / 8] := OrByte(out[ol' / 8], aByte);
      }
      assert out[..] == Stored(buf, ol' / 8, curBit, aByte);
      SameFromStored(old(out[..]), buf, |total|, ol', curBit, aByte);
      ShlPending(c, n, next, blen);
      c := Shl(c, blen);
      ol' := ol' + blen;
      n := n - blen;
      u, next := u + next[..blen], next[blen..];
    }
    assert u == total;
    ReadyHolds(out[..], total);
  }
}
