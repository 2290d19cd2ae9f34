/** The varint that carries the length of a compressed text: unsigned LEB128, section 7.6 of DWARF 5. */
module Varint {
  import opened Bits

  const TWO_64: nat := 0x1_0000_0000_0000_0000

  /** The encoding of a number: seven bits a byte, lowest first, the top bit on all bytes but the last. */
  function Leb(v: nat): (r: seq<byte>)
    ensures |r| >= 1
  {
    if v < 128 then [v] else [v % 128 + 128] + Leb(v / 128)
  }

  /** The number that a string of bytes spells, seven bits a byte. */
  function LebValue(d: seq<byte>): nat {
    if d == [] then 0 else d[0] % 128 + 128 * LebValue(d[1..])
  }

  /** How many bytes the number at the start of `d` takes, if it ends within `d`. */
  function LebSize(d: seq<byte>): (r: nat)
    ensures r <= |d| || r == |d| + 1
  {
    if d == [] then 1 else if d[0] < 128 then 1 else 1 + LebSize(d[1..])
  }

  /** The number ends at the first byte without a top bit. */
  lemma {:induction false} SizeRule(d: seq<byte>, n: nat)
    requires 1 <= n <= |d|
    ensures LebSize(d) == n <==> d[n - 1] < 128 && forall i | 0 <= i < n - 1 :: d[i] >= 128
    decreases n
  {
    if n > 1 {
      SizeRule(d[1..], n - 1);
      assert forall i | 0 <= i < n - 2 :: d[1..][i] == d[i + 1];
      assert forall i | 1 <= i < n - 1 :: d[i] == d[1..][i - 1];
    }
  }

  lemma {:induction false} LebBound(v: nat, k: nat)
    requires k >= 1 && v < Pow2(7 * k)
    ensures |Leb(v)| <= k
    decreases k
  {
    if v >= 128 {
      assert Pow2(7) == 128;
      if k > 1 {
        Pow2Seven(7 * (k - 1));
        LebBound(v / 128, k - 1);
      }
    }
  }

  lemma Pow2Seven(n: nat)
    ensures Pow2(n + 7) == 128 * Pow2(n)
  {
    assert Pow2(n + 7) == 2 * Pow2(n + 6) && Pow2(n + 6) == 2 * Pow2(n + 5) && Pow2(n + 5) == 2 * Pow2(n + 4);
    assert Pow2(n + 4) == 2 * Pow2(n + 3) && Pow2(n + 3) == 2 * Pow2(n + 2) && Pow2(n + 2) == 2 * Pow2(n + 1);
  }

  lemma LebTenBytes(v: nat)
    requires v < TWO_64
    ensures |Leb(v)| <= 10
  {
    BigPowers();
    LebBound(v, 10);
  }

  lemma Pow2Next(n: nat)
    ensures Pow2(0) == 1 && Pow2(n + 1) == 2 * Pow2(n)
  {
  }

  lemma BigPowers()
    ensures Pow2(63) == 0x8000_0000_0000_0000 && Pow2(64) == TWO_64 && Pow2(70) == 64 * TWO_64
  {
    hide Pow2;
    Pow2Next(63);
    Pow2Seven(0);
    Pow2Seven(7);
    Pow2Seven(14);
    Pow2Seven(21);
    Pow2Seven(28);
    Pow2Seven(35);
    Pow2Seven(42);
    Pow2Seven(49);
    Pow2Seven(56);
    Pow2Seven(63);
  }

  /** Decoding inverts encoding, whatever follows the number. */
  lemma {:induction false} LebRoundTrip(v: nat, rest: seq<byte>)
    ensures LebSize(Leb(v) + rest) == |Leb(v)|
    ensures LebValue(Leb(v)) == v
    decreases v
  {
    var d := Leb(v) + rest;
    if v >= 128 {
      assert d[1..] == Leb(v / 128) + rest;
      assert Leb(v)[1..] == Leb(v / 128);
      LebRoundTrip(v / 128, rest);
    } else {
      assert d[0] == v;
      assert Leb(v)[1..] == [];
    }
  }

  /** For every 64-bit number: at most ten bytes, and whatever follows them, decoding reads exactly these
      bytes and gives the number back. */
  lemma VarintInverse(v: nat, rest: seq<byte>)
    requires v < TWO_64
    ensures |Leb(v)| <= 10 && LebSize(Leb(v) + rest) == |Leb(v)|
    ensures LebValue((Leb(v) + rest)[..|Leb(v)|]) % TWO_64 == v
  {
    LebTenBytes(v);
    LebRoundTrip(v, rest);
    assert (Leb(v) + rest)[..|Leb(v)|] == Leb(v);
  }

  /** encode_unsigned_varint */
  method EncodeUnsignedVarint(buffer: array<byte>, value: nat) returns (encoded: nat)
    requires value < TWO_64 && |Leb(value)| <= buffer.Length
    modifies buffer
    ensures encoded == |Leb(value)| && buffer[..encoded] == Leb(value)
  {
    hide Or, Pow2, Leb;
    encoded := 0;
    var v := value;
    while true
      invariant encoded + |Leb(v)| == |Leb(value)|
      invariant buffer[..encoded] + Leb(v) == Leb(value)
      decreases v
    {
      var nextByte := v % 128;
      ghost var done := buffer[..encoded];
      LebStep(v, done);
      v := v / 128;
      if v != 0 {
        TopBit(nextByte);
        nextByte := Or(nextByte, 0x80);
      }
      buffer[encoded] := nextByte;
      assert buffer[..encoded + 1] == done + [nextByte];
      encoded := encoded + 1;
      if v == 0 {
        break;
      }
    }
  }

  lemma {:induction false} LebStep(v: nat, done: seq<byte>)
    ensures v < 128 ==> v % 128 == v && v / 128 == 0 && done + Leb(v) == done + [v % 128] && |Leb(v)| == 1
    ensures v >= 128 ==> 0 < v / 128 < v && done + Leb(v) == done + [v % 128 + 128] + Leb(v / 128)
    ensures v >= 128 ==> |Leb(v)| == 1 + |Leb(v / 128)|
  {
    if v >= 128 {
      LebMore(v);
      assert done + ([v % 128 + 128] + Leb(v / 128)) == done + [v % 128 + 128] + Leb(v / 128);
    }
  }

  lemma {:induction false} LebMore(v: nat)
    requires v >= 128
    ensures Leb(v) == [v % 128 + 128] + Leb(v / 128) && 0 < v / 128 < v
  {
  }

  /** `b |= 0x80` on seven bits. */
  lemma TopBit(b: nat)
    requires b < 128
    ensures Or(b, 0x80) == b + 128
  {
    assert Pow2(7) == 128;
    OrDisjoint(b, 1, 7);
  }

  /** One byte more is worth its low seven bits, shifted by seven bits for each byte before it. */
  lemma {:induction false} LebValueSnoc(d: seq<byte>, b: byte)
    ensures LebValue(d + [b]) == LebValue(d) + b % 128 * Pow2(7 * |d|)
    ensures LebValue(d) < Pow2(7 * |d|)
  {
    if d == [] {
      assert (d + [b])[1..] == [];
    } else {
      hide Pow2;
      var n := 7 * |d[1..]|;
      assert (d + [b])[1..] == d[1..] + [b];
      LebValueSnoc(d[1..], b);
      Pow2Seven(n);
      SnocValue(d[0] % 128, LebValue(d[1..]), b % 128, Pow2(n));
      assert n + 7 == 7 * |d|;
    }
  }

  lemma SnocValue(x: nat, v: nat, y: nat, p: nat)
    requires x < 128 && v < p
    ensures x + 128 * (v + y * p) == x + 128 * v + y * (128 * p)
    ensures x + 128 * v < 128 * p
  {
  }

  /** `value |= (uint64_t) x << shift`, in 64 bits, above the bits of `value`. */
  lemma OrShifted(value: nat, x: nat, shift: nat)
    requires value < Pow2(shift) && shift <= 63 && x < 128
    ensures Or(value, x * Pow2(shift) % TWO_64) == (value + x * Pow2(shift)) % TWO_64
  {
    var p, q := Pow2(shift), Pow2(64 - shift);
    PowSplit(shift);
    ShiftTruncates(x, p, q);
    OrDisjoint(value, x % q, shift);
    SumBelow(value, x % q, p, q);
    SumTruncates(value, x, p, q);
  }

  lemma {:induction false} PowSplit(shift: nat)
    requires shift <= 64
    ensures Pow2(shift) * Pow2(64 - shift) == TWO_64
    decreases shift
  {
    if shift == 0 {
      BigPowers();
    } else {
      PowSplit(shift - 1);
      var a, b := Pow2(shift - 1), Pow2(64 - shift);
      assert 2 * a * b == a * (2 * b);
    }
  }

  lemma ShiftTruncates(x: nat, p: nat, q: nat)
    requires p > 0 && q > 0
    ensures x * p % (p * q) == x % q * p
  {
    var k, r := x / q, x % q;
    assert x == k * q + r;
    assert x * p == k * (p * q) + r * p;
    assert r * p < q * p;
    Remainder(x * p, p * q, k, r * p);
  }

  lemma Multiple(m: int, d: nat)
    ensures m >= 1 ==> m * d >= d
    ensures m <= -1 ==> m * d + d <= 0
  {
    if m >= 1 {
      assert (m - 1) * d >= 0;
    } else if m <= -1 {
      assert (-m - 1) * d >= 0;
    }
  }

  lemma Remainder(x: nat, d: nat, k: nat, r: nat)
    requires d > 0 && x == k * d + r && r < d
    ensures x % d == r
  {
    var j, t := x / d, x % d;
    assert x == j * d + t;
    assert (k - j) * d == t - r;
    Multiple(k - j, d);
  }

  lemma SumBelow(value: nat, r: nat, p: nat, q: nat)
    requires value < p && r < q
    ensures value + r * p < p * q
  {
    assert (r + 1) * p <= q * p;
  }

  lemma SumTruncates(value: nat, x: nat, p: nat, q: nat)
    requires p > 0 && q > 0 && value < p
    ensures (value + x * p) % (p * q) == value + x % q * p
  {
    var k, r := x / q, x % q;
    assert x == k * q + r;
    assert value + x * p == k * (p * q) + (value + r * p);
    SumBelow(value, r, p, q);
    Remainder(value + x * p, p * q, k, value + r * p);
  }

  /** decode_unsigned_varint, on data in which the number ends within ten bytes. */
  method DecodeUnsignedVarint(data: seq<byte>) returns (value: nat, decodedBytes: nat)
    requires LebSize(data) <= |data| && LebSize(data) <= 10
    ensures decodedBytes == LebSize(data) && value == LebValue(data[..decodedBytes]) % TWO_64
  {
    var i := 0;
    value := 0;
    var shiftAmount := 0;
    while true
      invariant i < LebSize(data) && shiftAmount == 7 * i
      invariant i + LebSize(data[i..]) == LebSize(data)
      invariant value == LebValue(data[..i])
      decreases LebSize(data) - i
    {
      var x := data[i] % 128;
      LebValueSnoc(data[..i], data[i]);
      assert data[..i + 1] == data[..i] + [data[i]];
      OrShifted(value, x, shiftAmount);
      value := Or(value, x * Pow2(shiftAmount) % TWO_64);
      shiftAmount := shiftAmount + 7;
      i := i + 1;
      if data[i - 1] < 128 {
        break;
      }
      NotTruncated(data[..i]);
      assert data[i - 1..][1..] == data[i..];
    }
    decodedBytes := i;
  }

  /** Nine bytes do not fill 64 bits. */
  lemma NotTruncated(d: seq<byte>)
    ensures |d| <= 9 ==> LebValue(d) % TWO_64 == LebValue(d)
  {
    if |d| <= 9 {
      LebValueSnoc(d, 0);
      BigPowers();
      PowMono(7 * |d|, 63);
    }
  }

  lemma {:induction false} PowMono(m: nat, n: nat)
    requires m <= n
    ensures Pow2(m) <= Pow2(n)
    decreases n
  {
    if m < n { PowMono(m, n - 1); }
  }
}
