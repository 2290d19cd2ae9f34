/** shox96_0_2_decompress: the loop that reads bits from a byte string and writes text into a buffer. */
module Decompressor {
  import opened Bits
  import opened Codes
  import opened Reader
  import opened Counts
  import opened Decoding

  /** getBitVal */
  function GetBitVal(z: seq<byte>, bitNo: nat, count: nat): (r: nat)
    requires bitNo < 8 * |z|
    ensures r == if BitsOf(z)[bitNo] then Pow2(count) else 0
  {
    MaskBit(z[bitNo / 8], bitNo % 8);
    if And(z[bitNo / 8], Shr(0x80, bitNo % 8)) != 0 then Pow2(count) else 0
  }

  lemma MaskBit(b: byte, k: nat)
    requires k < 8
    ensures And(b, Shr(0x80, k)) != 0 <==> ByteBit(b, k)
  {
    assert Pow2(7) == 128;
    ShrPow(7, k);
    AndSingle(b, 7 - k);
  }

  lemma {:induction false} ShrPow(n: nat, k: nat)
    requires k <= n
    ensures Shr(Pow2(n), k) == Pow2(n - k)
    decreases k
  {
    if k > 0 {
      ShrPow(n - 1, k - 1);
    }
  }

  lemma WeightIsPow(k: nat)
    requires k <= 5
    ensures Weight(k) == Pow2(k)
  {
    assert Pow2(0) == 1 && Pow2(1) == 2 && Pow2(2) == 4 && Pow2(3) == 8 && Pow2(4) == 16 && Pow2(5) == 32;
  }

  /** One round of the walk, as the loop goes through it. */
  lemma ScanRound(t: Table, bits: Word, pos: nat, code: nat, count: nat, code': nat)
    requires pos < |bits| && count < 5 && code < Weight(count)
    requires code' == code + if bits[pos] then Pow2(count) else 0
    ensures code' < 32 && (count < 4 ==> code' < Weight(count + 1))
    ensures Scan(t, bits, pos, code, count) ==
            if Entry(t, code') != 0 && Entry(t, code') % 8 == count + 1 then Got(Entry(t, code') / 8, pos + 1)
            else if count < 4 then Scan(t, bits, pos + 1, code', count + 1)
            else Got(1, pos + 1)
  {
    hide Entry, Pow2;
    WeightIsPow(count);
  }

  lemma ScanEof(t: Table, bits: Word, pos: nat, code: nat, count: nat)
    requires pos >= |bits| && count < 5 && code < Weight(count)
    ensures Scan(t, bits, pos, code, count) == Eof
  {
  }

  lemma WalkStarts(t: Table, bits: Word, pos: nat)
    ensures 0 < Weight(0) && ReadCode(t, bits, pos) == Scan(t, bits, pos, 0, 0)
  {
  }

  /** getCodeIdx: the index of the code word that stands at the position, and the position after it; 199
      and the end of the input if none does. */
  method GetCodeIdx(t: Table, z: seq<byte>, bitNo: nat) returns (idx: nat, bitNo': nat)
    requires bitNo <= 8 * |z|
    ensures match ReadCode(t, BitsOf(z), bitNo)
            case Eof => idx == 199 && bitNo' == 8 * |z|
            case Got(i, p) => idx == i && bitNo' == p
  {
    hide BitsOf, Entry, GetBitVal, Pow2, Weight, Scan, ReadCode;
    ghost var bits := BitsOf(z);
    bitNo' := bitNo;
    var code: nat, count: nat := 0, 0;
    WalkStarts(t, bits, bitNo);
    while true
      invariant count < 5 && code < Weight(count) && bitNo' <= 8 * |z|
      invariant Scan(t, bits, bitNo', code, count) == ReadCode(t, bits, bitNo)
      decreases 5 - count
    {
      if bitNo' >= 8 * |z| {
        ScanEof(t, bits, bitNo', code, count);
        return 199, bitNo';
      }
      ScanRound(t, bits, bitNo', code, count, code + GetBitVal(z, bitNo', count));
      code := code + GetBitVal(z, bitNo', count);
      bitNo' := bitNo' + 1;
      count := count + 1;
      if Entry(t, code) != 0 && Entry(t, code) % 8 == count {
        return Entry(t, code) / 8, bitNo';
      }
      if count >= 5 {
        break;
      }
    }
    idx := 1;
  }

  /** getNumFromBits */
  method GetNumFromBits(z: seq<byte>, bitNo: nat, count: nat) returns (ret: nat)
    requires bitNo + count <= 8 * |z|
    ensures ret == FromBin(BitsOf(z)[bitNo..bitNo + count])
  {
    hide BitsOf, GetBitVal, FromBin;
    ghost var bits := BitsOf(z);
    EmptyNumber(bits, bitNo);
    ret := 0;
    var p, n := bitNo, count;
    while n > 0
      invariant p + n == bitNo + count && bitNo <= p
      invariant ret == FromBin(bits[bitNo..p]) * Pow2(n)
    {
      n := n - 1;
      ret := ret + GetBitVal(z, p, n);
      OneMoreBit(bits[bitNo..p], bits[p], Pow2(n));
      assert bits[bitNo..p + 1] == bits[bitNo..p] + [bits[p]];
      p := p + 1;
    }
  }

  lemma EmptyNumber(w: Word, p: nat)
    requires p <= |w|
    ensures FromBin(w[p..p]) == 0
  {
  }

  lemma OneMoreBit(w: Word, b: bool, k: nat)
    ensures FromBin(w + [b]) * k == FromBin(w) * (2 * k) + if b then k else 0
  {
    assert (w + [b])[..|w|] == w;
    Distribute(FromBin(w), if b then 1 else 0, k);
  }

  lemma Distribute(x: nat, c: nat, k: nat)
    ensures (2 * x + c) * k == x * (2 * k) + c * k
  {
  }

  /** readCount */
  method ReadCountAt(z: seq<byte>, bitNo: nat) returns (count: nat, bitNo': nat)
    requires bitNo <= 8 * |z| && ReadCount(BitsOf(z), bitNo).Number?
    ensures ReadCount(BitsOf(z), bitNo) == Number(count, bitNo')
  {
    hide BitsOf, ReadCode, FromBin;
    var idx;
    idx, bitNo' := GetCodeIdx(Horizontal, z, bitNo);
    if idx > 6 {
      return 0, bitNo';
    }
    var num := GetNumFromBits(z, bitNo', Width(idx));
    count := num + Base(idx);
    bitNo' := bitNo' + Width(idx);
  }

  // ----- writing -----

  /** `memcpy(out + ol, out + ol - dist, len)` on ranges that do not overlap. */
  method CopyBack(out: array<byte>, ol: nat, dist: nat, len: nat)
    requires len <= dist <= ol && ol + len <= out.Length
    modifies out
    ensures out[..ol + len] == old(out[..ol]) + old(out[..ol])[ol - dist..][..len]
  {
    ghost var was := out[..ol];
    forall i | 0 <= i < len {
      out[ol + i] := out[ol - dist + i];
    }
    assert out[..ol] == was;
    assert out[ol..ol + len] == was[ol - dist..][..len];
    assert out[..ol + len] == out[..ol] + out[ol..ol + len];
  }

  /** `memmove(out + ol, data + dist, len)` */
  method CopyLine(out: array<byte>, ol: nat, data: seq<byte>, dist: nat, len: nat)
    requires dist + len <= |data| && ol + len <= out.Length
    modifies out
    ensures out[..ol + len] == old(out[..ol]) + data[dist..dist + len]
  {
    forall i | 0 <= i < len {
      out[ol + i] := data[dist + i];
    }
    assert out[ol..ol + len] == data[dist..dist + len];
    assert out[..ol + len] == out[..ol] + out[ol..ol + len];
  }

  method RepeatByte(out: array<byte>, ol: nat, count: nat) returns (ol': nat)
    requires 0 < ol && ol + count <= out.Length
    modifies out
    ensures ol' == ol + count && out[..ol'] == old(out[..ol]) + Repeated(old(out[ol - 1]), count)
  {
    var c := out[ol - 1];
    var n := count;
    ol' := ol;
    while n > 0
      invariant ol' + n == ol + count && ol <= ol'
      invariant out[..ol] == old(out[..ol])
      invariant forall i | ol <= i < ol' :: out[i] == c
    {
      out[ol'] := c;
      ol' := ol' + 1;
      n := n - 1;
    }
    assert out[ol..ol'] == Repeated(c, count);
    assert out[..ol'] == out[..ol] + out[ol..ol'];
  }

  lemma DeliverCopy(bits: Word, lines: Lines, d: Dec, pos: nat)
    requires pos <= |bits|
    ensures Deliver(bits, lines, d, pos, 2, 8, false) ==
            if pos >= |bits| then Fault
            else if bits[pos] then CopyRound(bits, d, pos + 1)
            else LineRound(bits, lines, d, pos + 1)
  {
    hide CopyRound, LineRound;
  }

  lemma BitIsOne(z: seq<byte>, bitNo: nat)
    ensures bitNo < 8 * |z| ==> (GetBitVal(z, bitNo, 0) != 0 <==> BitsOf(z)[bitNo])
  {
  }

  /** The copies behind row 2, column 8. */
  method EmitCopy(z: seq<byte>, lines: Lines, out: array<byte>, ol: nat, bitNo: nat, ghost d: Dec)
    returns (ol': nat, bitNo': nat)
    requires bitNo <= 8 * |z| && ol <= out.Length && d.out == out[..ol]
    requires var r := Deliver(BitsOf(z), lines, d, bitNo, 2, 8, false);
             r.Next? && |r.d.out| <= out.Length
    modifies out
    ensures var r := Deliver(BitsOf(z), lines, d, bitNo, 2, 8, false);
            ol' <= out.Length && out[..ol'] == r.d.out && bitNo' == r.d.pos
  {
    hide BitsOf, ReadCount, Deliver, Pow2, GetBitVal;
    DeliverCopy(BitsOf(z), lines, d, bitNo);
    BitIsOne(z, bitNo);
    bitNo' := bitNo + 1;
    var len, dist, ctx: nat;
    var bit := GetBitVal(z, bitNo, 0);
    if bit != 0 {
      len, bitNo' := ReadCountAt(z, bitNo');
      len := len + 7;
      dist, bitNo' := ReadCountAt(z, bitNo');
      dist := dist + 7 - 1;
      CopyBack(out, ol, dist, len);
    } else {
      len, bitNo' := ReadCountAt(z, bitNo');
      len := len + 12;
      dist, bitNo' := ReadCountAt(z, bitNo');
      ctx, bitNo' := ReadCountAt(z, bitNo');
      CopyLine(out, ol, lines[ctx], dist, len);
    }
    ol' := ol + len;
  }

  method Put(out: array<byte>, ol: nat, c: byte) returns (ol': nat)
    requires ol < out.Length
    modifies out
    ensures ol' == ol + 1 && out[..ol'] == old(out[..ol]) + [c]
  {
    out[ol] := c;
    ol' := ol + 1;
  }

  /** The second half of a round: the character at row `h`, column `v`, or what that place stands for. */
  method Emit(z: seq<byte>, lines: Lines, out: array<byte>, ol: nat, bitNo: nat, digits: bool, h: nat, v: nat,
              upper: bool, ghost d: Dec)
    returns (ol': nat, bitNo': nat)
    requires h < 7 && v < 11 && bitNo <= 8 * |z| && ol <= out.Length && d.out == out[..ol] && d.digits == digits
    requires var r := Deliver(BitsOf(z), lines, d, bitNo, h, v, upper);
             r.Next? && |r.d.out| <= out.Length
    modifies out
    ensures var r := Deliver(BitsOf(z), lines, d, bitNo, h, v, upper);
            ol' <= out.Length && out[..ol'] == r.d.out && bitNo' == r.d.pos
  {
    hide BitsOf, ReadCount, CopyRound, LineRound;
    ol', bitNo' := ol, bitNo;
    SpecialCells(h, v);
    var c := Sets(h, v);
    if 97 <= c <= 122 {
      if upper {
        c := c - 32;
      }
    } else {
      if upper && !digits && v == 1 {
        c := 9;
      }
      if h == 2 {
        if v == 6 {
          ol' := Put(out, ol', 13);
          c := 10;
        } else if v == 7 {
          c := if upper then 13 else 10;
        } else if v == 8 {
          ol', bitNo' := EmitCopy(z, lines, out, ol, bitNo, d);
          return;
        } else if v == 9 {
          var count: nat;
          count, bitNo' := ReadCountAt(z, bitNo);
          count := count + 4;
          ol' := RepeatByte(out, ol, count);
          return;
        } else if v == 10 {
          return;
        }
      }
    }
    ol' := Put(out, ol', c);
  }

  /** In row 2, only the columns from 6 on are no letters. */
  lemma SpecialCells(h: nat, v: nat)
    requires h < 7 && v < 11
    ensures h == 2 && v < 6 ==> IsLower(Sets(h, v))
  {
  }

  // ----- the whole loop -----

  /** Delivering a character does not change the modes or break off. */
  lemma DeliverKeepsModes(bits: Word, lines: Lines, d: Dec, pos: nat, h: nat, v: nat, upper: bool)
    requires h < 7 && v < 11 && pos <= |bits|
    ensures var r := Deliver(bits, lines, d, pos, h, v, upper);
            !r.Stop? && (r.Next? ==> r.d.digits == d.digits && r.d.upper == d.upper)
  {
    hide ReadCount;
  }

  /** The rest of the run leads to the output `res`, which has room. */
  ghost predicate Running(bits: Word, lines: Lines, d: Dec, res: seq<byte>) {
    d.pos <= |bits| && Decode(bits, lines, d) == Done(res)
  }

  /** A round of a run that ends well does not fault, and its output is part of the result. */
  lemma RunningRound(bits: Word, lines: Lines, d: Dec, res: seq<byte>)
    requires Running(bits, lines, d, res) && d.pos < |bits|
    ensures match DecStep(bits, lines, d)
            case Next(d') => Running(bits, lines, d', res) && d'.out <= res && d'.pos > d.pos
            case Stop => d.out == res
            case Fault => false
  {
    hide DecStep;
    var r := DecStep(bits, lines, d);
    if r.Next? {
      DecodeKeeps(bits, lines, r.d);
    }
  }

  /** What a round reads before it delivers: modes only (`None`), the end of the input, or a place. */
  datatype Head = Modes(digits: bool, upper: bool) | AtEof | Cell(h: nat, v: nat, shifted: bool)

  /** The first half of a round: reads codes, and changes the modes if that is all there is to do. */
  method ReadHead(z: seq<byte>, bitNo: nat, digits: bool, upper: bool, ghost lines: Lines, ghost d: Dec)
    returns (head: Head, bitNo': nat)
    requires bitNo < 8 * |z| && d.pos == bitNo && d.digits == digits && d.upper == upper
    ensures bitNo < bitNo' <= 8 * |z|
    ensures var r := DecStep(BitsOf(z), lines, d);
            match head
            case AtEof => r == Stop
            case Modes(g, p) => r == Next(d.(pos := bitNo', digits := g, upper := p))
            case Cell(h, v, shifted) => h < 7 && v < 11 && r == Deliver(BitsOf(z), lines, d, bitNo', h, v, shifted)
  {
    hide BitsOf, ReadCode, Deliver;
    var v, h: nat;
    var isUpper := upper;
    v, bitNo' := GetCodeIdx(Vertical, z, bitNo);
    if v == 199 {
      return AtEof, bitNo';
    }
    h := if digits then 3 else 0;
    if v == 0 {
      h, bitNo' := GetCodeIdx(Horizontal, z, bitNo');
      if h == 199 {
        return AtEof, bitNo';
      }
      if h == 0 {
        if !digits {
          if upper {
            return Modes(digits, false), bitNo';
          }
          v, bitNo' := GetCodeIdx(Vertical, z, bitNo');
          if v == 199 {
            return AtEof, bitNo';
          }
          if v == 0 {
            h, bitNo' := GetCodeIdx(Horizontal, z, bitNo');
            if h == 199 {
              return AtEof, bitNo';
            }
            if h == 0 {
              return Modes(digits, true), bitNo';
            }
          }
          isUpper := true;
        } else {
          return Modes(false, upper), bitNo';
        }
      } else if h == 3 {
        return Modes(true, upper), bitNo';
      }
      if h != 0 {
        v, bitNo' := GetCodeIdx(Vertical, z, bitNo');
        if v == 199 {
          return AtEof, bitNo';
        }
      }
    }
    head := Cell(h, v, isUpper);
  }

  /** shox96_0_2_decompress, on input that it can decompress: the output buffer begins with the result. */
  method Decompress(z: seq<byte>, out: array<byte>, lines: Lines) returns (size: nat)
    requires Decompressed(z, lines).Done? && 1 <= out.Length && |Decompressed(z, lines).out| <= out.Length
    modifies out
    ensures size <= out.Length && Done(out[..size]) == Decompressed(z, lines)
  {
    hide BitsOf, DecStep, Deliver, Decode;
    ghost var bits, res := BitsOf(z), Decompressed(z, lines).out;
    ghost var d := BEGIN;
    var ol: nat, bitNo: nat := 0, 0;
    var digits, upper := false, false;
    out[ol] := 0;
    while bitNo < 8 * |z|
      invariant bitNo <= 8 * |z| && ol <= out.Length && |res| <= out.Length
      invariant d == Dec(bitNo, digits, upper, out[..ol])
      invariant Running(bits, lines, d, res)
    {
      RunningRound(bits, lines, d, res);
      var head, p := ReadHead(z, bitNo, digits, upper, lines, d);
      ghost var r := DecStep(bits, lines, d);
      match head {
        case AtEof =>
          break;
        case Modes(g, u) =>
          digits, upper, bitNo := g, u, p;
          d := r.d;
        case Cell(h, v, shifted) =>
          DeliverKeepsModes(bits, lines, d, p, h, v, shifted);
          ol, bitNo := Emit(z, lines, out, ol, p, digits, h, v, shifted, d);
          d := r.d;
      }
    }
    if bitNo >= 8 * |z| {
      FinishedRun(bits, lines, d, res);
    }
    size := ol;
  }

  lemma FinishedRun(bits: Word, lines: Lines, d: Dec, res: seq<byte>)
    requires Running(bits, lines, d, res) && d.pos >= |bits|
    ensures d.out == res
  {
  }
}
