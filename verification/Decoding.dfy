/** The decoder as a state machine over the bits of the compressed text. */
module Decoding {
  import opened Bits
  import opened Codes
  import opened Reader
  import opened Counts

  /** bit_no, dstate == SHX_SET2, is_all_upper and the output so far. */
  datatype Dec = Dec(pos: nat, digits: bool, upper: bool, out: seq<byte>)

  const BEGIN := Dec(0, false, false, [])

  /** One round of the loop: it goes on, it breaks off at the end of the input, or it touches memory
      that it must not (text that no compressor writes). */
  datatype Round = Next(d: Dec) | Stop | Fault

  /** A round that goes on has read up to `pos` at least and has only added to the output. */
  ghost predicate Grows(r: Round, bits: Word, d: Dec, pos: nat) {
    r.Next? ==> pos <= r.d.pos <= |bits| && d.out <= r.d.out
  }

  function Repeated(c: byte, n: nat): (r: seq<byte>)
    ensures |r| == n && forall i | 0 <= i < n :: r[i] == c
  {
    seq(n, _ => c)
  }

  /** The back-reference into the output: `memcpy(out + ol, out + ol - dist, dict_len)`. */
  function CopyRound(bits: Word, d: Dec, pos: nat): (r: Round)
    requires pos <= |bits|
    ensures Grows(r, bits, d, pos)
  {
    match ReadCount(bits, pos)
    case Overrun => Fault
    case Number(n, p1) =>
      match ReadCount(bits, p1)
      case Overrun => Fault
      case Number(b, p2) =>
        var len, dist := n + 7, b + 6;
        if dist > |d.out| || len > dist then Fault
        else Next(d.(pos := p2, out := d.out + d.out[|d.out| - dist..][..len]))
  }

  /** The reference into an earlier line. */
  function LineRound(bits: Word, lines: Lines, d: Dec, pos: nat): (r: Round)
    requires pos <= |bits|
    ensures Grows(r, bits, d, pos)
  {
    match ReadCount(bits, pos)
    case Overrun => Fault
    case Number(n, p1) =>
      match ReadCount(bits, p1)
      case Overrun => Fault
      case Number(at, p2) =>
        match ReadCount(bits, p2)
        case Overrun => Fault
        case Number(ctx, p3) =>
          var len := n + 12;
          if ctx >= |lines| || at + len > |lines[ctx]| then Fault
          else Next(d.(pos := p3, out := d.out + lines[ctx][at..at + len]))
  }

  function RepeatRound(bits: Word, d: Dec, pos: nat): (r: Round)
    requires pos <= |bits|
    ensures Grows(r, bits, d, pos)
  {
    match ReadCount(bits, pos)
    case Overrun => Fault
    case Number(n, p) =>
      if d.out == [] then Fault
      else Next(d.(pos := p, out := d.out + Repeated(d.out[|d.out| - 1], n + 4)))
  }

  /** The second half of a round: row `h` and column `v` have been read up to `pos`. */
  function Deliver(bits: Word, lines: Lines, d: Dec, pos: nat, h: nat, v: nat, upper: bool): (r: Round)
    requires h < 7 && v < 11 && pos <= |bits|
    ensures Grows(r, bits, d, pos)
  {
    var c := Sets(h, v);
    if IsLower(c) then Next(d.(pos := pos, out := d.out + [if upper then c - 32 else c]))
    else if h == 2 && v == 6 then Next(d.(pos := pos, out := d.out + [13, 10]))
    else if h == 2 && v == 7 then Next(d.(pos := pos, out := d.out + [if upper then 13 else 10]))
    else if h == 2 && v == 8 then
      if pos >= |bits| then Fault
      else if bits[pos] then CopyRound(bits, d, pos + 1)
      else LineRound(bits, lines, d, pos + 1)
    else if h == 2 && v == 9 then RepeatRound(bits, d, pos)
    else if h == 2 && v == 10 then Next(d.(pos := pos))
    else Next(d.(pos := pos, out := d.out + [if upper && !d.digits && v == 1 then 9 else c]))
  }

  /** Reads a column and delivers. */
  function ColumnThen(bits: Word, lines: Lines, d: Dec, pos: nat, h: nat, upper: bool): (r: Round)
    requires h < 7 && pos <= |bits|
    ensures Grows(r, bits, d, pos)
  {
    match ReadCode(Vertical, bits, pos)
    case Eof => Stop
    case Got(v, p) => Deliver(bits, lines, d, p, h, v, upper)
  }

  /** After 00 10 in text state with capitals off: one capital, or the start of capitals. */
  function ShiftRound(bits: Word, lines: Lines, d: Dec, pos: nat): (r: Round)
    requires pos <= |bits|
    ensures Grows(r, bits, d, pos)
  {
    match ReadCode(Vertical, bits, pos)
    case Eof => Stop
    case Got(v, p) =>
      if v != 0 then Deliver(bits, lines, d, p, 0, v, true)
      else
        match ReadCode(Horizontal, bits, p)
        case Eof => Stop
        case Got(h, p1) =>
          if h == 0 then Next(d.(pos := p1, upper := true))
          else ColumnThen(bits, lines, d, p1, h, true)
  }

  /** One round of the decompressor's loop. */
  function DecStep(bits: Word, lines: Lines, d: Dec): (r: Round)
    requires d.pos < |bits|
    ensures Grows(r, bits, d, d.pos + 1)
  {
    match ReadCode(Vertical, bits, d.pos)
    case Eof => Stop
    case Got(v, p) =>
      if v != 0 then Deliver(bits, lines, d, p, if d.digits then 3 else 0, v, d.upper)
      else
        match ReadCode(Horizontal, bits, p)
        case Eof => Stop
        case Got(h, p1) =>
          if h == 0 then
            if d.digits then Next(d.(pos := p1, digits := false))
            else if d.upper then Next(d.(pos := p1, upper := false))
            else ShiftRound(bits, lines, d, p1)
          else if h == 3 then Next(d.(pos := p1, digits := true))
          else ColumnThen(bits, lines, d, p1, h, d.upper)
  }

  /** The outcome of decompression: the output, or an access outside the buffers. */
  datatype Result = Done(out: seq<byte>) | Crash

  function Decode(bits: Word, lines: Lines, d: Dec): Result
    decreases |bits| - d.pos
  {
    if d.pos >= |bits| then Done(d.out)
    else
      match DecStep(bits, lines, d)
      case Stop => Done(d.out)
      case Fault => Crash
      case Next(d') => Decode(bits, lines, d')
  }

  /** shox96_0_2_decompress on a byte string. */
  function Decompressed(z: seq<byte>, lines: Lines): Result {
    Decode(BitsOf(z), lines, BEGIN)
  }

  /** Output that has been written stays. */
  lemma {:induction false} DecodeKeeps(bits: Word, lines: Lines, d: Dec)
    ensures Decode(bits, lines, d).Done? ==> d.out <= Decode(bits, lines, d).out
    decreases |bits| - d.pos
  {
    if d.pos < |bits| {
      if DecStep(bits, lines, d).Next? {
        DecodeKeeps(bits, lines, DecStep(bits, lines, d).d);
      }
    }
  }
}
