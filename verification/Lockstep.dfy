/** Encoder and decoder in lockstep: one item written is one round read. */
module Lockstep {
  import opened Bits
  import opened Codes
  import opened Words
  import opened Reader
  import opened Counts
  import opened Encoding
  import opened Decoding

  /** The modes in which the decoder reads an item as what the encoder meant. */
  predicate Legal(item: Item, digits: bool, upper: bool) {
    match item
    case SwitchText => digits
    case SwitchDigits => !digits
    case BeginUpper => !digits && !upper
    case EndUpper => !digits && upper
    case Glyph(c) =>
      && IsPrintable(c)
      && (upper ==> !digits && IsUpper(c))
      && (digits ==> IsSymbol(c))
      && (IsDigit(c) ==> digits)
    case Crlf => true
    case Lf => !upper
    case Cr => !digits && !upper
    case Tab => !digits && !upper
    case Repeat(n) => n >= 4
    case Copy(n, back) => 7 <= n <= back
    case LineCopy(n, at, ctx) => n >= 12
    case Dropped => true
  }

  /** All counts of an item have a code. */
  predicate CountsFit(item: Item) {
    match item
    case Repeat(n) => n < COUNT_LIMIT + 4
    case Copy(n, back) => n < COUNT_LIMIT + 7 && back < COUNT_LIMIT + 6
    case LineCopy(n, at, ctx) => n < COUNT_LIMIT + 12 && at < COUNT_LIMIT && ctx < COUNT_LIMIT
    case _ => true
  }

  /** What an item means to the decoder. */
  function Effect(item: Item, lines: Lines, d: Dec): Round {
    var d' := d.(pos := d.pos + |ItemWord(item, d.digits, d.upper)|);
    match item
    case SwitchText => Next(d'.(digits := false))
    case SwitchDigits => Next(d'.(digits := true))
    case BeginUpper => Next(d'.(upper := true))
    case EndUpper => Next(d'.(upper := false))
    case Glyph(c) => Next(d'.(out := d.out + [c]))
    case Crlf => Next(d'.(out := d.out + [13, 10]))
    case Lf => Next(d'.(out := d.out + [10]))
    case Cr => Next(d'.(out := d.out + [13]))
    case Tab => Next(d'.(out := d.out + [9]))
    case Repeat(n) =>
      if d.out == [] then Fault else Next(d'.(out := d.out + Repeated(d.out[|d.out| - 1], n)))
    case Copy(n, back) =>
      if back > |d.out| || n > back then Fault
      else Next(d'.(out := d.out + d.out[|d.out| - back..][..n]))
    case LineCopy(n, at, ctx) =>
      if ctx >= |lines| || at + n > |lines[ctx]| then Fault
      else Next(d'.(out := d.out + lines[ctx][at..at + n]))
    case Dropped => Next(d')
  }

  // ----- reading words -----

  lemma ReadBack(bits: Word, pos: nat, rest: Word)
    requires StartsAt(bits, pos, BACK + rest)
    ensures pos + 4 <= |bits| && StartsAt(bits, pos + 4, rest)
    ensures ReadCode(Vertical, bits, pos) == Got(0, pos + 2)
    ensures ReadCode(Horizontal, bits, pos + 2) == Got(0, pos + 4)
  {
    hide ReadCode;
    var u, v := CodeWord(Vertical, 0), CodeWord(Horizontal, 0);
    assert |u| == 2 && |v| == 2;
    StartsAtSplit(bits, pos, BACK, rest);
    StartsAtSplit(bits, pos, u, v);
    ReadWord(Vertical, bits, pos, 0);
    ReadWord(Horizontal, bits, pos + 2, 0);
  }

  lemma ReadColumn(bits: Word, pos: nat, v: nat, rest: Word)
    requires v < 11 && StartsAt(bits, pos, CodeWord(Vertical, v) + rest)
    ensures pos + VLen(v) <= |bits| && StartsAt(bits, pos + VLen(v), rest)
    ensures ReadCode(Vertical, bits, pos) == Got(v, pos + VLen(v))
  {
    hide ReadCode;
    StartsAtSplit(bits, pos, CodeWord(Vertical, v), rest);
    ReadWord(Vertical, bits, pos, v);
  }

  lemma ReadRow(bits: Word, pos: nat, h: nat, rest: Word)
    requires h < 7 && StartsAt(bits, pos, CodeWord(Horizontal, h) + rest)
    ensures pos + HLen(h) <= |bits| && StartsAt(bits, pos + HLen(h), rest)
    ensures ReadCode(Horizontal, bits, pos) == Got(h, pos + HLen(h))
  {
    hide ReadCode;
    StartsAtSplit(bits, pos, CodeWord(Horizontal, h), rest);
    ReadWord(Horizontal, bits, pos, h);
  }

  lemma ReadSlot(bits: Word, pos: nat, s: Slot, rest: Word)
    requires 0 < s.h < 7 && s.v < 11 && StartsAt(bits, pos, SlotWord(s) + rest)
    ensures pos + SlotLen(s) <= |bits| && StartsAt(bits, pos + SlotLen(s), rest)
    ensures ReadCode(Vertical, bits, pos) == Got(0, pos + 2)
    ensures ReadCode(Horizontal, bits, pos + 2) == Got(s.h, pos + 2 + HLen(s.h))
    ensures ReadCode(Vertical, bits, pos + 2 + HLen(s.h)) == Got(s.v, pos + SlotLen(s))
    ensures |SlotWord(s)| == SlotLen(s)
  {
    hide ReadCode;
    var u, x, y := CodeWord(Vertical, 0), CodeWord(Horizontal, s.h), CodeWord(Vertical, s.v);
    ConcatAssoc4(u, x, y, rest);
    ReadColumn(bits, pos, 0, x + (y + rest));
    ReadRow(bits, pos + 2, s.h, y + rest);
    ReadColumn(bits, pos + 2 + HLen(s.h), s.v, rest);
  }

  // ----- one lemma per kind of item -----

  /** In the state `d`, the round reads exactly `item`. */
  ghost predicate Reads(bits: Word, lines: Lines, d: Dec, item: Item) {
    d.pos < |bits| && DecStep(bits, lines, d) == Effect(item, lines, d)
  }

  lemma ReadsSwitch(bits: Word, lines: Lines, d: Dec, item: Item)
    requires item.SwitchText? || item.SwitchDigits? || item.BeginUpper? || item.EndUpper?
    requires Legal(item, d.digits, d.upper) && StartsAt(bits, d.pos, ItemWord(item, d.digits, d.upper))
    ensures Reads(bits, lines, d, item)
  {
    hide ReadCode, Deliver;
    var w := ItemWord(item, d.digits, d.upper);
    if item.SwitchDigits? {
      ReadColumn(bits, d.pos, 0, CodeWord(Horizontal, 3));
      assert CodeWord(Horizontal, 3) + [] == CodeWord(Horizontal, 3);
      ReadRow(bits, d.pos + 2, 3, []);
    } else if item.BeginUpper? {
      ReadBack(bits, d.pos, BACK);
      assert BACK + [] == BACK;
      ReadBack(bits, d.pos + 4, []);
    } else {
      assert BACK + [] == BACK;
      ReadBack(bits, d.pos, []);
    }
  }

  /** A slot in its own row, with capitals off or for a capital letter. */
  lemma ReadsSlot(bits: Word, lines: Lines, d: Dec, s: Slot, rest: Word)
    requires 0 < s.h < 7 && s.h != 3 && s.v < 11 && StartsAt(bits, d.pos, SlotWord(s) + rest)
    ensures d.pos < |bits| && d.pos + SlotLen(s) <= |bits| && StartsAt(bits, d.pos + SlotLen(s), rest)
    ensures DecStep(bits, lines, d) == Deliver(bits, lines, d, d.pos + SlotLen(s), s.h, s.v, d.upper)
    ensures |SlotWord(s)| == SlotLen(s)
  {
    hide ReadCode, Deliver;
    ReadSlot(bits, d.pos, s, rest);
  }

  lemma ReadsDefault(bits: Word, lines: Lines, d: Dec, v: nat)
    requires 0 < v < 11 && StartsAt(bits, d.pos, CodeWord(Vertical, v))
    ensures d.pos < |bits| && d.pos + VLen(v) <= |bits|
    ensures DecStep(bits, lines, d)
            == Deliver(bits, lines, d, d.pos + VLen(v), if d.digits then 3 else 0, v, d.upper)
    ensures |CodeWord(Vertical, v)| == VLen(v)
  {
    hide ReadCode, Deliver, ColumnThen, ShiftRound;
    assert CodeWord(Vertical, v) + [] == CodeWord(Vertical, v);
    ReadColumn(bits, d.pos, v, []);
  }

  /** After 00 10 in text state with capitals off. */
  lemma ReadsShifted(bits: Word, lines: Lines, d: Dec, s: Slot)
    requires s.h < 7 && s.v < 11 && (s.h == 0 ==> s.v != 0) && StartsAt(bits, d.pos, BACK + SlotWord(s))
    requires !d.digits && !d.upper
    ensures d.pos < |bits| && d.pos + 4 + SlotLen(s) <= |bits| && |SlotWord(s)| == SlotLen(s)
    ensures DecStep(bits, lines, d) == Deliver(bits, lines, d, d.pos + 4 + SlotLen(s), s.h, s.v, true)
  {
    hide ReadCode, Deliver;
    ReadBack(bits, d.pos, SlotWord(s));
    assert SlotWord(s) + [] == SlotWord(s);
    if s.h == 0 {
      ReadColumn(bits, d.pos + 4, s.v, []);
    } else {
      ReadSlot(bits, d.pos + 4, s, []);
    }
  }

  lemma ReadsLineEnd(bits: Word, lines: Lines, d: Dec, item: Item)
    requires item.Crlf? || item.Lf? || item.Cr? || item.Tab?
    requires Legal(item, d.digits, d.upper) && StartsAt(bits, d.pos, ItemWord(item, d.digits, d.upper))
    ensures Reads(bits, lines, d, item)
  {
    hide ReadCode, DecStep;
    var w := ItemWord(item, d.digits, d.upper);
    assert w + [] == w;
    match item
    case Crlf => ReadsSlot(bits, lines, d, Slot(2, 6), []);
    case Lf => ReadsSlot(bits, lines, d, Slot(2, 7), []);
    case Cr => ReadsShifted(bits, lines, d, Slot(2, 7));
    case Tab => ReadsShifted(bits, lines, d, Slot(0, 1));
  }

  lemma ReadsGlyph(bits: Word, lines: Lines, d: Dec, item: Item)
    requires item.Glyph?
    requires Legal(item, d.digits, d.upper) && StartsAt(bits, d.pos, ItemWord(item, d.digits, d.upper))
    ensures Reads(bits, lines, d, item)
  {
    hide ReadCode, DecStep, Place, Sets, Bin, SlotLen, VLen;
    var c := item.c;
    var w := ItemWord(item, d.digits, d.upper);
    assert w + [] == w;
    SpaceSlot();
    if d.digits && c == 32 {
      ReadsSlot(bits, lines, d, Slot(4, 6), []);
    } else {
      var low := if IsUpper(c) then c + 32 else c;
      var s := Place(low);
      PlaceInverts(low);
      PlaceRows(low);
      if d.digits && IsDigit(c) {
        ReadsDefault(bits, lines, d, s.v);
      } else if IsUpper(c) && !d.upper {
        ReadsShifted(bits, lines, d, s);
      } else if s.h == 0 {
        ReadsDefault(bits, lines, d, s.v);
      } else {
        ReadsSlot(bits, lines, d, s, []);
      }
    }
  }

  lemma SpaceSlot()
    ensures Sets(4, 6) == 32 && |BACK| == 4
  {
  }

  /** Digits have the row of digit state to themselves; small letters and the space are all that the
      row of text state holds; the rows below hold no character that capitals would turn into a tab. */
  lemma PlaceRows(c: byte)
    requires IsPrintable(c) && !IsUpper(c)
    ensures Place(c).h == 3 <==> IsDigit(c)
    ensures Place(c).h == 0 ==> c == 32 || IsLower(c)
    ensures Place(c).h == 2 ==> IsLower(c)
  {
  }

  lemma ReadsRepeat(bits: Word, lines: Lines, d: Dec, n: nat, w: Word)
    requires 4 <= n < COUNT_LIMIT + 4 && w == CountWord(n - 4)
    requires StartsAt(bits, d.pos, SlotWord(Slot(2, 9)) + w)
    ensures Reads(bits, lines, d, Repeat(n))
  {
    hide ReadCode, DecStep, CountWord, ReadCount, SlotWord, SlotLen, StartsAt;
    var p := d.pos + SlotLen(Slot(2, 9));
    ReadsSlot(bits, lines, d, Slot(2, 9), w);
    CountRoundTrip(n - 4, bits, p);
    assert DecStep(bits, lines, d) == RepeatRound(bits, d, p);
  }

  /** The bit that tells the two copies apart. */
  lemma ReadsCopyBit(bits: Word, lines: Lines, d: Dec, b: bool, rest: Word)
    requires StartsAt(bits, d.pos, SlotWord(Slot(2, 8)) + [b] + rest)
    ensures d.pos + 10 <= |bits| && StartsAt(bits, d.pos + 10, rest) && |SlotWord(Slot(2, 8))| == 9
    ensures DecStep(bits, lines, d) ==
            if b then CopyRound(bits, d, d.pos + 10) else LineRound(bits, lines, d, d.pos + 10)
  {
    hide ReadCode, DecStep, CopyRound, LineRound;
    var p := d.pos + 9;
    assert SlotLen(Slot(2, 8)) == 9;
    ConcatAssoc(SlotWord(Slot(2, 8)), [b], rest);
    ReadsSlot(bits, lines, d, Slot(2, 8), [b] + rest);
    StartsAtSplit(bits, p, [b], rest);
    assert bits[p] == bits[p..p + 1][0];
  }

  lemma ReadsCopy(bits: Word, lines: Lines, d: Dec, n: nat, back: nat, x: Word, y: Word)
    requires 7 <= n <= back && CountsFit(Copy(n, back))
    requires x == CountWord(n - 7) && y == CountWord(back - 6)
    requires StartsAt(bits, d.pos, SlotWord(Slot(2, 8)) + [true] + (x + y))
    ensures Reads(bits, lines, d, Copy(n, back))
  {
    hide ReadCode, DecStep, CountWord, ReadCount, SlotWord, SlotLen, StartsAt;
    var p := d.pos + 10;
    ReadsCopyBit(bits, lines, d, true, x + y);
    StartsAtSplit(bits, p, x, y);
    CountRoundTrip(n - 7, bits, p);
    CountRoundTrip(back - 6, bits, p + |x|);
  }

  lemma ReadsLineCopy(bits: Word, lines: Lines, d: Dec, n: nat, at: nat, ctx: nat, x: Word, y: Word, z: Word)
    requires 12 <= n && CountsFit(LineCopy(n, at, ctx))
    requires x == CountWord(n - 12) && y == CountWord(at) && z == CountWord(ctx)
    requires StartsAt(bits, d.pos, SlotWord(Slot(2, 8)) + [false] + (x + (y + z)))
    ensures Reads(bits, lines, d, LineCopy(n, at, ctx))
  {
    hide ReadCode, DecStep, CountWord, ReadCount, SlotWord, SlotLen, StartsAt;
    var p := d.pos + 10;
    ReadsCopyBit(bits, lines, d, false, x + (y + z));
    StartsAtSplit(bits, p, x, y + z);
    StartsAtSplit(bits, p + |x|, y, z);
    CountRoundTrip(n - 12, bits, p);
    CountRoundTrip(at, bits, p + |x|);
    CountRoundTrip(ctx, bits, p + |x| + |y|);
  }

  /** The decoder reads every legal item whose counts fit as what it means, whatever follows. */
  lemma ReadsItem(bits: Word, lines: Lines, d: Dec, item: Item)
    requires !item.Dropped? && Legal(item, d.digits, d.upper) && CountsFit(item)
    requires StartsAt(bits, d.pos, ItemWord(item, d.digits, d.upper))
    ensures Reads(bits, lines, d, item)
  {
    hide Reads, CountWord, SlotWord, CodeWord, GlyphWord;
    match item
    case SwitchText => ReadsSwitch(bits, lines, d, item);
    case SwitchDigits => ReadsSwitch(bits, lines, d, item);
    case BeginUpper => ReadsSwitch(bits, lines, d, item);
    case EndUpper => ReadsSwitch(bits, lines, d, item);
    case Glyph(c) => ReadsGlyph(bits, lines, d, item);
    case Crlf => ReadsLineEnd(bits, lines, d, item);
    case Lf => ReadsLineEnd(bits, lines, d, item);
    case Cr => ReadsLineEnd(bits, lines, d, item);
    case Tab => ReadsLineEnd(bits, lines, d, item);
    case Repeat(n) => ReadsRepeat(bits, lines, d, n, CountWord(n - 4));
    case Copy(n, back) => ReadsCopy(bits, lines, d, n, back, CountWord(n - 7), CountWord(back - 6));
    case LineCopy(n, at, ctx) =>
      ReadsLineCopy(bits, lines, d, n, at, ctx, CountWord(n - 12), CountWord(at), CountWord(ctx));
  }
}
