/** What the decompressor makes of each code word, in every mode, whoever wrote it. */
module DecoderRules {
  import opened Bits
  import opened Codes
  import opened Words
  import opened Reader
  import opened Counts
  import opened Decoding
  import opened Lockstep
  import opened RoundTrip

  /** What a place of `sets` puts out. A shifted small letter is a capital, the shifted line feed a carriage
      return, and in text state all else that stands in column 1 is a tab when shifted. */
  ghost predicate Shows(h: nat, v: nat, shifted: bool, digits: bool, text: seq<byte>)
    requires h < 7 && v < 11
  {
    var c := Sets(h, v);
    if 97 <= c <= 122 then text == [if shifted then c - 32 else c]
    else if h == 2 then
      && (v == 6 ==> text == [13, 10])
      && (v == 7 ==> text == if shifted then [13] else [10])
      && (v == 10 ==> text == [])
    else text == if shifted && v == 1 && !digits then [9] else [c]
  }

  lemma CellShows(bits: Word, lines: Lines, d: Dec, pos: nat, h: nat, v: nat, shifted: bool)
    requires h < 7 && v < 11 && pos <= |bits| && !(h == 2 && (v == 8 || v == 9))
    ensures var r := Deliver(bits, lines, d, pos, h, v, shifted);
            && r.Next? && d.out <= r.d.out && Shows(h, v, shifted, d.digits, r.d.out[|d.out|..])
            && r.d == Dec(pos, d.digits, d.upper, r.d.out)
  {
    hide ReadCount, CopyRound, LineRound, RepeatRound;
    var r := Deliver(bits, lines, d, pos, h, v, shifted);
    assert r.d.out == d.out + r.d.out[|d.out|..];
  }

  /** One round reads the text `text` of `n` bits, and nothing else changes. */
  ghost predicate RoundShows(bits: Word, lines: Lines, d: Dec, n: nat, h: nat, v: nat, shifted: bool)
    requires h < 7 && v < 11
  {
    && d.pos < |bits|
    && var r := DecStep(bits, lines, d);
    && r.Next? && r.d == Dec(d.pos + n, d.digits, d.upper, r.d.out)
    && d.out <= r.d.out && Shows(h, v, shifted, d.digits, r.d.out[|d.out|..])
  }

  /** A place with its row written out, in any mode. */
  lemma RowRule(bits: Word, lines: Lines, d: Dec, h: nat, v: nat)
    requires h in {1, 2, 4, 5, 6} && v < 11 && !(h == 2 && (v == 8 || v == 9))
    requires StartsAt(bits, d.pos, CodeWord(Vertical, 0) + CodeWord(Horizontal, h) + CodeWord(Vertical, v))
    ensures RoundShows(bits, lines, d, 2 + HLen(h) + VLen(v), h, v, d.upper)
  {
    hide DecStep, CodeWord, Deliver, Shows;
    var w := SlotWord(Slot(h, v));
    assert w + [] == w;
    ReadsSlot(bits, lines, d, Slot(h, v), []);
    CellShows(bits, lines, d, d.pos + SlotLen(Slot(h, v)), h, v, d.upper);
  }

  /** A column alone: the first row in text state, the digits in digit state. */
  lemma ColumnRule(bits: Word, lines: Lines, d: Dec, v: nat)
    requires 0 < v < 11 && StartsAt(bits, d.pos, CodeWord(Vertical, v))
    ensures RoundShows(bits, lines, d, VLen(v), if d.digits then 3 else 0, v, d.upper)
  {
    hide DecStep, CodeWord, Deliver, Shows;
    ReadsDefault(bits, lines, d, v);
    CellShows(bits, lines, d, d.pos + VLen(v), if d.digits then 3 else 0, v, d.upper);
  }

  /** A shifted place, in text state with capitals off: a column of the first row, or any other row. */
  lemma ShiftRule(bits: Word, lines: Lines, d: Dec, h: nat, v: nat)
    requires h < 7 && v < 11 && (h == 0 ==> v > 0) && !(h == 2 && (v == 8 || v == 9)) && !d.digits && !d.upper
    requires StartsAt(bits, d.pos, CodeWord(Vertical, 0) + CodeWord(Horizontal, 0) + SlotWord(Slot(h, v)))
    ensures RoundShows(bits, lines, d, 4 + SlotLen(Slot(h, v)), h, v, true)
  {
    hide DecStep, CodeWord, Deliver, Shows;
    ReadsShifted(bits, lines, d, Slot(h, v));
    CellShows(bits, lines, d, d.pos + 4 + SlotLen(Slot(h, v)), h, v, true);
  }

  /** The words that change the modes: to digits, from any mode; and back, out of digits first, then out of
      capitals; twice, into capitals. */
  lemma ModeRule(bits: Word, lines: Lines, d: Dec)
    ensures StartsAt(bits, d.pos, CodeWord(Vertical, 0) + CodeWord(Horizontal, 3)) ==>
              d.pos < |bits| && DecStep(bits, lines, d) == Next(d.(pos := d.pos + 7, digits := true))
    ensures StartsAt(bits, d.pos, BACK) && d.digits ==>
              d.pos < |bits| && DecStep(bits, lines, d) == Next(d.(pos := d.pos + 4, digits := false))
    ensures StartsAt(bits, d.pos, BACK) && !d.digits && d.upper ==>
              d.pos < |bits| && DecStep(bits, lines, d) == Next(d.(pos := d.pos + 4, upper := false))
    ensures StartsAt(bits, d.pos, BACK + BACK) && !d.digits && !d.upper ==>
              d.pos < |bits| && DecStep(bits, lines, d) == Next(d.(pos := d.pos + 8, upper := true))
  {
    hide ReadCode, Deliver, CodeWord, ColumnThen;
    var u, w := CodeWord(Vertical, 0), CodeWord(Horizontal, 3);
    assert BACK + [] == BACK && w + [] == w;
    if StartsAt(bits, d.pos, u + w) {
      ReadColumn(bits, d.pos, 0, w);
      ReadRow(bits, d.pos + 2, 3, []);
    }
    if StartsAt(bits, d.pos, BACK) {
      ReadBack(bits, d.pos, []);
    }
    if StartsAt(bits, d.pos, BACK + BACK) {
      ReadBack(bits, d.pos, BACK);
      ReadBack(bits, d.pos + 4, []);
    }
  }

  /** Where the input ends within the first code word of a round, the output so far is the result. */
  lemma CutRule(bits: Word, lines: Lines, d: Dec)
    requires forall v | 0 <= v < 11 :: !StartsAt(bits, d.pos, CodeWord(Vertical, v))
    ensures Decode(bits, lines, d) == Done(d.out)
  {
    hide ReadCode, CodeWord, Deliver;
    var r := ReadCode(Vertical, bits, d.pos);
    if r.Got? {
      ReadCodeExact(Vertical, bits, d.pos, r.idx, r.next);
    }
  }

  /** The words of all counts as readCount takes them, also those that are never written. */
  lemma CountReadRule(bits: Word, pos: nat, h: nat, x: nat)
    requires h < 7 && x < Pow2([5, 2, 7, 9, 12, 16, 17][h])
    requires StartsAt(bits, pos, CodeWord(Horizontal, h) + Bin(x, [5, 2, 7, 9, 12, 16, 17][h]))
    ensures ReadCount(bits, pos)
            == Number(x + [4, 0, 36, 164, 676, 4772, 0][h], pos + HLen(h) + [5, 2, 7, 9, 12, 16, 17][h])
  {
    hide ReadCode, Bin, FromBin, ReadCount, Pow2;
    StartsAtSplit(bits, pos, CodeWord(Horizontal, h), Bin(x, Width(h)));
    NumberAfterRow(bits, pos, h, Width(h), x);
  }
}
