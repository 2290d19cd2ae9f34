/** No text grows by more than 37 bits for two bytes. */
module SizeBound {
  import opened Bits
  import opened Codes
  import opened Words
  import opened Counts
  import opened Encoding
  import opened RoundTrip
  import opened Guarantees

  /** Half bits owed at the start of a round: leaving digit state will cost four bits. */
  function Owed(digits: bool): int {
    if digits then 5 else 0
  }

  /** Half bits owed in a state. A negative debt is what the rest of a round has still to spend. */
  function Debt(s: seq<byte>, e: Enc): int {
    if e.l >= |s| then Owed(e.digits)
    else
      var c := s[e.l];
      if e.digits then (if IsDigit(c) then -22 else 5)
      else if IsUpper(c) then (if e.upper then -19 else -3)
      else (if e.upper then 0 else -8)
  }

  lemma DebtRange(s: seq<byte>, e: Enc)
    ensures -22 <= Debt(s, e) <= Owed(e.digits)
  {
  }

  // ----- lengths of words -----

  lemma GlyphLength(c: byte, digits: bool, upper: bool)
    requires IsPrintable(c)
    ensures |ItemWord(Glyph(c), digits, upper)| <=
            if digits && IsDigit(c) then 5
            else if IsUpper(c) then (if upper && !digits then 9 else 13)
            else 12
  {
    hide Bin, Place, C95, L95;
    assert |BACK| == 4 by { ControlLengths(); }
    if c == 32 && digits {
      assert |SlotWord(Slot(4, 6))| <= 12;
    } else if digits && IsDigit(c) {
      CodeWordsFit(Place(c).v);
    } else {
      var low := if IsUpper(c) then c + 32 else c;
      LetterLength(low);
    }
  }

  lemma LetterLength(c: byte)
    requires IsPrintable(c) && !IsUpper(c)
    ensures |SlotWord(Place(c))| <= if IsLower(c) then 9 else 12
  {
    hide Bin, Place, C95;
    TableRow(c);
    assert |SlotWord(Place(c))| == SlotLen(Place(c));
  }

  lemma ControlLengths()
    ensures |BACK| == 4
    ensures |CodeWord(Vertical, 0) + CodeWord(Horizontal, 3)| == 7
    ensures |CodeWord(Vertical, 1)| == 3
    ensures |SlotWord(Slot(2, 6))| == 9 && |SlotWord(Slot(2, 7))| == 9
    ensures |SlotWord(Slot(2, 8))| == 9 && |SlotWord(Slot(2, 9))| == 10
  {
  }

  // ----- one step -----

  /** The bits of a move are paid for by the bytes it passes and by the debt. */
  ghost predicate Paid(s: seq<byte>, e: Enc, m: Move)
    requires e.l < |s|
  {
    2 * |ItemWord(m.item, e.digits, e.upper)| + (if m.next.l > e.l then Owed(m.next.digits) else Debt(s, m.next))
    <= 37 * (m.next.l - e.l) + Debt(s, e)
  }

  lemma CharPaid(s: seq<byte>, e: Enc)
    requires e.l < |s| && ModesExclude(e) && LiteralMove(s, e) == CharMove(s, e)
    requires !LeavesDigits(s, e) && !LeavesUpper(s, e) && !EntersUpper(s, e) && !EntersDigits(s, e)
    ensures Paid(s, e, CharMove(s, e))
  {
    hide SlotWord, CodeWord, GlyphWord, SixNotLower, BACK;
    ControlLengths();
    if IsPrintable(s[e.l]) {
      hide ItemWord;
      GlyphLength(s[e.l], e.digits, e.upper);
    }
  }

  lemma LiteralPaid(s: seq<byte>, e: Enc)
    requires e.l < |s| && ModesExclude(e)
    ensures Paid(s, e, LiteralMove(s, e))
  {
    hide SlotWord, CodeWord, GlyphWord, SixNotLower, BACK;
    ControlLengths();
    if !LeavesDigits(s, e) && !LeavesUpper(s, e) && !EntersUpper(s, e) && !EntersDigits(s, e) {
      CharPaid(s, e);
    }
  }

  lemma StepPaid(s: seq<byte>, lines: Lines, cfg: Config, e: Enc)
    requires e.l < |s| && ModesExclude(e)
    ensures Paid(s, e, Step(s, lines, cfg, e))
  {
    hide Step, SlotWord, CodeWord, GlyphWord, CountWord, LiteralMove, RunLength, RepeatsAt, Debt;
    var m := Step(s, lines, cfg, e);
    DebtRange(s, e);
    ControlLengths();
    if !Literal(m.item) { ModesStay(s, lines, cfg, e); }
    if m.item.Repeat? {
      RepeatStep(s, lines, cfg, e);
      LongRun(s, e);
    } else if m.item.Copy? {
      CopyStep(s, lines, cfg, e);
    } else if m.item.LineCopy? {
      LineStep(s, lines, cfg, e);
    } else {
      LiteralStep(s, lines, cfg, e);
      LiteralPaid(s, e);
    }
  }

  lemma ModesStay(s: seq<byte>, lines: Lines, cfg: Config, e: Enc)
    requires e.l < |s| && !Literal(Step(s, lines, cfg, e).item)
    ensures Step(s, lines, cfg, e).next.digits == e.digits
  {
    hide BestLine, FirstFit, Lcp, EntersUpper, LeavesDigits, LeavesUpper, EntersDigits;
  }

  // ----- whole runs -----

  /** For every byte string and after every step: twice the bits written plus the debt are at most 37 per
      byte passed; at the start of a round the debt is 5 in digit state and 0 otherwise. */
  lemma {:induction false} SizeAt(s: seq<byte>, lines: Lines, cfg: Config, k: nat)
    ensures var e, w := StateAt(s, lines, cfg, k), BitsAt(s, lines, cfg, k);
            && e.l <= |s| && ModesExclude(e)
            && 2 * |w| + Debt(s, e) <= 37 * e.l
            && (k == 0 || StateAt(s, lines, cfg, k - 1).l < e.l ==> 2 * |w| + Owed(e.digits) <= 37 * e.l)
  {
    hide Step, ItemWord;
    DebtRange(s, StateAt(s, lines, cfg, k));
    if k > 0 {
      SizeAt(s, lines, cfg, k - 1);
      var e := StateAt(s, lines, cfg, k - 1);
      if e.l < |s| {
        StepLegal(s, lines, cfg, e);
        StepPaid(s, lines, cfg, e);
      }
    }
  }

  /** What is still to be written from a state on. */
  lemma {:induction false} EncodeBound(s: seq<byte>, lines: Lines, cfg: Config, e: Enc)
    requires e.l <= |s| && ModesExclude(e)
    ensures 2 * |Encode(s, lines, cfg, e)| <= 37 * (|s| - e.l) + Debt(s, e)
    decreases |s| - e.l, Rank(s, e)
  {
    hide Step, ItemWord;
    if e.l < |s| {
      var m := Step(s, lines, cfg, e);
      StepLegal(s, lines, cfg, e);
      StepPaid(s, lines, cfg, e);
      DebtRange(s, m.next);
      EncodeBound(s, lines, cfg, m.next);
    }
  }

  /** A buffer of 37 half bits for every byte of the text, in bytes, holds the compressed text. */
  lemma CompressedFits(s: seq<byte>, lines: Lines, cfg: Config, size: nat)
    requires 16 * size >= 37 * |s|
    ensures |Compressed(s, lines, cfg)| <= 8 * size
  {
    hide Encode, Padding, Debt;
    EncodeBound(s, lines, cfg, START);
    DebtRange(s, START);
    var w := Encode(s, lines, cfg, START);
    assert |w| <= 8 * size;
    WholeBytes(|Compressed(s, lines, cfg)|, size);
  }

  lemma WholeBytes(n: nat, size: nat)
    requires n % 8 == 0
    ensures n < 8 * size + 8 ==> n <= 8 * size
  {
  }
}
