/** Where the round trip ends: a text that c_prev spoils, and counts that have no code. */
module Limits {
  import opened Bits
  import opened Codes
  import opened Words
  import opened Reader
  import opened Counts
  import opened Encoding
  import opened Matchers
  import opened Decoding
  import opened Lockstep
  import opened RoundTrip
  import opened Guarantees

  // ----- c_prev after a match -----

  /** Right after a match, where c_prev is two bytes back, a trap makes the compressor repeat the wrong
      byte. */
  lemma TrapAfterMatch(s: seq<byte>, lines: Lines, cfg: Config, e: Enc)
    requires Trap(s, e.l) && e.prev == s[e.l - 2]
    ensures !Faithful(s, lines, cfg, e)
  {
    assert RepeatsAt(s, e.l, e.prev);
  }

  /** A letter that has not occurred before is written as it is. */
  lemma NewLetter(s: seq<byte>, cfg: Config, l: nat, p: byte)
    requires l + 1 < |s| && IsLower(s[l]) && s[l] != s[l + 1] && forall j | 0 <= j < l :: s[j] != s[l]
    ensures Step(s, [], cfg, Enc(l, false, false, p)) == Move(Glyph(s[l]), Enc(l + 1, false, false, s[l]))
  {
    hide Lcp, FirstFit;
    FitStartsEqual(s[..l], s[l..]);
  }

  lemma FitStartsEqual(x: seq<byte>, y: seq<byte>)
    ensures FirstFit(x, y, 7, 0).Some? ==> |y| > 0 && x[FirstFit(x, y, 7, 0).value] == y[0]
  {
    var f := FirstFit(x, y, 7, 0);
    if f.Some? {
      var n := Lcp(x[f.value..], y);
      assert x[f.value..][..n][0] == y[..n][0];
    }
  }

  /** "xyzpqrabxyzpqrabaaaaa" */
  function StaleChar(i: nat): byte {
    match i
    case 0 => 120 case 1 => 121 case 2 => 122 case 3 => 112 case 4 => 113 case 5 => 114 case 6 => 97 case 7 => 98
    case 8 => 120 case 9 => 121 case 10 => 122 case 11 => 112 case 12 => 113 case 13 => 114 case 14 => 97 case 15 => 98
    case _ => 97
  }

  ghost predicate IsStale(s: seq<byte>) {
    |s| == 21 && forall i | 0 <= i < 21 :: s[i] == StaleChar(i)
  }

  lemma StaleCopy(s: seq<byte>, p: byte)
    requires IsStale(s) && p == 98
    ensures Step(s, [], Config(true, true), Enc(8, false, false, p)) == Move(Copy(8, 8), Enc(16, false, false, 97))
  {
    hide Lcp, FirstFit;
    var x, y := s[..8], s[8..];
    assert x == y[..8] && x[0..] == x;
    LcpWhole(x, y);
    FitsAtOnce(x, y);
  }

  lemma LcpWhole(x: seq<byte>, y: seq<byte>)
    requires |x| <= |y| && x == y[..|x|]
    ensures Lcp(x, y) == |x|
  {
    assert x[..|x|] == x;
    LcpUnique(x, y, |x|);
  }

  lemma FitsAtOnce(x: seq<byte>, y: seq<byte>)
    requires |x| > 0 && Lcp(x, y) >= 7
    ensures FirstFit(x, y, 7, 0) == Some(0)
  {
    assert x[0..] == x;
  }

  /** The repeat token at position 16 repeats the b before it, not the a that is meant. */
  lemma StaleRun(s: seq<byte>)
    requires IsStale(s)
    ensures InAlphabet(s) && SizesFit(s, []) && !Faithful(s, [], Config(true, true), START)
  {
    hide Step, LiteralMove;
    var cfg := Config(true, true);
    forall l, p | 0 <= l < 8
      ensures Step(s, [], cfg, Enc(l, false, false, p)) == Move(Glyph(s[l]), Enc(l + 1, false, false, s[l]))
    {
      NewLetter(s, cfg, l, p);
    }
    StaleCopy(s, 98);
    TrapAfterMatch(s, [], cfg, Enc(16, false, false, 97));
    StaleBack(s, cfg, 8, 98);
  }

  /** Unsoundness at the ninth step reaches back to the start. */
  lemma {:induction false} StaleBack(s: seq<byte>, cfg: Config, l: nat, p: byte)
    requires l <= 8 && |s| == 21 && p == if l == 0 then 0 else s[l - 1]
    requires !Faithful(s, [], cfg, Enc(l, false, false, p))
    requires forall l, p | 0 <= l < 8 ::
               Step(s, [], cfg, Enc(l, false, false, p)) == Move(Glyph(s[l]), Enc(l + 1, false, false, s[l]))
    ensures !Faithful(s, [], cfg, START)
    decreases l
  {
    hide Step;
    if l > 0 {
      var q := if l == 1 then 0 else s[l - 2];
      assert Step(s, [], cfg, Enc(l - 1, false, false, q)).next == Enc(l, false, false, p);
      StaleBack(s, cfg, l - 1, q);
    }
  }

  /** A text of README.md's alphabet that is not decompressed to itself. */
  lemma StaleText(s: seq<byte>, z: seq<byte>)
    requires IsStale(s) && IsCompressed(z, s, [], Config(true, true))
    ensures InAlphabet(s) && Decompressed(z, []) != Done(s)
  {
    hide Faithful, AllCountsFit, Decompressed, IsCompressed;
    StaleRun(s);
    SizesFitCounts(s, [], Config(true, true), START);
    RoundTripExact(s, [], Config(true, true), z);
  }

  // ----- counts without a code -----

  /** A long run of the letter a: the letter, and a repeat token whose count is too large to be written. */
  lemma LongRunBits(n: nat, cfg: Config)
    requires n >= COUNT_LIMIT + 5
    ensures Encode(Repeated(97, n), [], cfg, START) == CodeWord(Vertical, 4) + SlotWord(Slot(2, 9))
  {
    hide SlotWord, CodeWord, FirstFit, Lcp, EntersDigits, LeavesDigits, LeavesUpper, EntersUpper;
    var s := Repeated(97, n);
    var e1 := Enc(1, false, false, 97);
    FirstStep(s, cfg);
    assert RepeatsAt(s, 1, 97);
    assert RunLength(s, 1) == n - 1;
    assert Step(s, [], cfg, e1) == Move(Repeat(n - 1), Enc(n, false, false, 97));
    NoCode(n - 5);
    assert ItemWord(Repeat(n - 1), false, false) == SlotWord(Slot(2, 9)) + [];
    assert SlotWord(Slot(2, 9)) + [] == SlotWord(Slot(2, 9));
    assert Encode(s, [], cfg, Enc(n, false, false, 97)) == [];
    assert Encode(s, [], cfg, e1) == SlotWord(Slot(2, 9)) + [];
    LetterA();
  }

  lemma LetterA()
    ensures ItemWord(Glyph(97), false, false) == CodeWord(Vertical, 4)
  {
    hide CodeWord;
  }

  lemma FirstStep(s: seq<byte>, cfg: Config)
    requires |s| > 0 && s[0] == 97
    ensures Step(s, [], cfg, START) == Move(Glyph(97), Enc(1, false, false, 97))
  {
    assert s[..0] == [];
  }

  lemma LongRunCompressed(n: nat, cfg: Config)
    requires n >= COUNT_LIMIT + 5
    ensures Compressed(Repeated(97, n), [], cfg) == CodeWord(Vertical, 4) + (SlotWord(Slot(2, 9)) + [false, false])
  {
    hide Encode;
    var u, v := CodeWord(Vertical, 4), SlotWord(Slot(2, 9));
    LongRunBits(n, cfg);
    PadSpelt();
    assert |u + v| == 14;
    assert PAD[..2] == [false, false];
    ConcatAssoc(u, v, [false, false]);
  }

  /** Two padding bits after a repeat token: the row code of a count and one bit of two. */
  lemma CountCutOff(bits: Word, d: Dec)
    requires |bits| == 16 && StartsAt(bits, 14, [false, false])
    ensures RepeatRound(bits, d, 14) == Fault
  {
    hide ReadCode, FromBin;
    CodeWordSpelt(Horizontal, 1);
    assert bits[14..15] == bits[14..16][..1] == [false];
    ReadWord(Horizontal, bits, 14, 1);
  }

  /** From 70313 letters a on, what the compressor writes makes the decompressor read beyond it. */
  lemma LongRunLost(n: nat, cfg: Config, z: seq<byte>)
    requires n >= COUNT_LIMIT + 5 && IsCompressed(z, Repeated(97, n), [], cfg)
    ensures Decompressed(z, []) == Crash
  {
    hide Compressed, CodeWord, SlotWord, DecStep, RepeatRound, ItemWord;
    var bits, d := BitsOf(z), Dec(4, false, false, [97]);
    var u, v := CodeWord(Vertical, 4), SlotWord(Slot(2, 9)) + [false, false];
    LongRunCompressed(n, cfg);
    LongRunLengths();
    assert bits[0..|bits|] == u + v;
    StartsAtSplit(bits, 0, u, v);
    LetterA();
    ReadsItem(bits, [], BEGIN, Glyph(97));
    ReadsSlot(bits, [], d, Slot(2, 9), [false, false]);
    CountCutOff(bits, d);
    assert DecStep(bits, [], BEGIN) == Next(d);
    assert Decode(bits, [], d) == Crash;
  }

  lemma LongRunLengths()
    ensures |CodeWord(Vertical, 4)| == 4 && |SlotWord(Slot(2, 9))| == 10
  {
  }

  // ----- a count without a code at the end -----

  /** What readCount makes of the padding, or of nothing. */
  lemma PadCount(bits: Word, pos: nat, k: nat)
    requires Padded(bits, pos, k)
    ensures k == 0 ==> ReadCount(bits, pos) == Number(0, |bits|)
    ensures k == 1 || k == 2 ==> ReadCount(bits, pos) == Overrun
    ensures k >= 3 ==> ReadCount(bits, pos) == Number(1, pos + 3)
  {
    hide ReadCode;
    if k == 0 {
      EofAtEnd(Horizontal, bits, pos);
    } else {
      assert PAD[0] == false;
      CodeWordSpelt(Horizontal, 1);
      assert bits[pos..pos + 1] == [false];
      ReadWord(Horizontal, bits, pos, 1);
      if k >= 3 {
        assert PAD[1] == false && PAD[2] == true;
        assert bits[pos + 1..pos + 3] == [false, true];
        OneInTwoBits();
      }
    }
  }

  lemma OneInTwoBits()
    ensures FromBin([false, true]) == 1
  {
    assert [false, true][..1] == [false] && [false][..0] == [];
  }

  /** The same behind the first three bits of the padding. */
  lemma PadCountAgain(bits: Word, pos: nat, k: nat)
    requires Padded(bits, pos, k) && k >= 3
    ensures ReadCount(bits, pos + 3) == if k <= 4 then Number(0, |bits|) else Overrun
  {
    hide ReadCode;
    assert PAD[3] == true && PAD[4] == false;
    if k == 3 {
      EofAtEnd(Horizontal, bits, pos + 3);
    } else if k == 4 {
      EofOnOnes(Horizontal, bits, pos + 3);
    } else {
      CodeWordSpelt(Horizontal, 0);
      assert bits[pos + 3..pos + 5] == [true, false];
      ReadWord(Horizontal, bits, pos + 3, 0);
    }
  }

  /** Four bits at the end, the first of them a one, are one character at most. */
  lemma ShortTail(bits: Word, lines: Lines, d: Dec)
    requires d.pos <= |bits| <= d.pos + 4 && (d.pos < |bits| ==> bits[d.pos])
    ensures Decode(bits, lines, d).Done? ==> |Decode(bits, lines, d).out| <= |d.out| + 1
  {
    hide ReadCode, CodeWord, DecStep;
    if d.pos < |bits| {
      var r := ReadCode(Vertical, bits, d.pos);
      if r == Eof {
        assert DecStep(bits, lines, d) == Stop by { FirstEof(bits, lines, d); }
      } else {
        OneGlyph(bits, lines, d, r.idx, r.next);
        var r' := DecStep(bits, lines, d);
        if r'.d.pos < |bits| {
          EofOnOnes(Vertical, bits, r'.d.pos);
          assert DecStep(bits, lines, r'.d) == Stop by { FirstEof(bits, lines, r'.d); }
        }
      }
    }
  }

  lemma FirstEof(bits: Word, lines: Lines, d: Dec)
    requires ReadCode(Vertical, bits, d.pos) == Eof && d.pos < |bits|
    ensures DecStep(bits, lines, d) == Stop
  {
    hide ReadCode, Deliver;
  }

  lemma OneGlyph(bits: Word, lines: Lines, d: Dec, v: nat, p: nat)
    requires d.pos < |bits| && bits[d.pos] && ReadCode(Vertical, bits, d.pos) == Got(v, p)
    ensures var r := DecStep(bits, lines, d);
            r.Next? && |r.d.out| == |d.out| + 1 && r.d.pos == p && d.pos + 3 <= p
  {
    hide ReadCode;
    ReadCodeExact(Vertical, bits, d.pos, v, p);
    CodeWordSpelt(Vertical, v);
    assert bits[d.pos..p][0] == bits[d.pos];
  }

  /** A repeat token without its count, at the end: the run is too short, or the read leaves the input. */
  lemma NoCodeRepeat(bits: Word, s: seq<byte>, lines: Lines, d: Dec, k: nat)
    requires StartsAt(bits, d.pos, SlotWord(Slot(2, 9))) && Padded(bits, d.pos + 10, k)
    requires |d.out| + 7 <= |s|
    ensures Decode(bits, lines, d) != Done(s)
  {
    hide ReadCode, DecStep, SlotWord, SlotLen, ReadCount;
    var w, p := SlotWord(Slot(2, 9)), d.pos + 10;
    LongRunLengths();
    assert w + [] == w;
    ReadsSlot(bits, lines, d, Slot(2, 9), []);
    assert DecStep(bits, lines, d) == RepeatRound(bits, d, p) by { RepeatIsNine(bits, lines, d, p); }
    PadCount(bits, p, k);
    var r := RepeatRound(bits, d, p);
    if r.Next? {
      assert k >= 4 ==> bits[p + 3] == PAD[3] == true;
      ShortTail(bits, lines, r.d);
    }
  }

  lemma RepeatIsNine(bits: Word, lines: Lines, d: Dec, p: nat)
    requires p <= |bits|
    ensures SlotLen(Slot(2, 9)) == 10 && Deliver(bits, lines, d, p, 2, 9, d.upper) == RepeatRound(bits, d, p)
  {
    hide ReadCount;
  }

  /** A copy token without its distance, or without both counts, at the end: too close to what it names. */
  lemma NoCodeCopy(bits: Word, lines: Lines, d: Dec, n: nat, back: nat, w: Word, k: nat)
    requires 8 <= n <= back && back >= COUNT_LIMIT + 6 && w == CountWord(n - 7)
    requires StartsAt(bits, d.pos, SlotWord(Slot(2, 8)) + [true] + w) && Padded(bits, d.pos + 10 + |w|, k)
    ensures Decode(bits, lines, d) == Crash
  {
    hide ReadCode, DecStep, SlotWord, ReadCount, CountWord;
    var p := d.pos + 10;
    ReadsCopyBit(bits, lines, d, true, w);
    PadCount(bits, p + |w|, k);
    if n - 7 < COUNT_LIMIT {
      CountRoundTrip(n - 7, bits, p);
    } else {
      NoCode(n - 7);
      PadCount(bits, p, k);
      if k == 0 {
        PadCount(bits, |bits|, 0);
      } else if k >= 3 {
        PadCountAgain(bits, p, k);
      }
    }
    assert CopyRound(bits, d, p) == Fault;
  }

  /** The first item of the run that has a count without a code is a repeat or a copy, and the last item. */
  predicate EndsWithoutCode(s: seq<byte>, lines: Lines, cfg: Config, e: Enc)
    decreases |s| - e.l, Rank(s, e)
  {
    && e.l < |s|
    && var m := Step(s, lines, cfg, e);
       if CountsFit(m.item) then EndsWithoutCode(s, lines, cfg, m.next)
       else m.next.l == |s| && !m.item.LineCopy?
  }

  lemma LastWithoutCode(bits: Word, s: seq<byte>, lines: Lines, cfg: Config, e: Enc, d: Dec)
    requires e.l < |s| && Follows(bits, d.pos, s, lines, cfg, e) && |d.out| <= e.l
    requires var m := Step(s, lines, cfg, e); !CountsFit(m.item) && m.next.l == |s| && !m.item.LineCopy?
    ensures Decode(bits, lines, d) != Done(s)
  {
    hide Step, ItemWord, Decode, Padded, SlotWord, CountWord;
    var m := Step(s, lines, cfg, e);
    var w := ItemWord(m.item, e.digits, e.upper);
    FollowsNext(bits, d.pos, s, lines, cfg, e);
    LastBits(bits, d.pos + |w|, s, lines, cfg, m.next);
    var k := |bits| - d.pos - |w|;
    LongRunLengths();
    if m.item.Repeat? {
      RepeatStep(s, lines, cfg, e);
      RepeatWithoutCode(m.item.n, e.digits, e.upper);
      NoCodeRepeat(bits, s, lines, d, k);
    } else {
      CopyStep(s, lines, cfg, e);
      CopyLeavesSome(s, lines, cfg, e);
      CopyWithoutCode(m.item.n, m.item.back, e.digits, e.upper);
      NoCodeCopy(bits, lines, d, m.item.n, m.item.back, CountWord(m.item.n - 7), k);
    }
  }

  lemma RepeatWithoutCode(n: nat, digits: bool, upper: bool)
    requires n >= COUNT_LIMIT + 4
    ensures ItemWord(Repeat(n), digits, upper) == SlotWord(Slot(2, 9))
  {
    hide SlotWord;
    NoCode(n - 4);
    assert SlotWord(Slot(2, 9)) + [] == SlotWord(Slot(2, 9));
  }

  lemma CopyWithoutCode(n: nat, back: nat, digits: bool, upper: bool)
    requires 7 <= n && back >= COUNT_LIMIT + 6
    ensures ItemWord(Copy(n, back), digits, upper) == SlotWord(Slot(2, 8)) + [true] + CountWord(n - 7)
    ensures |SlotWord(Slot(2, 8)) + [true]| == 10
  {
    hide SlotWord, CountWord;
    NoCode(back - 6);
    assert CountWord(n - 7) + [] == CountWord(n - 7);
    assert |SlotWord(Slot(2, 8))| == 9 by { NineBits(); }
  }

  lemma NineBits()
    ensures |SlotWord(Slot(2, 8))| == 9
  {
  }

  /** Matches are searched only where more than seven bytes are left. */
  lemma CopyLeavesSome(s: seq<byte>, lines: Lines, cfg: Config, e: Enc)
    requires e.l < |s| && Step(s, lines, cfg, e).item.Copy?
    ensures e.l + 7 < |s|
  {
    hide BestLine, FirstFit, Lcp, RepeatsAt, RunLength, EntersUpper, LeavesDigits, LeavesUpper, EntersDigits;
  }

  lemma {:induction false} NeverRightAgain(bits: Word, s: seq<byte>, lines: Lines, cfg: Config, e: Enc, d: Dec)
    requires e.l <= |s| && ModesExclude(e) && SameModes(e, d) && Follows(bits, d.pos, s, lines, cfg, e)
    requires EndsWithoutCode(s, lines, cfg, e)
    requires d.out == s[..e.l] || Behind(d.out, s, e.l)
    ensures Decode(bits, lines, d) != Done(s)
    decreases |s| - e.l, Rank(s, e)
  {
    hide ItemWord, Step, Follows, DecStep, Legal, Sound, CountsFit;
    var m := Step(s, lines, cfg, e);
    if !CountsFit(m.item) {
      LastWithoutCode(bits, s, lines, cfg, e, d);
    } else {
      StepLegal(s, lines, cfg, e);
      FollowsNext(bits, d.pos, s, lines, cfg, e);
      AfterRound(bits, s, lines, cfg, e, d);
      if m.item.Dropped? {
        DropKeeps(s, lines, cfg, e, d);
        NeverRightAgain(bits, s, lines, cfg, m.next, d);
      } else {
        ReadsItem(bits, lines, d, m.item);
        var r := Effect(m.item, lines, d);
        if r.Next? {
          EffectModes(m.item, lines, d);
          NeverRightAgain(bits, s, lines, cfg, m.next, r.d);
        }
      }
    }
  }

  /** A text whose last item is a repeat or a copy, and the first one with a count without a code, never comes
      back. */
  lemma WithoutCodeLost(s: seq<byte>, lines: Lines, cfg: Config, z: seq<byte>)
    requires IsCompressed(z, s, lines, cfg) && EndsWithoutCode(s, lines, cfg, START)
    ensures Decompressed(z, lines) != Done(s)
  {
    hide Decode, Compressed, EndsWithoutCode, Follows;
    CompressedFollows(s, lines, cfg);
    assert s[..0] == [];
    NeverRightAgain(BitsOf(z), s, lines, cfg, START, BEGIN);
  }

  /** A run of one byte, any byte, that is not matched with a line: mode switches, the byte, and one token. */
  lemma {:induction false} RunEndsWithoutCode(c: byte, n: nat, lines: Lines, cfg: Config, e: Enc)
    requires n >= COUNT_LIMIT + 5 && (lines == [] || !cfg.earlier)
    requires e.l <= 1 && e.prev == (if e.l == 0 then 0 else c)
    ensures EndsWithoutCode(Repeated(c, n), lines, cfg, e)
    decreases n - e.l, Rank(Repeated(c, n), e)
  {
    hide Step, LiteralMove;
    var s := Repeated(c, n);
    if e.prev == c {
      RunToken(c, n, lines, cfg, e);
    } else {
      RunByte(c, n, lines, cfg, e);
      RunEndsWithoutCode(c, n, lines, cfg, Step(s, lines, cfg, e).next);
    }
  }

  lemma RunToken(c: byte, n: nat, lines: Lines, cfg: Config, e: Enc)
    requires n >= COUNT_LIMIT + 5 && e.l <= 1 && e.prev == c
    ensures var m := Step(Repeated(c, n), lines, cfg, e);
            m.item == Repeat(n - e.l) && !CountsFit(m.item) && m.next.l == n
  {
    hide BestLine, FirstFit, Lcp, LiteralMove;
    assert RunLength(Repeated(c, n), e.l) == n - e.l;
  }

  lemma RunByte(c: byte, n: nat, lines: Lines, cfg: Config, e: Enc)
    requires n >= 2 && (lines == [] || !cfg.earlier) && e.l == 0 && e.prev == 0 != c
    ensures var m := Step(Repeated(c, n), lines, cfg, e);
            CountsFit(m.item) && m.next.l <= 1 && m.next.prev == if m.next.l == 0 then 0 else c
  {
    hide EntersUpper, LeavesDigits, LeavesUpper, EntersDigits;
    var s := Repeated(c, n);
    assert s[..0] == [];
  }

  /** From 70313 equal bytes on, a run never comes back. */
  lemma AnyLongRunLost(c: byte, n: nat, lines: Lines, cfg: Config, z: seq<byte>)
    requires n >= COUNT_LIMIT + 5 && (lines == [] || !cfg.earlier)
    requires IsCompressed(z, Repeated(c, n), lines, cfg)
    ensures Decompressed(z, lines) != Done(Repeated(c, n))
  {
    hide Decompressed, IsCompressed, EndsWithoutCode;
    RunEndsWithoutCode(c, n, lines, cfg, START);
    WithoutCodeLost(Repeated(c, n), lines, cfg, z);
  }

  // ----- a line number without a code that does no harm -----

  lemma {:induction false} LastOfSameLines(s: seq<byte>, lines: Lines, k: nat, best: Option<LineMatch>)
    requires |s| >= 12 && (forall i | 0 <= i < |lines| :: lines[i] == s) && k <= |lines| && |lines| > 0
    requires best == if k == 0 then None else Some(LineMatch(|s|, 0, k - 1))
    ensures BestLine(lines, s, k, best) == Some(LineMatch(|s|, 0, |lines| - 1))
    decreases |lines| - k
  {
    hide Lcp, FirstFit;
    if k < |lines| {
      assert s[0..] == s;
      FitsItself(s);
      LastOfSameLines(s, lines, k + 1, TryLine(lines[k], s, k, best));
    }
  }

  lemma FitsItself(s: seq<byte>)
    requires |s| >= 12
    ensures Lcp(s, s) == |s| && FirstFit(s, s, NICE_LEN_FOR_OTHER, 0) == Some(0)
  {
    LcpWhole(s, s);
    assert s[0..] == s;
  }

  /** Among more than 70308 equal lines the last one is named, and its number has no code; the decompressor
      takes the first one. So a count without a code need not spoil a text. */
  lemma SameLinesComeBack(s: seq<byte>, lines: Lines, cfg: Config, z: seq<byte>)
    requires |s| == 13 && s[0] != 0 && cfg.earlier
    requires |lines| > COUNT_LIMIT && forall i | 0 <= i < |lines| :: lines[i] == s
    requires IsCompressed(z, s, lines, cfg)
    ensures !AllCountsFit(s, lines, cfg, START) && Decompressed(z, lines) == Done(s)
  {
    hide Compressed, DecStep, CountWord, SlotWord, Step, ItemWord, BitsOf;
    SameLinesStep(s, lines, cfg);
    SameLinesBits(s, lines, cfg);
    NoCodeForLast(s, lines, cfg);
    SameLinesRound(BitsOf(z), s, lines, CountWord(1) + CountWord(0));
  }

  lemma NoCodeForLast(s: seq<byte>, lines: Lines, cfg: Config)
    requires |s| > 0 && |lines| > COUNT_LIMIT && Step(s, lines, cfg, START).item == LineCopy(13, 0, |lines| - 1)
    ensures !AllCountsFit(s, lines, cfg, START)
  {
    hide Step;
  }

  lemma SameLinesRound(bits: Word, s: seq<byte>, lines: Lines, w: Word)
    requires |s| == 13 && |lines| > 0 && lines[0] == s && |bits| == 16
    requires w == CountWord(1) + CountWord(0) && |CountWord(1)| == |CountWord(0)| == 3
    requires bits == SlotWord(Slot(2, 8)) + [false] + w
    ensures Decode(bits, lines, BEGIN) == Done(s)
  {
    hide DecStep, CountWord, SlotWord, ReadCount, ReadCode;
    var d := Dec(16, false, false, s);
    assert bits[0..|bits|] == bits;
    ReadsCopyBit(bits, lines, BEGIN, false, w);
    StartsAtSplit(bits, 10, CountWord(1), CountWord(0));
    CountRoundTrip(1, bits, 10);
    CountRoundTrip(0, bits, 13);
    PadCount(bits, 16, 0);
    assert lines[0][0..13] == s && [] + s == s;
    assert DecStep(bits, lines, BEGIN) == Next(d);
    assert Decode(bits, lines, d) == Done(s);
  }

  lemma SameLinesStep(s: seq<byte>, lines: Lines, cfg: Config)
    requires |s| == 13 && s[0] != 0 && cfg.earlier
    requires |lines| > COUNT_LIMIT && forall i | 0 <= i < |lines| :: lines[i] == s
    ensures Step(s, lines, cfg, START) == Move(LineCopy(13, 0, |lines| - 1), Enc(13, false, false, s[11]))
  {
    hide Lcp, BestLine, TryLine, LiteralMove;
    assert s[0..] == s && s[..0] == [];
    LastOfSameLines(s, lines, 0, None);
  }

  /** The token is two bytes long, so there is no padding. */
  lemma SameLinesBits(s: seq<byte>, lines: Lines, cfg: Config)
    requires |s| == 13 && |lines| > COUNT_LIMIT
    requires Step(s, lines, cfg, START) == Move(LineCopy(13, 0, |lines| - 1), Enc(13, false, false, s[11]))
    ensures Compressed(s, lines, cfg) == SlotWord(Slot(2, 8)) + [false] + (CountWord(1) + CountWord(0))
    ensures |CountWord(1)| == 3 && |CountWord(0)| == 3 && |SlotWord(Slot(2, 8))| == 9
  {
    hide Step, SlotWord, CountWord;
    var w := SlotWord(Slot(2, 8)) + [false] + (CountWord(1) + CountWord(0));
    NoCode(|lines| - 1);
    assert CountWord(0) + [] == CountWord(0);
    assert Encode(s, lines, cfg, Enc(13, false, false, s[11])) == [];
    assert Encode(s, lines, cfg, START) == w + [];
    assert w + [] == w;
    NineBits();
    ShortCounts();
  }

  lemma ShortCounts()
    ensures |CountWord(1)| == 3 && |CountWord(0)| == 3
  {
  }
}
