/** What the codec promises, for whole texts. */
module Guarantees {
  import opened Bits
  import opened Codes
  import opened Counts
  import opened Encoding
  import opened Decoding
  import opened Lockstep
  import opened RoundTrip

  // ----- the round trip -----

  /** `z` is what the compressor leaves in the output buffer. */
  ghost predicate IsCompressed(z: seq<byte>, s: seq<byte>, lines: Lines, cfg: Config) {
    BitsOf(z) == Compressed(s, lines, cfg)
  }

  lemma CompressedFollows(s: seq<byte>, lines: Lines, cfg: Config)
    ensures Follows(Compressed(s, lines, cfg), 0, s, lines, cfg, START)
  {
    hide Encode, SlotWord;
    var w := Encode(s, lines, cfg, START);
    var pad := Padding(|w|);
    var bits := w + pad;
    PadSpelt();
    assert bits[0..|w|] == w;
    forall i {:trigger PAD[i]} | 0 <= i < |pad|
      ensures bits[|w| + i] == PAD[i]
    {
      assert bits[|w| + i] == pad[i];
    }
  }

  /** Decompressing a compressed text gives the text back, with its exact length, if and only if every
      step of the compressor was sound; in no case does it give more bytes than the text has. */
  lemma RoundTripExact(s: seq<byte>, lines: Lines, cfg: Config, z: seq<byte>)
    requires IsCompressed(z, s, lines, cfg) && AllCountsFit(s, lines, cfg, START)
    ensures Decompressed(z, lines) == Done(s) <==> Faithful(s, lines, cfg, START)
    ensures Decompressed(z, lines).Done? ==> |Decompressed(z, lines).out| <= |s|
  {
    hide Decode, Compressed, Faithful, AllCountsFit, Follows;
    CompressedFollows(s, lines, cfg);
    assert s[..0] == [];
    Simulate(BitsOf(z), s, lines, cfg, START, BEGIN);
  }

  // ----- when all counts fit -----

  /** Sizes for which no count reaches 70308. */
  predicate SizesFit(s: seq<byte>, lines: Lines) {
    && |s| < COUNT_LIMIT + 4
    && |lines| <= COUNT_LIMIT
    && forall i | 0 <= i < |lines| :: |lines[i]| < COUNT_LIMIT + 12
  }

  lemma {:induction false} SizesFitCounts(s: seq<byte>, lines: Lines, cfg: Config, e: Enc)
    requires SizesFit(s, lines)
    ensures AllCountsFit(s, lines, cfg, e)
    decreases |s| - e.l, Rank(s, e)
  {
    hide Step;
    if e.l < |s| {
      var m := Step(s, lines, cfg, e);
      if m.item.Repeat? {
        RepeatStep(s, lines, cfg, e);
      } else if m.item.Copy? {
        CopyStep(s, lines, cfg, e);
      } else if m.item.LineCopy? {
        LineStep(s, lines, cfg, e);
      }
      SizesFitCounts(s, lines, cfg, m.next);
    }
  }

  // ----- when all steps are sound -----

  /** The characters that README.md promises: ASCII 32 to 126, CR, LF and TAB. */
  predicate InAlphabet(s: seq<byte>) {
    forall i | 0 <= i < |s| :: IsPrintable(s[i]) || s[i] == 13 || s[i] == 10 || s[i] == 9
  }

  /** A byte, another one, and the first four times again. */
  predicate Trap(s: seq<byte>, l: nat) {
    && 2 <= l && l + 4 < |s|
    && s[l - 1] != s[l] && s[l - 2] == s[l]
    && s[l] == s[l + 1] && s[l] == s[l + 2] && s[l] == s[l + 3]
  }

  /** c_prev is the byte before `l`, or the one before that. */
  predicate PrevIsNear(s: seq<byte>, e: Enc)
    requires e.l <= |s|
  {
    if e.l == 0 then e.prev == 0
    else e.prev == s[e.l - 1] || (e.l >= 2 && e.prev == s[e.l - 2])
  }

  lemma StepKeepsPrevNear(s: seq<byte>, lines: Lines, cfg: Config, e: Enc)
    requires e.l < |s| && PrevIsNear(s, e)
    ensures PrevIsNear(s, Step(s, lines, cfg, e).next)
  {
    hide Step, LiteralMove;
    var m := Step(s, lines, cfg, e);
    if m.item.Repeat? {
      RepeatStep(s, lines, cfg, e);
      RepeatPrev(s, lines, cfg, e);
    } else if m.item.Copy? || m.item.LineCopy? {
      MatchPrev(s, lines, cfg, e);
    } else {
      LiteralStep(s, lines, cfg, e);
      LiteralPrev(s, e);
    }
  }

  lemma RepeatPrev(s: seq<byte>, lines: Lines, cfg: Config, e: Enc)
    requires e.l < |s| && Step(s, lines, cfg, e).item.Repeat?
    ensures Step(s, lines, cfg, e).next.prev == e.prev && RunLength(s, e.l) >= 4
  {
    hide BestLine, FirstFit, Lcp, EntersUpper, LeavesDigits, LeavesUpper, EntersDigits;
  }

  lemma MatchPrev(s: seq<byte>, lines: Lines, cfg: Config, e: Enc)
    requires e.l < |s| && (Step(s, lines, cfg, e).item.Copy? || Step(s, lines, cfg, e).item.LineCopy?)
    ensures var e' := Step(s, lines, cfg, e).next; e.l + 2 <= e'.l <= |s| && e'.prev == s[e'.l - 2]
  {
    hide BestLine, FirstFit, Lcp, RepeatsAt, EntersUpper, LeavesDigits, LeavesUpper, EntersDigits;
    BestLineIsMatch(lines, s[e.l..], 0, None);
  }

  lemma LiteralPrev(s: seq<byte>, e: Enc)
    requires e.l < |s| && PrevIsNear(s, e)
    ensures var e' := LiteralMove(s, e).next; e'.l <= |s| && PrevIsNear(s, e')
  {
    hide EntersUpper, LeavesDigits, LeavesUpper, EntersDigits;
  }

  /** In-alphabet characters are never dropped. */
  lemma NoDrop(s: seq<byte>, lines: Lines, cfg: Config, e: Enc)
    requires e.l < |s| && InAlphabet(s)
    ensures !Step(s, lines, cfg, e).item.Dropped?
  {
    hide BestLine, FirstFit, Lcp, EntersUpper, LeavesDigits, LeavesUpper, EntersDigits;
  }

  /** A text in the alphabet without such a spot is compressed soundly, whatever is matched. */
  lemma {:induction false} NoTrapFaithful(s: seq<byte>, lines: Lines, cfg: Config, e: Enc)
    requires InAlphabet(s) && (forall l :: !Trap(s, l))
    requires e.l <= |s| && PrevIsNear(s, e)
    ensures Faithful(s, lines, cfg, e)
    decreases |s| - e.l, Rank(s, e)
  {
    hide Step, InAlphabet;
    if e.l < |s| {
      var m := Step(s, lines, cfg, e);
      NoDrop(s, lines, cfg, e);
      StepKeepsPrevNear(s, lines, cfg, e);
      if m.item.Repeat? {
        RepeatStep(s, lines, cfg, e);
        assert s[e.l] != 0 by { AlphabetHasNoZero(s, e.l); }
        assert !Trap(s, e.l);
      }
      NoTrapFaithful(s, lines, cfg, m.next);
    }
  }

  lemma AlphabetHasNoZero(s: seq<byte>, l: nat)
    requires InAlphabet(s) && l < |s|
    ensures s[l] != 0
  {
  }

  /** For a text in the alphabet, the one thing that makes a step unsound is such a spot right behind the two
      bytes after which c_prev lags: the end of a match. */
  lemma UnsoundIsTrap(s: seq<byte>, lines: Lines, cfg: Config, e: Enc)
    requires e.l < |s| && InAlphabet(s) && PrevIsNear(s, e)
    ensures !Sound(s, e, Step(s, lines, cfg, e).item) <==> Trap(s, e.l) && e.prev == s[e.l - 2]
  {
    hide Step, InAlphabet;
    NoDrop(s, lines, cfg, e);
    AlphabetHasNoZero(s, e.l);
    RepeatIff(s, lines, cfg, e);
  }

  lemma RepeatIff(s: seq<byte>, lines: Lines, cfg: Config, e: Enc)
    requires e.l < |s|
    ensures Step(s, lines, cfg, e).item.Repeat? <==> RepeatsAt(s, e.l, e.prev)
  {
    hide BestLine, FirstFit, Lcp, EntersUpper, LeavesDigits, LeavesUpper, EntersDigits;
  }

  /** Such a text comes back, for any earlier lines and any matching, if the sizes fit. */
  lemma AlphabetRoundTrip(s: seq<byte>, lines: Lines, cfg: Config, z: seq<byte>)
    requires InAlphabet(s) && (forall l :: !Trap(s, l)) && SizesFit(s, lines)
    requires IsCompressed(z, s, lines, cfg)
    ensures Decompressed(z, lines) == Done(s)
  {
    hide IsCompressed, AllCountsFit, Faithful, Decompressed;
    SizesFitCounts(s, lines, cfg, START);
    NoTrapFaithful(s, lines, cfg, START);
    RoundTripExact(s, lines, cfg, z);
  }

  /** No match of the run from `e` on ends right before a trap. */
  predicate NoMatchAtTrap(s: seq<byte>, lines: Lines, cfg: Config, e: Enc)
    decreases |s| - e.l, Rank(s, e)
  {
    e.l < |s| ==>
      var m := Step(s, lines, cfg, e);
      && (m.item.Copy? || m.item.LineCopy? ==> !Trap(s, m.next.l))
      && NoMatchAtTrap(s, lines, cfg, m.next)
  }

  /** c_prev does not lag at a trap. */
  predicate Clear(s: seq<byte>, e: Enc)
    requires e.l <= |s|
  {
    PrevIsNear(s, e) && !(Trap(s, e.l) && e.prev == s[e.l - 2])
  }

  /** A step that is no match keeps c_prev clear of traps. */
  lemma StepStaysClear(s: seq<byte>, lines: Lines, cfg: Config, e: Enc)
    requires e.l < |s| && Clear(s, e)
    requires var m := Step(s, lines, cfg, e); !m.item.Copy? && !m.item.LineCopy?
    ensures Clear(s, Step(s, lines, cfg, e).next)
  {
    hide Step, LiteralMove;
    StepKeepsPrevNear(s, lines, cfg, e);
    var m := Step(s, lines, cfg, e);
    if m.item.Repeat? {
      RepeatStep(s, lines, cfg, e);
      RepeatPrev(s, lines, cfg, e);
      assert s[m.next.l - 1] == s[m.next.l - 2] == s[e.l];
    } else {
      LiteralStep(s, lines, cfg, e);
      LiteralClear(s, e);
    }
  }

  lemma LiteralClear(s: seq<byte>, e: Enc)
    requires e.l < |s|
    ensures var e' := LiteralMove(s, e).next;
            (e'.l == e.l && e'.prev == e.prev) || (e.l < e'.l <= |s| && e'.prev == s[e'.l - 1])
  {
    hide EntersUpper, LeavesDigits, LeavesUpper, EntersDigits;
  }

  /** For a text in the alphabet, the run is sound if and only if none of its matches ends at a trap. */
  lemma {:induction false} FaithfulIffNoMatchAtTrap(s: seq<byte>, lines: Lines, cfg: Config, e: Enc)
    requires InAlphabet(s) && e.l <= |s| && Clear(s, e)
    ensures Faithful(s, lines, cfg, e) <==> NoMatchAtTrap(s, lines, cfg, e)
    decreases |s| - e.l, Rank(s, e)
  {
    hide Step, InAlphabet, Trap, Sound;
    if e.l < |s| {
      var m := Step(s, lines, cfg, e);
      UnsoundIsTrap(s, lines, cfg, e);
      StepKeepsPrevNear(s, lines, cfg, e);
      if m.item.Copy? || m.item.LineCopy? {
        MatchPrev(s, lines, cfg, e);
        if Trap(s, m.next.l) {
          TrapStops(s, lines, cfg, m.next);
        } else {
          FaithfulIffNoMatchAtTrap(s, lines, cfg, m.next);
        }
      } else {
        StepStaysClear(s, lines, cfg, e);
        FaithfulIffNoMatchAtTrap(s, lines, cfg, m.next);
      }
    }
  }

  /** So a text in the alphabet comes back if and only if no match of its run ends at a trap. */
  lemma AlphabetExact(s: seq<byte>, lines: Lines, cfg: Config, z: seq<byte>)
    requires InAlphabet(s) && IsCompressed(z, s, lines, cfg) && AllCountsFit(s, lines, cfg, START)
    ensures Decompressed(z, lines) == Done(s) <==> NoMatchAtTrap(s, lines, cfg, START)
  {
    hide IsCompressed, AllCountsFit, Faithful, Decompressed, NoMatchAtTrap, InAlphabet;
    RoundTripExact(s, lines, cfg, z);
    FaithfulIffNoMatchAtTrap(s, lines, cfg, START);
  }

  lemma TrapStops(s: seq<byte>, lines: Lines, cfg: Config, e: Enc)
    requires InAlphabet(s) && e.l <= |s| && PrevIsNear(s, e) && Trap(s, e.l) && e.prev == s[e.l - 2]
    ensures !Faithful(s, lines, cfg, e)
  {
    hide Step, InAlphabet;
    UnsoundIsTrap(s, lines, cfg, e);
  }

  // ----- matching off -----

  predicate MatchingOff(cfg: Config, lines: Lines) {
    !cfg.within && (!cfg.earlier || lines == [])
  }

  /** Without matching, c_prev is always the byte before: every text in the alphabet is compressed
      soundly. */
  lemma {:induction false} MatchingOffFaithful(s: seq<byte>, lines: Lines, cfg: Config, e: Enc)
    requires InAlphabet(s) && MatchingOff(cfg, lines)
    requires e.l <= |s| && e.prev == if e.l == 0 then 0 else s[e.l - 1]
    ensures Faithful(s, lines, cfg, e)
    decreases |s| - e.l, Rank(s, e)
  {
    hide Step, InAlphabet;
    if e.l < |s| {
      var m := Step(s, lines, cfg, e);
      NoDrop(s, lines, cfg, e);
      OffKeepsPrev(s, lines, cfg, e);
      AlphabetHasNoZero(s, e.l);
      if m.item.Repeat? {
        RepeatStep(s, lines, cfg, e);
      }
      MatchingOffFaithful(s, lines, cfg, m.next);
    }
  }

  lemma OffKeepsPrev(s: seq<byte>, lines: Lines, cfg: Config, e: Enc)
    requires e.l < |s| && MatchingOff(cfg, lines)
    requires e.prev == if e.l == 0 then 0 else s[e.l - 1]
    ensures var e' := Step(s, lines, cfg, e).next;
            e'.prev == if e'.l == 0 then 0 else s[e'.l - 1]
  {
    hide EntersUpper, LeavesDigits, LeavesUpper, EntersDigits;
  }

  predicate LinesInAlphabet(lines: Lines) {
    forall i | 0 <= i < |lines| :: InAlphabet(lines[i])
  }

  lemma PartIn(s: seq<byte>, i: nat, j: nat)
    requires InAlphabet(s) && i <= j <= |s|
    ensures InAlphabet(s[i..j])
  {
  }

  lemma BothIn(s: seq<byte>, l: nat, m: nat)
    requires l <= m <= |s| && InAlphabet(s[..l]) && InAlphabet(s[l..m])
    ensures InAlphabet(s[..m])
  {
    assert s[..m] == s[..l] + s[l..m];
  }

  lemma RunIn(s: seq<byte>, l: nat, n: nat)
    requires 0 < l && l + n <= |s| && InAlphabet(s[..l]) && forall i | l <= i < l + n :: s[i] == s[l - 1]
    ensures InAlphabet(s[l..l + n])
  {
    assert s[..l][l - 1] == s[l - 1];
  }

  /** A sound step from a text in the alphabet leads to a longer one. */
  lemma StepStaysIn(s: seq<byte>, lines: Lines, cfg: Config, e: Enc)
    requires e.l < |s| && (cfg.earlier ==> LinesInAlphabet(lines)) && InAlphabet(s[..e.l])
    requires Sound(s, e, Step(s, lines, cfg, e).item)
    ensures var l := Step(s, lines, cfg, e).next.l; l <= |s| && InAlphabet(s[..l])
  {
    hide Step, LiteralMove, RunLength, InAlphabet;
    var m := Step(s, lines, cfg, e);
    if m.item.Repeat? {
      RepeatStep(s, lines, cfg, e);
      RunIn(s, e.l, m.item.n);
    } else if m.item.Copy? {
      CopyStep(s, lines, cfg, e);
      var from := e.l - m.item.back;
      PartIn(s[..e.l], from, from + m.item.n);
      assert s[..e.l][from..][..m.item.n] == s[..e.l][from..from + m.item.n];
    } else if m.item.LineCopy? {
      LineStep(s, lines, cfg, e);
      OnlyIfEarlier(s, lines, cfg, e);
      PartIn(lines[m.item.ctx], m.item.at, m.item.at + m.item.n);
    } else {
      LiteralStep(s, lines, cfg, e);
      LiteralStaysIn(s, e);
    }
    BothIn(s, e.l, m.next.l);
  }

  lemma OnlyIfEarlier(s: seq<byte>, lines: Lines, cfg: Config, e: Enc)
    requires e.l < |s| && Step(s, lines, cfg, e).item.LineCopy?
    ensures cfg.earlier
  {
    hide BestLine, FirstFit, Lcp, RepeatsAt, RunLength, EntersUpper, LeavesDigits, LeavesUpper, EntersDigits;
  }

  lemma LiteralStaysIn(s: seq<byte>, e: Enc)
    requires e.l < |s| && !LiteralMove(s, e).item.Dropped?
    ensures var l := LiteralMove(s, e).next.l; e.l <= l <= |s| && InAlphabet(s[e.l..l])
  {
    hide EntersUpper, LeavesDigits, LeavesUpper, EntersDigits;
  }

  /** No text outside the alphabet is compressed soundly, unless it may be copied from such lines. */
  lemma {:induction false} FaithfulInAlphabet(s: seq<byte>, lines: Lines, cfg: Config, e: Enc)
    requires e.l <= |s| && (cfg.earlier ==> LinesInAlphabet(lines)) && InAlphabet(s[..e.l])
    requires Faithful(s, lines, cfg, e)
    ensures InAlphabet(s)
    decreases |s| - e.l, Rank(s, e)
  {
    hide Step, InAlphabet, Sound;
    if e.l < |s| {
      StepStaysIn(s, lines, cfg, e);
      FaithfulInAlphabet(s, lines, cfg, Step(s, lines, cfg, e).next);
    } else {
      assert s[..e.l] == s;
    }
  }

  /** With matching off, exactly the texts in the alphabet come back, as long as all run lengths have a code. */
  lemma MatchingOffExact(s: seq<byte>, lines: Lines, cfg: Config, z: seq<byte>)
    requires IsCompressed(z, s, lines, cfg) && AllCountsFit(s, lines, cfg, START)
    requires MatchingOff(cfg, lines)
    ensures Decompressed(z, lines) == Done(s) <==> InAlphabet(s)
  {
    hide IsCompressed, AllCountsFit, Faithful, Decompressed;
    RoundTripExact(s, lines, cfg, z);
    assert s[..0] == [];
    if InAlphabet(s) {
      MatchingOffFaithful(s, lines, cfg, START);
    } else if Faithful(s, lines, cfg, START) {
      FaithfulInAlphabet(s, lines, cfg, START);
    }
  }

  // ----- lockstep at every step -----

  /** The encoder's state after `k` steps, and the bits it has written by then. */
  ghost function StateAt(s: seq<byte>, lines: Lines, cfg: Config, k: nat): Enc {
    if k == 0 then START
    else
      var e := StateAt(s, lines, cfg, k - 1);
      if e.l >= |s| then e else Step(s, lines, cfg, e).next
  }

  ghost function BitsAt(s: seq<byte>, lines: Lines, cfg: Config, k: nat): Word {
    if k == 0 then []
    else
      var e := StateAt(s, lines, cfg, k - 1);
      BitsAt(s, lines, cfg, k - 1)
      + if e.l >= |s| then [] else ItemWord(Step(s, lines, cfg, e).item, e.digits, e.upper)
  }

  /** The decoder after `k` rounds. */
  ghost function Rounds(bits: Word, lines: Lines, k: nat): Round {
    if k == 0 then Next(BEGIN)
    else
      match Rounds(bits, lines, k - 1)
      case Next(d) => if d.pos < |bits| then DecStep(bits, lines, d) else Stop
      case r => r
  }

  lemma {:induction false} StateAtKeeps(s: seq<byte>, lines: Lines, cfg: Config, k: nat)
    requires Faithful(s, lines, cfg, START) && AllCountsFit(s, lines, cfg, START)
    ensures var e := StateAt(s, lines, cfg, k);
            e.l <= |s| && Faithful(s, lines, cfg, e) && AllCountsFit(s, lines, cfg, e) && ModesExclude(e)
    ensures BitsAt(s, lines, cfg, k) + Encode(s, lines, cfg, StateAt(s, lines, cfg, k)) == Encode(s, lines, cfg, START)
  {
    hide Step, ItemWord, Sound, CountsFit, Legal;
    if k > 0 {
      StateAtKeeps(s, lines, cfg, k - 1);
      var e := StateAt(s, lines, cfg, k - 1);
      if e.l < |s| {
        StepLegal(s, lines, cfg, e);
        var m := Step(s, lines, cfg, e);
        ConcatAssoc(BitsAt(s, lines, cfg, k - 1), ItemWord(m.item, e.digits, e.upper), Encode(s, lines, cfg, m.next));
      }
    }
  }

  /** On a sound run, after any number of steps: fed the bits written so far and anything after them, the
      decoder has read exactly those bits in as many rounds, has written the text up to the encoder's
      position, and is in the encoder's modes; capitals are on in text state only. */
  lemma {:induction false} LockstepAt(s: seq<byte>, lines: Lines, cfg: Config, k: nat, bits: Word)
    requires Faithful(s, lines, cfg, START) && AllCountsFit(s, lines, cfg, START)
    requires k > 0 ==> StateAt(s, lines, cfg, k - 1).l < |s|
    requires BitsAt(s, lines, cfg, k) <= bits
    ensures var e := StateAt(s, lines, cfg, k);
            && e.l <= |s| && ModesExclude(e)
            && Rounds(bits, lines, k) == Next(Dec(|BitsAt(s, lines, cfg, k)|, e.digits, e.upper, s[..e.l]))
    decreases k
  {
    hide Step, ItemWord, Sound, CountsFit, Legal, Effect, DecStep, Encode, StartsAt;
    StateAtKeeps(s, lines, cfg, k);
    if k > 0 {
      StateAtKeeps(s, lines, cfg, k - 1);
      var e := StateAt(s, lines, cfg, k - 1);
      var m := Step(s, lines, cfg, e);
      if k > 1 { NotDoneBefore(s, lines, cfg, k - 1); }
      PrefixStarts(bits, BitsAt(s, lines, cfg, k - 1), ItemWord(m.item, e.digits, e.upper));
      LockstepAt(s, lines, cfg, k - 1, bits);
      var d := Dec(|BitsAt(s, lines, cfg, k - 1)|, e.digits, e.upper, s[..e.l]);
      StepLegal(s, lines, cfg, e);
      SoundNotDropped(s, e, m.item);
      ReadsItem(bits, lines, d, m.item);
      StepExpands(s, lines, cfg, e, d);
      EffectModes(m.item, lines, d);
    }
  }

  lemma SoundNotDropped(s: seq<byte>, e: Enc, item: Item)
    requires e.l < |s| && Sound(s, e, item)
    ensures !item.Dropped?
  {
  }

  lemma NotDoneBefore(s: seq<byte>, lines: Lines, cfg: Config, k: nat)
    requires k > 0 && StateAt(s, lines, cfg, k).l < |s|
    ensures StateAt(s, lines, cfg, k - 1).l < |s|
  {
  }

  // ----- the text is cut into spans -----

  /** How many bytes of the text an item stands for. */
  function Span(item: Item): nat {
    match item
    case SwitchText => 0
    case SwitchDigits => 0
    case BeginUpper => 0
    case EndUpper => 0
    case Crlf => 2
    case Repeat(n) => n
    case Copy(n, back) => n
    case LineCopy(n, at, ctx) => n
    case _ => 1
  }

  function Items(s: seq<byte>, lines: Lines, cfg: Config, e: Enc): seq<Item>
    decreases |s| - e.l, Rank(s, e)
  {
    if e.l >= |s| then []
    else
      var m := Step(s, lines, cfg, e);
      [m.item] + Items(s, lines, cfg, m.next)
  }

  function Spans(items: seq<Item>): nat {
    if items == [] then 0 else Span(items[0]) + Spans(items[1..])
  }

  lemma StepSpan(s: seq<byte>, lines: Lines, cfg: Config, e: Enc)
    requires e.l < |s|
    ensures var m := Step(s, lines, cfg, e);
            m.next.l == e.l + Span(m.item) <= |s| && (Span(m.item) == 0 ==> Rank(s, m.next) < Rank(s, e))
  {
    hide BestLine, FirstFit, Lcp, Rank, RunLength, RepeatsAt, LeavesDigits, LeavesUpper, EntersUpper, EntersDigits;
  }

  /** The spans of the items are consecutive and cover the text exactly. */
  lemma {:induction false} SpansCover(s: seq<byte>, lines: Lines, cfg: Config, e: Enc)
    requires e.l <= |s|
    ensures e.l + Spans(Items(s, lines, cfg, e)) == |s|
    decreases |s| - e.l, Rank(s, e)
  {
    hide Step;
    if e.l < |s| {
      var m := Step(s, lines, cfg, e);
      StepSpan(s, lines, cfg, e);
      SpansCover(s, lines, cfg, m.next);
      assert ([m.item] + Items(s, lines, cfg, m.next))[1..] == Items(s, lines, cfg, m.next);
    }
  }
}
