/** Decompression inverts compression: exactly when, for every text and every list of earlier lines. */
module RoundTrip {
  import opened Bits
  import opened Codes
  import opened Words
  import opened Reader
  import opened Counts
  import opened Encoding
  import opened Decoding
  import opened Lockstep

  // ----- one step of the encoder -----

  /** Capitals and digits exclude each other. */
  predicate ModesExclude(e: Enc) {
    !(e.upper && e.digits)
  }

  predicate SameModes(e: Enc, d: Dec) {
    e.digits == d.digits && e.upper == d.upper
  }

  /** The modes after an item, as the decoder sees them. */
  function ModesAfter(item: Item, digits: bool, upper: bool): (bool, bool) {
    match item
    case SwitchText => (false, upper)
    case SwitchDigits => (true, upper)
    case BeginUpper => (digits, true)
    case EndUpper => (digits, false)
    case _ => (digits, upper)
  }

  lemma LiteralLegal(s: seq<byte>, e: Enc)
    requires e.l < |s| && ModesExclude(e)
    ensures var m := LiteralMove(s, e);
            Legal(m.item, e.digits, e.upper) && ModesExclude(m.next)
            && ModesAfter(m.item, e.digits, e.upper) == (m.next.digits, m.next.upper)
  {
  }

  lemma LongRun(s: seq<byte>, e: Enc)
    requires e.l < |s| && RepeatsAt(s, e.l, e.prev)
    ensures RunLength(s, e.l) >= 4
  {
  }

  /** Every item the encoder emits is legal in its modes. */
  lemma StepLegal(s: seq<byte>, lines: Lines, cfg: Config, e: Enc)
    requires e.l < |s| && ModesExclude(e)
    ensures var m := Step(s, lines, cfg, e);
            Legal(m.item, e.digits, e.upper) && ModesExclude(m.next)
            && ModesAfter(m.item, e.digits, e.upper) == (m.next.digits, m.next.upper)
  {
    hide LiteralMove, RunLength, BestLine, FirstFit, Lcp, RepeatsAt;
    LiteralLegal(s, e);
    if RepeatsAt(s, e.l, e.prev) { LongRun(s, e); }
    BestLineIsMatch(lines, s[e.l..], 0, None);
  }

  /** The step keeps what it stands for: nothing is dropped, and a repeat token repeats the byte that
      the decoder has written last. After a match, c_prev is one byte behind it. */
  predicate Sound(s: seq<byte>, e: Enc, item: Item)
    requires e.l < |s|
  {
    match item
    case Dropped => false
    case Repeat(n) => e.l > 0 && s[e.l - 1] == s[e.l]
    case _ => true
  }

  /** All steps from `e` on are sound. */
  predicate Faithful(s: seq<byte>, lines: Lines, cfg: Config, e: Enc)
    decreases |s| - e.l, Rank(s, e)
  {
    e.l < |s| ==>
      var m := Step(s, lines, cfg, e);
      Sound(s, e, m.item) && Faithful(s, lines, cfg, m.next)
  }

  /** All counts from `e` on have a code. */
  predicate AllCountsFit(s: seq<byte>, lines: Lines, cfg: Config, e: Enc)
    decreases |s| - e.l, Rank(s, e)
  {
    e.l < |s| ==>
      var m := Step(s, lines, cfg, e);
      CountsFit(m.item) && AllCountsFit(s, lines, cfg, m.next)
  }

  // ----- what a step stands for -----

  lemma RepeatStep(s: seq<byte>, lines: Lines, cfg: Config, e: Enc)
    requires e.l < |s| && Step(s, lines, cfg, e).item.Repeat?
    ensures var m := Step(s, lines, cfg, e);
            RepeatsAt(s, e.l, e.prev) && m.item.n == RunLength(s, e.l) && m.next.l == e.l + m.item.n <= |s|
  {
    hide BestLine, FirstFit, Lcp;
  }

  lemma CopyStep(s: seq<byte>, lines: Lines, cfg: Config, e: Enc)
    requires e.l < |s| && Step(s, lines, cfg, e).item.Copy?
    ensures var m := Step(s, lines, cfg, e);
            && m.item.back <= e.l
            && 7 <= m.item.n <= m.item.back && m.next.l == e.l + m.item.n <= |s|
            && s[..e.l][e.l - m.item.back..][..m.item.n] == s[e.l..e.l + m.item.n]
  {
    hide BestLine, FirstFit, Lcp, RepeatsAt, RunLength;
    var n, j := Step(s, lines, cfg, e).item.n, e.l - Step(s, lines, cfg, e).item.back;
    assert n == Lcp(s[..e.l][j..], s[e.l..]);
    assert s[e.l..][..n] == s[e.l..e.l + n];
  }

  lemma LineStep(s: seq<byte>, lines: Lines, cfg: Config, e: Enc)
    requires e.l < |s| && Step(s, lines, cfg, e).item.LineCopy?
    ensures var m := Step(s, lines, cfg, e);
            && m.item.ctx < |lines| && m.item.at + m.item.n <= |lines[m.item.ctx]|
            && 12 <= m.item.n && m.next.l == e.l + m.item.n <= |s|
            && lines[m.item.ctx][m.item.at..m.item.at + m.item.n] == s[e.l..e.l + m.item.n]
  {
    hide BestLine, FirstFit, Lcp, RepeatsAt, RunLength;
    BestLineIsMatch(lines, s[e.l..], 0, None);
    var m := Step(s, lines, cfg, e).item;
    assert m.n == Lcp(lines[m.ctx][m.at..], s[e.l..]);
    assert s[e.l..][..m.n] == s[e.l..e.l + m.n];
    assert lines[m.ctx][m.at..][..m.n] == lines[m.ctx][m.at..m.at + m.n];
  }

  predicate Literal(item: Item) {
    !item.Repeat? && !item.Copy? && !item.LineCopy?
  }

  lemma LiteralStep(s: seq<byte>, lines: Lines, cfg: Config, e: Enc)
    requires e.l < |s| && Literal(Step(s, lines, cfg, e).item)
    ensures Step(s, lines, cfg, e) == LiteralMove(s, e)
  {
    hide LiteralMove;
  }

  lemma LiteralExpands(s: seq<byte>, lines: Lines, e: Enc, d: Dec)
    requires e.l < |s| && d.out == s[..e.l]
    ensures var m := LiteralMove(s, e);
            && m.next.l <= |s| && Literal(m.item)
            && (!m.item.Dropped? ==>
                  Effect(m.item, lines, d).Next? && Effect(m.item, lines, d).d.out == s[..m.next.l])
  {
    hide ItemWord, EntersUpper, LeavesDigits, LeavesUpper, EntersDigits;
    assert s[..e.l] + [s[e.l]] == s[..e.l + 1];
    if e.l + 1 < |s| {
      assert s[..e.l] + [s[e.l], s[e.l + 1]] == s[..e.l + 2];
    }
  }

  lemma Extends(s: seq<byte>, l: nat, m: nat)
    requires l <= m <= |s|
    ensures s[..l] + s[l..m] == s[..m]
  {
  }

  lemma RunIsSlice(s: seq<byte>, l: nat, n: nat)
    requires 0 < l && l + n <= |s| && forall i | l <= i < l + n :: s[i] == s[l - 1]
    ensures Repeated(s[..l][l - 1], n) == s[l..l + n]
  {
  }

  /** A sound step: the decoder's output grows by exactly the bytes that the encoder has passed. */
  lemma StepExpands(s: seq<byte>, lines: Lines, cfg: Config, e: Enc, d: Dec)
    requires e.l < |s| && d.out == s[..e.l]
    requires Sound(s, e, Step(s, lines, cfg, e).item)
    ensures var m := Step(s, lines, cfg, e);
            Effect(m.item, lines, d).Next? && Effect(m.item, lines, d).d.out == s[..m.next.l]
  {
    hide Step, ItemWord, LiteralMove, RunLength, RepeatsAt, Repeated;
    var m := Step(s, lines, cfg, e);
    if m.item.Repeat? {
      RepeatStep(s, lines, cfg, e);
      RunIsSlice(s, e.l, m.item.n);
      Extends(s, e.l, m.next.l);
    } else if m.item.Copy? {
      CopyStep(s, lines, cfg, e);
      Extends(s, e.l, m.next.l);
    } else if m.item.LineCopy? {
      LineStep(s, lines, cfg, e);
      Extends(s, e.l, m.next.l);
    } else {
      hide Effect;
      LiteralStep(s, lines, cfg, e);
      LiteralExpands(s, lines, e, d);
    }
  }

  /** The output is too short for the text passed so far, or as long and not the same. */
  predicate Behind(out: seq<byte>, s: seq<byte>, l: nat)
    requires l <= |s|
  {
    |out| < l || (|out| == l && out != s[..l])
  }

  lemma LiteralSpan(s: seq<byte>, lines: Lines, e: Enc, d: Dec)
    requires e.l < |s|
    ensures var m := LiteralMove(s, e);
            Effect(m.item, lines, d).Next? ==>
              d.out <= Effect(m.item, lines, d).d.out
              && |Effect(m.item, lines, d).d.out| - |d.out| <= m.next.l - e.l
  {
    hide ItemWord, EntersUpper, LeavesDigits, LeavesUpper, EntersDigits;
  }

  /** An item adds no more bytes to the output than the encoder passes. */
  lemma EffectSpan(s: seq<byte>, lines: Lines, cfg: Config, e: Enc, d: Dec)
    requires e.l < |s|
    ensures var m := Step(s, lines, cfg, e);
            Effect(m.item, lines, d).Next? ==>
              d.out <= Effect(m.item, lines, d).d.out
              && |Effect(m.item, lines, d).d.out| - |d.out| <= m.next.l - e.l
  {
    hide Step, ItemWord, LiteralMove, RunLength, RepeatsAt;
    var m := Step(s, lines, cfg, e);
    if m.item.Repeat? {
      RepeatStep(s, lines, cfg, e);
    } else if m.item.Copy? {
      CopyStep(s, lines, cfg, e);
    } else if m.item.LineCopy? {
      LineStep(s, lines, cfg, e);
    } else {
      LiteralStep(s, lines, cfg, e);
      LiteralSpan(s, lines, e, d);
    }
  }

  /** Once behind, always behind. */
  lemma StepStaysBehind(s: seq<byte>, lines: Lines, cfg: Config, e: Enc, d: Dec)
    requires e.l < |s| && Behind(d.out, s, e.l)
    ensures var m := Step(s, lines, cfg, e);
            Effect(m.item, lines, d).Next? ==> Behind(Effect(m.item, lines, d).d.out, s, m.next.l)
  {
    hide ItemWord, Effect, Step;
    var m := Step(s, lines, cfg, e);
    EffectSpan(s, lines, cfg, e, d);
    if Effect(m.item, lines, d).Next? {
      var out := Effect(m.item, lines, d).d.out;
      if |d.out| == e.l && |out| == m.next.l {
        assert out[..e.l] == d.out;
        assert s[..m.next.l][..e.l] == s[..e.l];
      }
    }
  }

  /** An unsound step puts the decoder behind, or makes it read before its output. */
  lemma UnsoundFallsBehind(s: seq<byte>, lines: Lines, cfg: Config, e: Enc, d: Dec)
    requires e.l < |s| && d.out == s[..e.l]
    requires !Sound(s, e, Step(s, lines, cfg, e).item)
    ensures var m := Step(s, lines, cfg, e);
            Effect(m.item, lines, d).Next? ==> Behind(Effect(m.item, lines, d).d.out, s, m.next.l)
  {
    hide ItemWord, BestLine, FirstFit, EntersUpper, LeavesDigits, LeavesUpper, EntersDigits;
    var m := Step(s, lines, cfg, e);
    if m.item.Repeat? && e.l > 0 {
      var out := Effect(m.item, lines, d).d.out;
      assert out[e.l] == s[e.l - 1] && s[..m.next.l][e.l] == s[e.l];
    }
  }

  // ----- the end of the input -----

  lemma EofAtEnd(t: Table, bits: Word, pos: nat)
    requires pos == |bits|
    ensures ReadCode(t, bits, pos) == Eof
  {
  }

  /** One or two one bits are no code word; neither is a single zero of the column code. */
  lemma EofOnOnes(t: Table, bits: Word, pos: nat)
    requires (pos + 1 == |bits| && (bits[pos] || t == Vertical)) || (pos + 2 == |bits| && bits[pos] && bits[pos + 1])
    ensures ReadCode(t, bits, pos) == Eof
  {
    if pos + 2 == |bits| {
      assert Scan(t, bits, pos + 1, 1, 1) == Eof;
    }
  }

  const PAD: Word := [false, false, true, true, false, true, true, true, true, true]

  lemma PadSpelt()
    ensures SlotWord(Slot(2, 10)) == PAD
  {
    CodeWordSpelt(Vertical, 0);
    CodeWordSpelt(Horizontal, 2);
    CodeWordSpelt(Vertical, 10);
  }

  /** What is left of the input is the first `k` bits of the padding code. */
  ghost predicate Padded(bits: Word, pos: nat, k: nat) {
    k < 8 && pos + k == |bits| && forall i {:trigger PAD[i]} | 0 <= i < k :: bits[pos + i] == PAD[i]
  }

  /** Two padding bits have been read: a column that asks for a row. */
  lemma PaddingRow(bits: Word, pos: nat, k: nat)
    requires Padded(bits, pos, k) && k >= 2
    ensures ReadCode(Vertical, bits, pos) == Got(0, pos + 2)
    ensures k <= 4 ==> ReadCode(Horizontal, bits, pos + 2) == Eof
    ensures k >= 5 ==> ReadCode(Horizontal, bits, pos + 2) == Got(2, pos + 5)
  {
    hide ReadCode, CodeWord;
    assert PAD[0] == false && PAD[1] == false && PAD[2] == true && PAD[3] == true && PAD[4] == false;
    CodeWordSpelt(Vertical, 0);
    assert bits[pos..pos + 2] == [false, false];
    ReadWord(Vertical, bits, pos, 0);
    if k == 2 {
      EofAtEnd(Horizontal, bits, pos + 2);
    } else if k <= 4 {
      EofOnOnes(Horizontal, bits, pos + 2);
    } else {
      CodeWordSpelt(Horizontal, 2);
      assert bits[pos + 2..pos + 5] == [true, true, false];
      ReadWord(Horizontal, bits, pos + 2, 2);
    }
  }

  /** The padding makes the decoder stop, in every mode, without writing a byte. */
  lemma PaddingIsSilent(bits: Word, lines: Lines, d: Dec, k: nat)
    requires Padded(bits, d.pos, k)
    ensures Decode(bits, lines, d) == Done(d.out)
  {
    hide ReadCode, Deliver, ShiftRound;
    if k == 1 {
      EofOnOnes(Vertical, bits, d.pos);
    } else if k >= 2 {
      PaddingRow(bits, d.pos, k);
      if k == 5 {
        EofAtEnd(Vertical, bits, d.pos + 5);
      } else if k > 5 {
        assert PAD[5] == true && PAD[6] == true;
        EofOnOnes(Vertical, bits, d.pos + 5);
      }
    }
  }

  // ----- the whole run -----

  /** The bits from `pos` on are the encoding of the rest of the text, and then padding. */
  ghost predicate Follows(bits: Word, pos: nat, s: seq<byte>, lines: Lines, cfg: Config, e: Enc) {
    var w := Encode(s, lines, cfg, e);
    && StartsAt(bits, pos, w)
    && Padded(bits, pos + |w|, |bits| - pos - |w|)
  }

  lemma FollowsNext(bits: Word, pos: nat, s: seq<byte>, lines: Lines, cfg: Config, e: Enc)
    requires e.l < |s| && Follows(bits, pos, s, lines, cfg, e)
    ensures var m := Step(s, lines, cfg, e);
            var w := ItemWord(m.item, e.digits, e.upper);
            StartsAt(bits, pos, w) && Follows(bits, pos + |w|, s, lines, cfg, m.next)
  {
    hide ItemWord, Step, Padded;
    var m := Step(s, lines, cfg, e);
    StartsAtSplit(bits, pos, ItemWord(m.item, e.digits, e.upper), Encode(s, lines, cfg, m.next));
  }

  /** From any state that encoder and decoder share, decompression gives the text exactly when it has
      been right so far and all further steps are sound. It never gives more than the text's length. */
  lemma {:induction false} Simulate(bits: Word, s: seq<byte>, lines: Lines, cfg: Config, e: Enc, d: Dec)
    requires e.l <= |s| && ModesExclude(e) && SameModes(e, d)
    requires Follows(bits, d.pos, s, lines, cfg, e) && AllCountsFit(s, lines, cfg, e)
    requires d.out == s[..e.l] || Behind(d.out, s, e.l)
    ensures Decode(bits, lines, d) == Done(s) <==> d.out == s[..e.l] && Faithful(s, lines, cfg, e)
    ensures Decode(bits, lines, d).Done? ==> |Decode(bits, lines, d).out| <= |s|
    decreases |s| - e.l, Rank(s, e)
  {
    hide ItemWord, Step, Follows, DecStep, Legal, Sound, CountsFit;
    if e.l == |s| {
      LastBits(bits, d.pos, s, lines, cfg, e);
      PaddingIsSilent(bits, lines, d, |bits| - d.pos);
      assert s[..e.l] == s;
    } else {
      var m := Step(s, lines, cfg, e);
      StepLegal(s, lines, cfg, e);
      FollowsNext(bits, d.pos, s, lines, cfg, e);
      AfterRound(bits, s, lines, cfg, e, d);
      if m.item.Dropped? {
        DropKeeps(s, lines, cfg, e, d);
        Simulate(bits, s, lines, cfg, m.next, d);
      } else {
        ReadsItem(bits, lines, d, m.item);
        var r := Effect(m.item, lines, d);
        if r.Next? {
          EffectModes(m.item, lines, d);
          Simulate(bits, s, lines, cfg, m.next, r.d);
        }
      }
    }
  }

  lemma LastBits(bits: Word, pos: nat, s: seq<byte>, lines: Lines, cfg: Config, e: Enc)
    requires e.l >= |s| && Follows(bits, pos, s, lines, cfg, e)
    ensures pos <= |bits| && Padded(bits, pos, |bits| - pos)
  {
  }

  lemma EffectModes(item: Item, lines: Lines, d: Dec)
    requires Effect(item, lines, d).Next?
    ensures var d' := Effect(item, lines, d).d;
            (d'.digits, d'.upper) == ModesAfter(item, d.digits, d.upper)
            && d'.pos == d.pos + |ItemWord(item, d.digits, d.upper)|
  {
    hide ItemWord;
  }

  /** After a round: right if it was right and the step is sound, behind otherwise. */
  lemma AfterRound(bits: Word, s: seq<byte>, lines: Lines, cfg: Config, e: Enc, d: Dec)
    requires e.l < |s| && (d.out == s[..e.l] || Behind(d.out, s, e.l))
    ensures var m := Step(s, lines, cfg, e);
            var r := Effect(m.item, lines, d);
            if d.out == s[..e.l] && Sound(s, e, m.item) then r.Next? && r.d.out == s[..m.next.l]
            else r.Next? ==> Behind(r.d.out, s, m.next.l)
  {
    hide Effect, Step, Sound, ItemWord;
    if Behind(d.out, s, e.l) {
      StepStaysBehind(s, lines, cfg, e, d);
    } else if Sound(s, e, Step(s, lines, cfg, e).item) {
      StepExpands(s, lines, cfg, e, d);
    } else {
      UnsoundFallsBehind(s, lines, cfg, e, d);
    }
  }

  /** A dropped byte leaves the decoder where it is. */
  lemma DropKeeps(s: seq<byte>, lines: Lines, cfg: Config, e: Enc, d: Dec)
    requires e.l < |s| && Step(s, lines, cfg, e).item.Dropped?
    ensures Effect(Dropped, lines, d) == Next(d)
    ensures ItemWord(Dropped, e.digits, e.upper) == []
    ensures !Sound(s, e, Dropped)
  {
  }
}
