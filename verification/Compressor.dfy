/** shox96_0_2_compress: the loop that writes the compressed text into a byte buffer. */
module Compressor {
  import opened Bits
  import opened BitBuffer
  import opened Codes
  import opened Words
  import opened Counts
  import opened Encoding
  import opened Matchers
  import opened RoundTrip
  import opened SizeBound

  // ----- codes that a round appends -----

  /** The appended control codes are the words of their items. 13952, 13824, 9064 and 9216 are written in
      the current state; none of them begins with the set-2 prefix. */
  lemma ControlEmitted(digits: bool)
    ensures Emitted(8192, 4, digits) == BACK
    ensures Emitted(8704, 8, digits) == BACK + BACK
    ensures Emitted(14336, 7, false) == CodeWord(Vertical, 0) + CodeWord(Horizontal, 3)
    ensures Emitted(9216, 7, digits) == BACK + CodeWord(Vertical, 1)
    ensures Emitted(9064, 13, digits) == BACK + SlotWord(Slot(2, 7))
  {
    hide CodeBits, CodeWord, SlotWord, HasSet2Prefix;
    ControlWords();
    PrefixTest(8192);
    PrefixTest(8704);
    PrefixTest(9216);
    PrefixTest(9064);
  }

  lemma SlotEmitted(digits: bool)
    ensures Emitted(13824, 9, digits) == SlotWord(Slot(2, 6))
    ensures Emitted(13952, 9, digits) == SlotWord(Slot(2, 7))
    ensures Emitted(14208, 10, false) == SlotWord(Slot(2, 9))
    ensures Emitted(14272, 10, false) == SlotWord(Slot(2, 10))
  {
    hide CodeBits, CodeWord, SlotWord, HasSet2Prefix;
    SlotCodes();
    PrefixTest(13824);
    PrefixTest(13952);
  }

  /** The code of a printable character: the capital's row, or the small letter's when capitals are on;
      the second code of the space in digit state. */
  lemma CharEmitted(c: byte, digits: bool, upper: bool)
    requires IsPrintable(c) && !(upper && digits)
    ensures var i := if upper && IsUpper(c) then c else c - 32;
            L95(i) <= 13
            && ItemWord(Glyph(c), digits, upper)
               == if i == 0 && digits then Emitted(15232, 11, true) else Emitted(C95(i), L95(i), digits)
  {
    hide C95, L95, Emitted, SlotWord, CodeWord, Place;
    GlyphEmitted(if upper && IsUpper(c) then c + 32 else c, digits);
    DigitSpace();
  }

  // ----- the state of a run -----

  /** The output holds `u`, and the rest of the compressed text is what state `e` still has to write. */
  ghost predicate At(buf: seq<byte>, ol: nat, u: Word, s: seq<byte>, lines: Lines, cfg: Config, e: Enc) {
    && e.l <= |s| && ModesExclude(e)
    && |u| == ol && Holds(buf, u)
    && u + Encode(s, lines, cfg, e) == Encode(s, lines, cfg, START)
    && 2 * ol + Debt(s, e) <= 37 * e.l
  }

  /** Once the item of a step is written, the run is at the next state. */
  lemma AtNext(buf: seq<byte>, ol: nat, u: Word, s: seq<byte>, lines: Lines, cfg: Config, e: Enc, buf': seq<byte>)
    requires At(buf, ol, u, s, lines, cfg, e) && e.l < |s|
    requires var m := Step(s, lines, cfg, e); Holds(buf', u + ItemWord(m.item, e.digits, e.upper))
    ensures var m := Step(s, lines, cfg, e);
            var w := ItemWord(m.item, e.digits, e.upper);
            At(buf', ol + |w|, u + w, s, lines, cfg, m.next)
  {
    hide Step, ItemWord, Holds, Debt;
    var m := Step(s, lines, cfg, e);
    var w := ItemWord(m.item, e.digits, e.upper);
    StepLegal(s, lines, cfg, e);
    StepPaid(s, lines, cfg, e);
    DebtRange(s, m.next);
    assert u + w + Encode(s, lines, cfg, m.next) == u + (w + Encode(s, lines, cfg, m.next));
  }

  /** There is room for the item of a step. */
  lemma Room(buf: seq<byte>, ol: nat, u: Word, s: seq<byte>, lines: Lines, cfg: Config, e: Enc, size: nat)
    requires At(buf, ol, u, s, lines, cfg, e) && 16 * size >= 37 * |s|
    ensures e.l < |s| ==> var m := Step(s, lines, cfg, e); ol + |ItemWord(m.item, e.digits, e.upper)| <= 8 * size
    ensures e.l + 7 < |s| ==> ol + 52 <= 8 * size
    ensures e.l + 12 < |s| ==> ol + 73 <= 8 * size
  {
    hide Step, ItemWord, Holds, Debt;
    DebtRange(s, e);
    EncodeBound(s, lines, cfg, START);
    DebtRange(s, START);
  }

  // ----- the parts of a round -----

  /** memchr(SET2_STR, c, 42) */
  method Memchr(c: byte) returns (found: bool)
    ensures found == InSet2(c)
  {
    var i := 0;
    while i < 42
      invariant i <= 42 && forall k | 0 <= k < i :: Set2Str(k) != c
    {
      if Set2Str(i) == c {
        return true;
      }
      i := i + 1;
    }
    return false;
  }

  /** Looks back from the sixth character on for a small letter. */
  method LookAhead(s: seq<byte>, l: nat) returns (found: bool)
    requires l < |s|
    ensures found == SixNotLower(s, l)
  {
    var ll: int := l + 5;
    while ll >= l && ll < |s|
      invariant l - 1 <= ll <= l + 5
      invariant ll < l + 5 ==> l + 5 < |s|
      invariant l + 5 < |s| ==> forall i | ll < i <= l + 5 :: !IsLower(s[i])
      decreases ll
    {
      if IsLower(s[ll]) {
        break;
      }
      ll := ll - 1;
    }
    found := ll == l - 1;
  }

  /** Appends one code in a state, as the item of a step. */
  method Append(out: array<byte>, ol: nat, code: nat, clen: nat, digits: bool, ghost u: Word, ghost s: seq<byte>,
                ghost lines: Lines, ghost cfg: Config, ghost e: Enc)
    returns (ol': nat, ghost u': Word)
    requires e.l < |s| && 16 * out.Length >= 37 * |s| && clen <= 16
    requires At(out[..], ol, u, s, lines, cfg, e)
    requires Emitted(code, clen, digits) == ItemWord(Step(s, lines, cfg, e).item, e.digits, e.upper)
    modifies out
    ensures At(out[..], ol', u', s, lines, cfg, Step(s, lines, cfg, e).next)
  {
    hide Emitted, ItemWord, Step, Holds, Ready, Encode, Debt;
    ghost var buf := out[..];
    Room(buf, ol, u, s, lines, cfg, e, out.Length);
    HoldsReady(buf, u, Emitted(code, clen, digits));
    ol' := AppendBits(out, ol, code, clen, digits, u);
    AtNext(buf, ol, u, s, lines, cfg, e, out[..]);
    u' := u + ItemWord(Step(s, lines, cfg, e).item, e.digits, e.upper);
  }

  /** Nothing is matched at this position. */
  ghost predicate NoMatch(s: seq<byte>, lines: Lines, cfg: Config, l: nat, prev: byte)
    requires l < |s|
  {
    !RepeatsAt(s, l, prev) && EarlierText(s, l, cfg).None? && EarlierLine(s, l, lines, cfg).None?
  }

  lemma NoMatchStep(s: seq<byte>, lines: Lines, cfg: Config, e: Enc)
    requires e.l < |s| && NoMatch(s, lines, cfg, e.l, e.prev)
    ensures Step(s, lines, cfg, e) == LiteralMove(s, e)
  {
    hide LiteralMove;
  }

  /** Leaves digit state if the character is not in set 2. */
  method LeaveDigits(s: seq<byte>, l: nat, state: bool, upper: bool, prev: byte, out: array<byte>, ol: nat,
                     ghost lines: Lines, ghost cfg: Config, ghost u: Word)
    returns (state': bool, ol': nat, ghost u': Word)
    requires l < |s| && 16 * out.Length >= 37 * |s| && NoMatch(s, lines, cfg, l, prev)
    requires At(out[..], ol, u, s, lines, cfg, Enc(l, state, upper, prev))
    modifies out
    ensures At(out[..], ol', u', s, lines, cfg, Enc(l, state', upper, prev))
    ensures !LeavesDigits(s, Enc(l, state', upper, prev))
  {
    hide At, ItemWord, SlotWord, CodeWord, Emitted, InSet2, NoMatch, EntersUpper;
    ghost var e := Enc(l, state, upper, prev);
    state', ol', u' := state, ol, u;
    if state {
      var c := if s[l] == 32 && |s| as int - 1 > l then s[l + 1] else s[l];
      var found := Memchr(c);
      Set2IsSymbols(c);
      if !found {
        state' := false;
        NoMatchStep(s, lines, cfg, e);
        ControlEmitted(false);
        SwitchWords(e);
        ol', u' := Append(out, ol, 8192, 4, false, u, s, lines, cfg, e);
      }
    }
  }

  lemma SwitchWords(e: Enc)
    ensures ItemWord(SwitchText, e.digits, e.upper) == BACK && ItemWord(EndUpper, e.digits, e.upper) == BACK
    ensures ItemWord(BeginUpper, e.digits, e.upper) == BACK + BACK
    ensures ItemWord(SwitchDigits, e.digits, e.upper) == CodeWord(Vertical, 0) + CodeWord(Horizontal, 3)
  {
  }

  /** Turns capitals off before anything else, or on before six characters without a small letter. */
  method SwitchUpper(s: seq<byte>, l: nat, state: bool, upper: bool, prev: byte, out: array<byte>, ol: nat,
                     ghost lines: Lines, ghost cfg: Config, ghost u: Word)
    returns (upper': bool, ol': nat, ghost u': Word)
    requires l < |s| && 16 * out.Length >= 37 * |s| && NoMatch(s, lines, cfg, l, prev)
    requires At(out[..], ol, u, s, lines, cfg, Enc(l, state, upper, prev))
    requires !LeavesDigits(s, Enc(l, state, upper, prev))
    modifies out
    ensures At(out[..], ol', u', s, lines, cfg, Enc(l, state, upper', prev))
    ensures !LeavesUpper(s, Enc(l, state, upper', prev)) && !EntersUpper(s, Enc(l, state, upper', prev))
  {
    hide At, ItemWord, SlotWord, CodeWord, Emitted, NoMatch, SixNotLower;
    ghost var e := Enc(l, state, upper, prev);
    upper', ol', u' := upper, ol, u;
    var isUpper := false;
    if IsUpper(s[l]) {
      isUpper := true;
    } else {
      if upper {
        upper' := false;
        NoMatchStep(s, lines, cfg, e);
        ControlEmitted(state);
        SwitchWords(e);
        ol', u' := Append(out, ol, 8192, 4, state, u, s, lines, cfg, e);
      }
    }
    if isUpper && !upper' {
      var six := LookAhead(s, l);
      if six {
        NoMatchStep(s, lines, cfg, e);
        ControlEmitted(state);
        SwitchWords(e);
        ol', u' := Append(out, ol, 8704, 8, state, u, s, lines, cfg, e);
        upper' := true;
      }
    }
  }

  /** The character itself, or CR LF. */
  method EmitChar(s: seq<byte>, l: nat, state: bool, upper: bool, prev: byte, out: array<byte>, ol: nat,
                  ghost lines: Lines, ghost cfg: Config, ghost u: Word)
    returns (l': nat, prev': byte, ol': nat, ghost u': Word)
    requires l < |s| && 16 * out.Length >= 37 * |s| && NoMatch(s, lines, cfg, l, prev)
    requires At(out[..], ol, u, s, lines, cfg, Enc(l, state, upper, prev))
    requires !(upper && state) && LiteralMove(s, Enc(l, state, upper, prev)) == CharMove(s, Enc(l, state, upper, prev))
    modifies out
    ensures l' > l && At(out[..], ol', u', s, lines, cfg, Enc(l', state, upper, prev'))
  {
    hide At, SlotWord, CodeWord, GlyphWord, Emitted, NoMatch, LiteralMove;
    ghost var e := Enc(l, state, upper, prev);
    NoMatchStep(s, lines, cfg, e);
    ControlEmitted(state);
    SlotEmitted(state);
    l', ol', u' := l, ol, u;
    var c := s[l];
    var cNext: byte := 0;
    if l + 1 < |s| {
      cNext := s[l + 1];
    }
    prev' := c;
    if 32 <= c <= 126 {
      CharEmitted(c, state, upper);
      var i := c - 32;
      if upper && IsUpper(c) {
        i := i + 32;
      }
      if i == 0 && state {
        ol', u' := Append(out, ol, 15232, 11, state, u, s, lines, cfg, e);
      } else {
        ol', u' := Append(out, ol, C95(i), L95(i), state, u, s, lines, cfg, e);
      }
    } else if c == 13 && cNext == 10 {
      ol', u' := Append(out, ol, 13824, 9, state, u, s, lines, cfg, e);
      l' := l' + 1;
      prev' := 10;
    } else if c == 10 {
      ol', u' := Append(out, ol, 13952, 9, state, u, s, lines, cfg, e);
    } else if c == 13 {
      ol', u' := Append(out, ol, 9064, 13, state, u, s, lines, cfg, e);
    } else if c == 9 {
      ol', u' := Append(out, ol, 9216, 7, state, u, s, lines, cfg, e);
    } else {
      DroppedNext(out[..], ol, u, s, lines, cfg, e);
    }
    l' := l' + 1;
  }

  lemma DroppedNext(buf: seq<byte>, ol: nat, u: Word, s: seq<byte>, lines: Lines, cfg: Config, e: Enc)
    requires At(buf, ol, u, s, lines, cfg, e) && e.l < |s| && Step(s, lines, cfg, e).item.Dropped?
    ensures At(buf, ol, u, s, lines, cfg, Step(s, lines, cfg, e).next)
  {
    hide At, Step;
    assert Holds(buf, u) by { AtHolds(buf, ol, u, s, lines, cfg, e); }
    assert u + [] == u;
    AtNext(buf, ol, u, s, lines, cfg, e, buf);
  }

  lemma AtHolds(buf: seq<byte>, ol: nat, u: Word, s: seq<byte>, lines: Lines, cfg: Config, e: Enc)
    requires At(buf, ol, u, s, lines, cfg, e)
    ensures Holds(buf, u) && |u| == ol && e.l <= |s| && ModesExclude(e)
  {
  }

  /** A round in which nothing is matched. */
  method EmitLiteral(s: seq<byte>, l: nat, state: bool, upper: bool, prev: byte, out: array<byte>, ol: nat,
                     ghost lines: Lines, ghost cfg: Config, ghost u: Word)
    returns (l': nat, state': bool, upper': bool, prev': byte, ol': nat, ghost u': Word)
    requires l < |s| && 16 * out.Length >= 37 * |s| && NoMatch(s, lines, cfg, l, prev)
    requires At(out[..], ol, u, s, lines, cfg, Enc(l, state, upper, prev))
    modifies out
    ensures l' > l && At(out[..], ol', u', s, lines, cfg, Enc(l', state', upper', prev'))
  {
    hide At, ItemWord, SlotWord, CodeWord, Emitted, NoMatch, SixNotLower, CharMove;
    state', ol', u' := LeaveDigits(s, l, state, upper, prev, out, ol, lines, cfg, u);
    upper', ol', u' := SwitchUpper(s, l, state', upper, prev, out, ol', lines, cfg, u');
    ghost var e := Enc(l, state', upper', prev);
    if !state' && IsDigit(s[l]) {
      NoMatchStep(s, lines, cfg, e);
      ControlEmitted(false);
      SwitchWords(e);
      ol', u' := Append(out, ol', 14336, 7, state', u', s, lines, cfg, e);
      state' := true;
      DigitStays(s, e);
    }
    AtHolds(out[..], ol', u', s, lines, cfg, Enc(l, state', upper', prev));
    l', prev', ol', u' := EmitChar(s, l, state', upper', prev, out, ol', lines, cfg, u');
  }

  lemma DigitStays(s: seq<byte>, e: Enc)
    requires e.l < |s| && IsDigit(s[e.l])
    ensures !LeavesDigits(s, e.(digits := true))
  {
  }

  /** A run of one byte that the compressor counts. */
  method CountRun(s: seq<byte>, l: nat) returns (n: nat)
    requires l + 4 < |s| && s[l] == s[l + 1] && s[l] == s[l + 2] && s[l] == s[l + 3]
    ensures n == RunLength(s, l)
  {
    var rptCount := l + 4;
    while rptCount < |s| && s[rptCount] == s[l]
      invariant l + 4 <= rptCount <= |s| && forall i | l <= i < rptCount :: s[i] == s[l]
    {
      rptCount := rptCount + 1;
    }
    n := rptCount - l;
    RunIs(s, l, n);
  }

  lemma RunIs(s: seq<byte>, l: nat, n: nat)
    requires l < |s| && 1 <= n && l + n <= |s|
    requires forall i | l <= i < l + n :: s[i] == s[l]
    requires l + n == |s| || s[l + n] != s[l]
    ensures RunLength(s, l) == n
  {
  }

  /** A repeat token. */
  method EmitRepeat(s: seq<byte>, l: nat, out: array<byte>, ol: nat,
                    ghost lines: Lines, ghost cfg: Config, ghost u: Word, ghost e: Enc)
    returns (n: nat, ol': nat, ghost u': Word)
    requires l == e.l < |s| && 16 * out.Length >= 37 * |s| && RepeatsAt(s, l, e.prev)
    requires At(out[..], ol, u, s, lines, cfg, e)
    modifies out
    ensures n > 0 && At(out[..], ol', u', s, lines, cfg, e.(l := l + n))
  {
    hide At, SlotWord, CodeWord, Emitted, CountWord, Holds, Ready, ItemWord;
    ghost var buf := out[..];
    n := CountRun(s, l);
    LongRun(s, e);
    Room(buf, ol, u, s, lines, cfg, e, out.Length);
    AtHolds(buf, ol, u, s, lines, cfg, e);
    SlotEmitted(false);
    ghost var a, b := SlotWord(Slot(2, 9)), CountWord(n - 4);
    RepeatWord(n, e);
    HoldsReady(buf, u, a);
    ol' := AppendBits(out, ol, 14208, 10, false, u);
    ol' := EncodeCount(out, ol', n - 4, u + a);
    assert u + a + b == u + (a + b);
    AtNext(buf, ol, u, s, lines, cfg, e, out[..]);
    u' := u + (a + b);
  }

  lemma RepeatWord(n: nat, e: Enc)
    requires n >= 4
    ensures ItemWord(Repeat(n), e.digits, e.upper) == SlotWord(Slot(2, 9)) + CountWord(n - 4)
  {
  }

  // ----- matches -----

  lemma CopyMove(s: seq<byte>, lines: Lines, cfg: Config, e: Enc, j: nat, n: nat)
    requires e.l < |s| && !RepeatsAt(s, e.l, e.prev) && EarlierText(s, e.l, cfg) == Some(j)
    requires n == Lcp(s[..e.l][j..], s[e.l..])
    ensures 7 <= n <= e.l - j && e.l + n <= |s|
    ensures Step(s, lines, cfg, e) == Move(Copy(n, e.l - j), e.(l := e.l + n, prev := s[e.l + n - 2]))
  {
    hide FirstFit, Lcp, RepeatsAt, LiteralMove;
  }

  lemma LineMove(s: seq<byte>, lines: Lines, cfg: Config, e: Enc, m: LineMatch)
    requires e.l < |s| && !RepeatsAt(s, e.l, e.prev) && EarlierText(s, e.l, cfg).None?
    requires EarlierLine(s, e.l, lines, cfg) == Some(m)
    ensures 12 <= m.n && e.l + m.n <= |s|
    ensures Step(s, lines, cfg, e) == Move(LineCopy(m.n, m.at, m.ctx), e.(l := e.l + m.n, prev := s[e.l + m.n - 2]))
  {
    hide BestLine, FirstFit, Lcp, RepeatsAt, LiteralMove;
    BestLineIsMatch(lines, s[e.l..], 0, None);
  }

  /** Tries the text before the current position. */
  method TryEarlierText(s: seq<byte>, l: nat, out: array<byte>, ol: nat,
                        ghost lines: Lines, cfg: Config, ghost u: Word, ghost e: Enc)
    returns (r: int, ol': nat, ghost u': Word)
    requires l == e.l && l + NICE_LEN_FOR_PRIOR < |s| && 16 * out.Length >= 37 * |s|
    requires cfg.within && !RepeatsAt(s, l, e.prev) && At(out[..], ol, u, s, lines, cfg, e)
    modifies out
    ensures if r > 0 then l <= r < |s| && At(out[..], ol', u', s, lines, cfg, e.(l := r + 1, prev := s[r - 1]))
            else r == -(l as int) && EarlierText(s, l, cfg).None? && At(out[..], ol', u', s, lines, cfg, e)
  {
    hide At, Holds, CopyToken, ItemWord, Step, RepeatsAt, FirstFit, Lcp, Encode;
    ghost var buf := out[..];
    AtHolds(buf, ol, u, s, lines, cfg, e);
    Room(buf, ol, u, s, lines, cfg, e, out.Length);
    r, ol' := MatchOccurance(s, l, out, ol, u);
    u' := u;
    ghost var f := EarlierText(s, l, cfg);
    if f.Some? {
      ghost var n := Lcp(s[..l][f.value..], s[l..]);
      CopyMove(s, lines, cfg, e, f.value, n);
      CopyWord(n, l - f.value, e.digits, e.upper);
      AtNext(buf, ol, u, s, lines, cfg, e, out[..]);
      u' := u + CopyToken(n, l - f.value);
    } else {
      AtSame(buf, ol, u, s, lines, cfg, e, out[..]);
    }
  }

  lemma AtSame(buf: seq<byte>, ol: nat, u: Word, s: seq<byte>, lines: Lines, cfg: Config, e: Enc, buf': seq<byte>)
    requires At(buf, ol, u, s, lines, cfg, e) && Holds(buf', u)
    ensures At(buf', ol, u, s, lines, cfg, e)
  {
  }

  /** Tries the earlier lines. */
  method TryEarlierLine(s: seq<byte>, l: nat, out: array<byte>, ol: nat, lines: Lines,
                        cfg: Config, ghost u: Word, ghost e: Enc)
    returns (r: int, ol': nat, ghost u': Word)
    requires l == e.l && l + NICE_LEN_FOR_OTHER < |s| && 16 * out.Length >= 37 * |s| && cfg.earlier
    requires !RepeatsAt(s, l, e.prev) && EarlierText(s, l, cfg).None? && At(out[..], ol, u, s, lines, cfg, e)
    modifies out
    ensures if r > 0 then l <= r < |s| && At(out[..], ol', u', s, lines, cfg, e.(l := r + 1, prev := s[r - 1]))
            else r == -(l as int) && EarlierLine(s, l, lines, cfg).None? && At(out[..], ol', u', s, lines, cfg, e)
  {
    hide At, Holds, LineToken, ItemWord, Step, RepeatsAt, EarlierText, BestLine, Encode;
    ghost var buf := out[..];
    AtHolds(buf, ol, u, s, lines, cfg, e);
    Room(buf, ol, u, s, lines, cfg, e, out.Length);
    r, ol' := MatchLine(s, l, out, ol, lines, u);
    u' := u;
    ghost var best := EarlierLine(s, l, lines, cfg);
    if best.Some? {
      ghost var m := best.value;
      LineMove(s, lines, cfg, e, m);
      LineWord(m, e.digits, e.upper);
      AtNext(buf, ol, u, s, lines, cfg, e, out[..]);
      u' := u + LineToken(m);
    } else {
      AtSame(buf, ol, u, s, lines, cfg, e, out[..]);
    }
  }

  // ----- the whole loop -----

  lemma AtStart(buf: seq<byte>, s: seq<byte>, lines: Lines, cfg: Config)
    ensures At(buf, 0, [], s, lines, cfg, START)
  {
    hide Encode;
    DebtRange(s, START);
    assert [] + Encode(s, lines, cfg, START) == Encode(s, lines, cfg, START);
  }

  /** At the end of the text the output holds its whole encoding. */
  lemma AtEnd(buf: seq<byte>, ol: nat, u: Word, s: seq<byte>, lines: Lines, cfg: Config, e: Enc)
    requires At(buf, ol, u, s, lines, cfg, e) && e.l >= |s|
    ensures Holds(buf, Encode(s, lines, cfg, START)) && ol == |Encode(s, lines, cfg, START)|
  {
    assert u + [] == u;
  }

  lemma PaddingCode(n: nat)
    requires n % 8 != 0
    ensures Emitted(14272, 8 - n % 8, false) == Padding(n)
  {
    hide SlotWord;
    SlotCodes();
    var k := 8 - n % 8;
    assert CodeBits(14272, k) == CodeBits(14272, 10)[..k];
  }

  lemma HoldsBits(buf: seq<byte>, w: Word, n: nat)
    requires Holds(buf, w) && |w| == 8 * n
    ensures n <= |buf| && BitsOf(buf[..n]) == w
  {
    forall p | 0 <= p < 8 * n
      ensures BitsOf(buf[..n])[p] == w[p]
    {
      assert BitAt(buf[..n], p) == BitAt(buf, p);
    }
  }

  /** shox96_0_2_compress: the number of bytes it returns are in the buffer and are the compressed text. */
  method Compress(s: seq<byte>, out: array<byte>, lines: Lines, cfg: Config) returns (size: nat)
    requires 16 * out.Length >= 37 * |s|
    modifies out
    ensures size <= out.Length && BitsOf(out[..size]) == Compressed(s, lines, cfg)
  {
    hide At, Holds, Encode, Emitted, Step, Padding, CodeBits, Ready;
    var ol, prev: byte := 0, 0;
    var state, upper := false, false;
    ghost var u: Word := [];
    AtStart(out[..], s, lines, cfg);
    var l := 0;
    while l < |s|
      invariant l <= |s|
      invariant At(out[..], ol, u, s, lines, cfg, Enc(l, state, upper, prev))
      decreases |s| - l
    {
      ghost var e := Enc(l, state, upper, prev);
      var c := s[l];
      if l + 4 < |s| {
        if c == prev && c == s[l + 1] && c == s[l + 2] && c == s[l + 3] {
          var n: nat;
          n, ol, u := EmitRepeat(s, l, out, ol, lines, cfg, u, e);
          AtHolds(out[..], ol, u, s, lines, cfg, e.(l := l + n));
          l := l + n;
          continue;
        }
      }
      assert !RepeatsAt(s, l, prev);
      if l + NICE_LEN_FOR_PRIOR < |s| && cfg.within {
        var r: int;
        r, ol, u := TryEarlierText(s, l, out, ol, lines, cfg, u, e);
        if r > 0 {
          prev := s[r - 1];
          l := r + 1;
          continue;
        }
      }
      if l + NICE_LEN_FOR_OTHER < |s| && cfg.earlier {
        if lines != [] {
          var r: int;
          r, ol, u := TryEarlierLine(s, l, out, ol, lines, cfg, u, e);
          if r > 0 {
            prev := s[r - 1];
            l := r + 1;
            continue;
          }
        }
      }
      var l': nat;
      l', state, upper, prev, ol, u := EmitLiteral(s, l, state, upper, prev, out, ol, lines, cfg, u);
      AtHolds(out[..], ol, u, s, lines, cfg, Enc(l', state, upper, prev));
      l := l';
    }
    AtEnd(out[..], ol, u, s, lines, cfg, Enc(l, state, upper, prev));
    ghost var w := Encode(s, lines, cfg, START);
    CompressedFits(s, lines, cfg, out.Length);
    var bits := ol % 8;
    if bits != 0 {
      PaddingCode(ol);
      HoldsReady(out[..], w, Padding(ol));
      ol := AppendBits(out, ol, 14272, 8 - bits, false, w);
    } else {
      NoPadding(ol);
      assert w + [] == w;
    }
    size := ol / 8 + (if ol % 8 != 0 then 1 else 0);
    HoldsBits(out[..], Compressed(s, lines, cfg), size);
  }

  lemma NoPadding(n: nat)
    requires n % 8 == 0
    ensures Padding(n) == []
  {
  }
}
