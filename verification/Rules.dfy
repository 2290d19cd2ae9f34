/** When the compressor does what, in terms of the text alone. */
module Rules {
  import opened Bits
  import opened BitBuffer
  import opened Codes
  import opened Words
  import opened Counts
  import opened Encoding
  import opened Reader
  import opened Matchers
  import opened RoundTrip
  import opened Compressor

  /** A run token is due: five bytes are left at least, and the next four equal the previous byte. */
  predicate RunDue(s: seq<byte>, e: Enc)
    requires e.l < |s|
  {
    e.l + 4 < |s| && e.prev == s[e.l] == s[e.l + 1] == s[e.l + 2] == s[e.l + 3]
  }

  /** `n` bytes at two places are the same. */
  predicate Agree(x: seq<byte>, j: nat, y: seq<byte>, l: nat, n: nat) {
    j + n <= |x| && l + n <= |y| && x[j..j + n] == y[l..l + n]
  }

  lemma LiteralIsLiteral(s: seq<byte>, e: Enc)
    requires e.l < |s|
    ensures Literal(LiteralMove(s, e).item)
  {
    hide EntersUpper, LeavesDigits, LeavesUpper, EntersDigits;
  }

  // ----- runs -----

  lemma RunRule(s: seq<byte>, lines: Lines, cfg: Config, e: Enc)
    requires e.l < |s|
    ensures var m := Step(s, lines, cfg, e);
            && (m.item.Repeat? <==> RunDue(s, e))
            && (m.item.Repeat? ==>
                  && 0 < m.item.n && e.l + m.item.n <= |s|
                  && (forall i | e.l <= i < e.l + m.item.n :: s[i] == s[e.l])
                  && (e.l + m.item.n < |s| ==> s[e.l + m.item.n] != s[e.l])
                  && m.next == Enc(e.l + m.item.n, e.digits, e.upper, e.prev))
  {
    hide BestLine, FirstFit, Lcp, LiteralMove;
    LiteralIsLiteral(s, e);
  }

  // ----- matches -----

  lemma LcpAgrees(x: seq<byte>, j: nat, y: seq<byte>, l: nat, n: nat)
    requires j <= |x| && l <= |y|
    ensures Lcp(x[j..], y[l..]) >= n <==> Agree(x, j, y, l, n)
  {
    var u, v := x[j..], y[l..];
    var r := Lcp(u, v);
    if n <= r {
      assert x[j..j + n] == u[..r][..n] && y[l..l + n] == v[..r][..n];
    } else if j + n <= |x| && l + n <= |y| {
      assert u[r] != v[r];
      assert x[j..j + n][r] == u[r] && y[l..l + n][r] == v[r];
    }
  }

  /** The first fit, in terms of the bytes. */
  lemma FitRule(x: seq<byte>, y: seq<byte>, l: nat, min: nat)
    requires l <= |y|
    ensures match FirstFit(x, y[l..], min, 0)
            case Some(j) => j < |x| && Agree(x, j, y, l, min) && forall i | 0 <= i < j :: !Agree(x, i, y, l, min)
            case None => forall i | 0 <= i < |x| :: !Agree(x, i, y, l, min)
  {
    hide FirstFit, Lcp, Agree;
    forall i | 0 <= i < |x|
      ensures Lcp(x[i..], y[l..]) >= min <==> Agree(x, i, y, l, min)
    {
      LcpAgrees(x, i, y, l, min);
    }
  }

  /** A match that cannot be longer. */
  predicate Longest(x: seq<byte>, j: nat, y: seq<byte>, l: nat, n: nat) {
    Agree(x, j, y, l, n) && !Agree(x, j, y, l, n + 1)
  }

  lemma LcpLongest(x: seq<byte>, j: nat, y: seq<byte>, l: nat)
    requires j <= |x| && l <= |y|
    ensures Longest(x, j, y, l, Lcp(x[j..], y[l..]))
  {
    hide Agree, Lcp;
    var n := Lcp(x[j..], y[l..]);
    LcpAgrees(x, j, y, l, n);
    LcpAgrees(x, j, y, l, n + 1);
  }

  /** The text before `l` holds the seven bytes at `l`, and it is searched. */
  ghost predicate TextDue(s: seq<byte>, cfg: Config, l: nat)
    requires l < |s|
  {
    cfg.within && l + 7 < |s| && exists j :: 0 <= j < l && Agree(s[..l], j, s, l, 7)
  }

  /** Where no run token is due, a copy token is written if and only if the next seven bytes occur in the text
      before. It names the first place where they do and as many bytes as agree there, and c_prev falls one
      byte behind. */
  lemma CopyRule(s: seq<byte>, lines: Lines, cfg: Config, e: Enc)
    requires e.l < |s|
    ensures var m := Step(s, lines, cfg, e);
            && (m.item.Copy? <==> !RunDue(s, e) && TextDue(s, cfg, e.l))
            && (m.item.Copy? ==>
                  var n, j := m.item.n, e.l - m.item.back;
                  && 0 <= j < e.l && 7 <= n && e.l + n <= |s|
                  && Longest(s[..e.l], j, s, e.l, n)
                  && (forall i | 0 <= i < j :: !Agree(s[..e.l], i, s, e.l, 7))
                  && m.next == Enc(e.l + n, e.digits, e.upper, s[e.l + n - 2]))
  {
    hide BestLine, FirstFit, Lcp, LiteralMove, Agree, Longest, RunLength;
    LiteralIsLiteral(s, e);
    FitRule(s[..e.l], s, e.l, 7);
    var f := FirstFit(s[..e.l], s[e.l..], 7, 0);
    if f.Some? { LcpLongest(s[..e.l], f.value, s, e.l); }
  }

  /** An earlier line holds the twelve bytes at `l`, and the lines are searched. */
  ghost predicate LineDue(s: seq<byte>, lines: Lines, cfg: Config, l: nat)
    requires l < |s|
  {
    && cfg.earlier && l + 12 < |s|
    && exists i: nat, j: nat :: i < |lines| && j < |lines[i]| && Agree(lines[i], j, s, l, 12)
  }

  /** Of all places of all lines that hold the twelve bytes, (`at`, `ctx`) is the one with the least offset, in
      the farthest line that has it there. */
  ghost predicate ChosenPlace(s: seq<byte>, lines: Lines, l: nat, at: nat, ctx: nat) {
    && ctx < |lines| && at < |lines[ctx]| && Agree(lines[ctx], at, s, l, 12)
    && forall i: nat, j: nat | i < |lines| && j < |lines[i]| && Agree(lines[i], j, s, l, 12) ::
         at <= j && (i > ctx ==> at < j)
  }

  lemma BestLineRule(s: seq<byte>, lines: Lines, l: nat)
    requires l < |s|
    ensures match BestLine(lines, s[l..], 0, None)
            case Some(m) => ChosenPlace(s, lines, l, m.at, m.ctx) && Longest(lines[m.ctx], m.at, s, l, m.n) && m.n >= 12
            case None => forall i: nat, j: nat | i < |lines| && j < |lines[i]| :: !Agree(lines[i], j, s, l, 12)
  {
    hide FirstFit, Lcp, Agree, BestLine, Longest;
    BestLineIsBest(lines, s[l..], 0, None);
    BestLineIsMatch(lines, s[l..], 0, None);
    var b := BestLine(lines, s[l..], 0, None);
    forall i: nat, j: nat | i < |lines| && j < |lines[i]| && Agree(lines[i], j, s, l, 12)
      ensures b.Some? && b.value.at <= j && (i > b.value.ctx ==> b.value.at < j)
    {
      FitRule(lines[i], s, l, 12);
    }
    if b.Some? {
      FitRule(lines[b.value.ctx], s, l, 12);
      LcpLongest(lines[b.value.ctx], b.value.at, s, l);
    }
  }

  /** Where neither a run token nor a copy token is due, a line token is written if and only if an earlier line
      holds twelve bytes at least. */
  lemma LineRule(s: seq<byte>, lines: Lines, cfg: Config, e: Enc)
    requires e.l < |s|
    ensures var m := Step(s, lines, cfg, e);
            && (m.item.LineCopy? <==> !RunDue(s, e) && !TextDue(s, cfg, e.l) && LineDue(s, lines, cfg, e.l))
            && (m.item.LineCopy? ==>
                  && 12 <= m.item.n && e.l + m.item.n <= |s|
                  && ChosenPlace(s, lines, e.l, m.item.at, m.item.ctx)
                  && Longest(lines[m.item.ctx], m.item.at, s, e.l, m.item.n)
                  && m.next == Enc(e.l + m.item.n, e.digits, e.upper, s[e.l + m.item.n - 2]))
  {
    hide BestLine, FirstFit, Lcp, LiteralMove, Agree, Longest, RunLength;
    LiteralIsLiteral(s, e);
    FitRule(s[..e.l], s, e.l, 7);
    BestLineRule(s, lines, e.l);
    BestLineIsMatch(lines, s[e.l..], 0, None);
  }

  // ----- literal rounds -----

  /** No token is due. */
  ghost predicate NothingDue(s: seq<byte>, lines: Lines, cfg: Config, e: Enc)
    requires e.l < |s|
  {
    !RunDue(s, e) && !TextDue(s, cfg, e.l) && !LineDue(s, lines, cfg, e.l)
  }

  lemma NothingIsLiteral(s: seq<byte>, lines: Lines, cfg: Config, e: Enc)
    requires e.l < |s| && NothingDue(s, lines, cfg, e)
    ensures Step(s, lines, cfg, e) == LiteralMove(s, e)
  {
    hide Step, LiteralMove, RunDue, TextDue, LineDue;
    RunRule(s, lines, cfg, e);
    CopyRule(s, lines, cfg, e);
    LineRule(s, lines, cfg, e);
    LiteralStep(s, lines, cfg, e);
  }

  /** Digit state is left exactly if the character, or the one after a space, is not in SET2_STR; and before
      anything else. */
  lemma TextSwitchRule(s: seq<byte>, lines: Lines, cfg: Config, e: Enc)
    requires e.l < |s| && NothingDue(s, lines, cfg, e)
    ensures var m := Step(s, lines, cfg, e);
            && (m.item.SwitchText? <==>
                  e.digits && forall i | 0 <= i < 42 ::
                                Set2Str(i) != if s[e.l] == ' ' as int && e.l + 1 < |s| then s[e.l + 1] else s[e.l])
            && (m.item.SwitchText? ==> m.next == Enc(e.l, false, e.upper, e.prev))
  {
    hide Step, NothingDue, Set2Str;
    NothingIsLiteral(s, lines, cfg, e);
    Set2IsSymbols(LookAt(s, e.l));
  }

  /** In text state, capitals are switched off at the first character that is no capital, and on at a capital
      if and only if six characters from there on exist and none of them is a small letter. */
  lemma CapitalsRule(s: seq<byte>, lines: Lines, cfg: Config, e: Enc)
    requires e.l < |s| && NothingDue(s, lines, cfg, e) && !Step(s, lines, cfg, e).item.SwitchText?
    ensures var m, capital := Step(s, lines, cfg, e), 'A' as int <= s[e.l] <= 'Z' as int;
            && (m.item.EndUpper? <==> e.upper && !capital)
            && (m.item.EndUpper? ==> m.next == Enc(e.l, e.digits, false, e.prev))
            && (m.item.BeginUpper? <==>
                  && !e.upper && capital && e.l + 5 < |s|
                  && forall i | e.l <= i <= e.l + 5 :: !('a' as int <= s[i] <= 'z' as int))
            && (m.item.BeginUpper? ==> m.next == Enc(e.l, e.digits, true, e.prev))
  {
    hide Step, NothingDue;
    NothingIsLiteral(s, lines, cfg, e);
  }

  /** Digit state is entered exactly before a digit in text state. */
  lemma DigitsRule(s: seq<byte>, lines: Lines, cfg: Config, e: Enc)
    requires e.l < |s| && NothingDue(s, lines, cfg, e)
    requires var item := Step(s, lines, cfg, e).item; !item.SwitchText? && !item.EndUpper? && !item.BeginUpper?
    ensures var m := Step(s, lines, cfg, e);
            && (m.item.SwitchDigits? <==> !e.digits && '0' as int <= s[e.l] <= '9' as int)
            && (m.item.SwitchDigits? ==> m.next == Enc(e.l, true, e.upper, e.prev))
  {
    hide Step, NothingDue;
    NothingIsLiteral(s, lines, cfg, e);
  }

  /** Otherwise the character is written, CR LF as one, and other bytes are dropped. c_prev is the last byte. */
  lemma CharacterRule(s: seq<byte>, lines: Lines, cfg: Config, e: Enc)
    requires e.l < |s| && NothingDue(s, lines, cfg, e)
    requires var item := Step(s, lines, cfg, e).item;
             !item.SwitchText? && !item.EndUpper? && !item.BeginUpper? && !item.SwitchDigits?
    ensures var c, crlf := s[e.l], s[e.l] == '\r' as int && e.l + 1 < |s| && s[e.l + 1] == '\n' as int;
            Step(s, lines, cfg, e)
            == Move(
                 if crlf then Crlf
                 else if c == '\r' as int then Cr
                 else if c == '\n' as int then Lf
                 else if c == '\t' as int then Tab
                 else if ' ' as int <= c <= '~' as int then Glyph(c)
                 else Dropped,
                 Enc(if crlf then e.l + 2 else e.l + 1, e.digits, e.upper, if crlf then '\n' as int else c))
  {
    hide Step, NothingDue;
    NothingIsLiteral(s, lines, cfg, e);
  }

  // ----- what is written -----

  /** The words of all items, as the codes of the source. */
  lemma ItemCodes(item: Item, digits: bool, upper: bool)
    ensures var w := ItemWord(item, digits, upper);
            match item
            case SwitchText => w == CodeBits(8192, 4)
            case EndUpper => w == CodeBits(8192, 4)
            case BeginUpper => w == CodeBits(8704, 8)
            case SwitchDigits => w == CodeBits(14336, 7)
            case Crlf => w == CodeBits(13824, 9)
            case Lf => w == CodeBits(13952, 9)
            case Cr => w == CodeBits(9064, 13)
            case Tab => w == CodeBits(9216, 7)
            case Repeat(n) => n >= 4 ==> w == CodeBits(14208, 10) + CountWord(n - 4)
            case Copy(n, back) =>
              7 <= n && 6 <= back ==> w == CodeBits(14144, 10) + CountWord(n - 7) + CountWord(back - 6)
            case LineCopy(n, at, ctx) =>
              12 <= n ==> w == CodeBits(14080, 10) + CountWord(n - 12) + CountWord(at) + CountWord(ctx)
            case Glyph(c) => IsPrintable(c) && !(upper && digits) ==>
              var i := if upper && IsUpper(c) then c else c - 32;
              w == if i == 0 && digits then CodeBits(15232, 11)
                   else if digits && C95(i) / 512 == 28 && L95(i) >= 7 then CodeBits(C95(i), L95(i))[7..]
                   else CodeBits(C95(i), L95(i))
            case Dropped => w == []
  {
    hide CodeBits, CountWord, CodeWord, SlotWord, GlyphWord, C95, L95, Place;
    ControlWords();
    SlotCodes();
    match item
    case Copy(n, back) => if 7 <= n && 6 <= back { CopyWord(n, back, digits, upper); }
    case LineCopy(n, at, ctx) => if 12 <= n { LineWord(LineMatch(n, at, ctx), digits, upper); }
    case Glyph(c) => if IsPrintable(c) && !(upper && digits) { GlyphCodes(c, digits, upper); }
    case _ =>
  }

  lemma GlyphCodes(c: byte, digits: bool, upper: bool)
    requires IsPrintable(c) && !(upper && digits)
    ensures var i := if upper && IsUpper(c) then c else c - 32;
            ItemWord(Glyph(c), digits, upper)
            == if i == 0 && digits then CodeBits(15232, 11)
               else if digits && C95(i) / 512 == 28 && L95(i) >= 7 then CodeBits(C95(i), L95(i))[7..]
               else CodeBits(C95(i), L95(i))
  {
    hide ItemWord, CodeWord, SlotWord, GlyphWord, C95, L95, Place, CodeBits, HasSet2Prefix;
    var i := if upper && IsUpper(c) then c else c - 32;
    CharEmitted(c, digits, upper);
    PrefixTest(15232);
    PrefixTest(C95(i));
    if digits && C95(i) / 512 == 28 { PrefixIsDigit(c); }
  }

  /** Only digits carry the prefix that is dropped, and it is part of their codes. */
  lemma PrefixIsDigit(c: byte)
    requires IsPrintable(c) && C95(c - 32) / 512 == 28
    ensures IsDigit(c) && L95(c - 32) >= 7
  {
    hide C95, L95;
    if IsUpper(c) {
      CapitalRow(c);
    } else {
      TableRow(c);
      if IsDigit(c) { DigitPlace(c); }
    }
  }

  /** The words of all counts. */
  lemma CountRule(n: nat)
    ensures CountWord(n) ==
            if n < 4 then [false] + Bin(n, 2)
            else if n < 36 then [true, false] + Bin(n - 4, 5)
            else if n < 164 then [true, true, false] + Bin(n - 36, 7)
            else if n < 676 then [true, true, true, false, false] + Bin(n - 164, 9)
            else if n < 4772 then [true, true, true, false, true] + Bin(n - 676, 12)
            else if n < 70308 then [true, true, true, true, false] + Bin(n - 4772, 16)
            else []
  {
    hide CodeWord, Bin;
    if n < COUNT_LIMIT { CodeWordSpelt(Horizontal, Bracket(n)); }
  }

  /** The padding is the beginning of one more code. */
  lemma PaddingRule(n: nat)
    ensures Padding(n) == if n % 8 == 0 then [] else CodeBits(14272, 8 - n % 8)
  {
    if n % 8 != 0 { PaddingCode(n); }
  }
}
