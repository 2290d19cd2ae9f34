/** The encoder as a state machine that emits one item per step. One round of the compressor's loop is
    one step, or a few steps at the same input position: the mode switches and then the character. */
module Encoding {
  import opened Bits
  import opened Codes
  import opened Words
  import opened Counts

  datatype Option<+T> = None | Some(value: T)

  /** to_match_repeats_within and to_match_repeats_earlier. */
  datatype Config = Config(within: bool, earlier: bool)

  const NICE_LEN_FOR_PRIOR := 7
  const NICE_LEN_FOR_OTHER := 12

  /** l, state == SHX_STATE_2, is_all_upper and c_prev. */
  datatype Enc = Enc(l: nat, digits: bool, upper: bool, prev: byte)

  const START := Enc(0, false, false, 0)

  datatype Item =
    | SwitchText
    | SwitchDigits
    | BeginUpper
    | EndUpper
    | Glyph(c: byte)
    | Crlf
    | Lf
    | Cr
    | Tab
    | Repeat(n: nat)
    | Copy(n: nat, back: nat)
    | LineCopy(n: nat, at: nat, ctx: nat)
    | Dropped

  // ----- matching -----

  /** Length of the longest common prefix. */
  function Lcp(x: seq<byte>, y: seq<byte>): (r: nat)
    ensures r <= |x| && r <= |y| && x[..r] == y[..r]
    ensures r == |x| || r == |y| || x[r] != y[r]
  {
    if x == [] || y == [] || x[0] != y[0] then 0
    else
      var r := 1 + Lcp(x[1..], y[1..]);
      assert x[..r] == [x[0]] + x[1..][..r - 1] && y[..r] == [y[0]] + y[1..][..r - 1];
      r
  }

  /** The first position of `x`, from `j` on, at which at least `min` bytes agree with `y`. */
  function FirstFit(x: seq<byte>, y: seq<byte>, min: nat, j: nat): (r: Option<nat>)
    requires j <= |x|
    ensures r.Some? ==> j <= r.value < |x| && Lcp(x[r.value..], y) >= min
    ensures forall i | j <= i < (if r.Some? then r.value else |x|) :: Lcp(x[i..], y) < min
    decreases |x| - j
  {
    if j == |x| then None
    else if Lcp(x[j..], y) >= min then Some(j)
    else FirstFit(x, y, min, j + 1)
  }

  /** A match with a previous line: its length, its offset in the line, and how many lines back. */
  datatype LineMatch = LineMatch(n: nat, at: nat, ctx: nat)

  /** The match that is left standing when all lines from `ctx` on have been tried. */
  function BestLine(lines: Lines, y: seq<byte>, ctx: nat, best: Option<LineMatch>): Option<LineMatch>
    decreases |lines| - ctx
  {
    if ctx >= |lines| then best
    else BestLine(lines, y, ctx + 1, TryLine(lines[ctx], y, ctx, best))
  }

  function TryLine(line: seq<byte>, y: seq<byte>, ctx: nat, best: Option<LineMatch>): Option<LineMatch> {
    match FirstFit(line, y, NICE_LEN_FOR_OTHER, 0)
    case None => best
    case Some(j) =>
      if best.Some? && j > best.value.at then best
      else Some(LineMatch(Lcp(line[j..], y), j, ctx))
  }

  /** Length of the run of one byte that starts at `l`. */
  function RunLength(s: seq<byte>, l: nat): (r: nat)
    requires l < |s|
    ensures 1 <= r && l + r <= |s| && forall i | l <= i < l + r :: s[i] == s[l]
    ensures l + r == |s| || s[l + r] != s[l]
    decreases |s| - l
  {
    if l + 1 < |s| && s[l + 1] == s[l] then 1 + RunLength(s, l + 1) else 1
  }

  predicate RepeatsAt(s: seq<byte>, l: nat, prev: byte)
    requires l < |s|
  {
    l + 4 < |s| && s[l] == prev && s[l] == s[l + 1] && s[l] == s[l + 2] && s[l] == s[l + 3]
  }

  /** Where the text before `l` matches the text from `l` on, if that is searched. */
  function EarlierText(s: seq<byte>, l: nat, cfg: Config): Option<nat>
    requires l <= |s|
  {
    if cfg.within && l + NICE_LEN_FOR_PRIOR < |s| then FirstFit(s[..l], s[l..], NICE_LEN_FOR_PRIOR, 0) else None
  }

  function EarlierLine(s: seq<byte>, l: nat, lines: Lines, cfg: Config): Option<LineMatch>
    requires l <= |s|
  {
    if cfg.earlier && l + NICE_LEN_FOR_OTHER < |s| then BestLine(lines, s[l..], 0, None) else None
  }

  // ----- one step -----

  datatype Move = Move(item: Item, next: Enc)

  /** The byte that decides whether digit state is left: for a space it is the one after it. */
  function LookAt(s: seq<byte>, l: nat): byte
    requires l < |s|
  {
    if s[l] == 32 && l + 1 < |s| then s[l + 1] else s[l]
  }

  /** The six bytes from `l` on exist and none of them is a small letter. */
  predicate SixNotLower(s: seq<byte>, l: nat) {
    l + 5 < |s| && forall i | l <= i <= l + 5 :: !IsLower(s[i])
  }

  predicate LeavesDigits(s: seq<byte>, e: Enc)
    requires e.l < |s|
  {
    e.digits && !IsSymbol(LookAt(s, e.l))
  }

  predicate LeavesUpper(s: seq<byte>, e: Enc)
    requires e.l < |s|
  {
    e.upper && !IsUpper(s[e.l])
  }

  predicate EntersUpper(s: seq<byte>, e: Enc)
    requires e.l < |s|
  {
    IsUpper(s[e.l]) && !e.upper && SixNotLower(s, e.l)
  }

  predicate EntersDigits(s: seq<byte>, e: Enc)
    requires e.l < |s|
  {
    !e.digits && IsDigit(s[e.l])
  }

  function CharMove(s: seq<byte>, e: Enc): Move
    requires e.l < |s|
  {
    var c := s[e.l];
    var e1 := e.(l := e.l + 1, prev := c);
    if IsPrintable(c) then Move(Glyph(c), e1)
    else if c == 13 && e.l + 1 < |s| && s[e.l + 1] == 10 then Move(Crlf, e.(l := e.l + 2, prev := 10))
    else if c == 10 then Move(Lf, e1)
    else if c == 13 then Move(Cr, e1)
    else if c == 9 then Move(Tab, e1)
    else Move(Dropped, e1)
  }

  function LiteralMove(s: seq<byte>, e: Enc): Move
    requires e.l < |s|
  {
    if LeavesDigits(s, e) then Move(SwitchText, e.(digits := false))
    else if LeavesUpper(s, e) then Move(EndUpper, e.(upper := false))
    else if EntersUpper(s, e) then Move(BeginUpper, e.(upper := true))
    else if EntersDigits(s, e) then Move(SwitchDigits, e.(digits := true))
    else CharMove(s, e)
  }

  function Step(s: seq<byte>, lines: Lines, cfg: Config, e: Enc): (m: Move)
    requires e.l < |s|
    ensures m.next.l <= |s|
    ensures m.next.l > e.l || (m.next.l == e.l && Rank(s, m.next) < Rank(s, e))
  {
    if RepeatsAt(s, e.l, e.prev) then
      var n := RunLength(s, e.l);
      Move(Repeat(n), e.(l := e.l + n))
    else
      match EarlierText(s, e.l, cfg)
      case Some(j) =>
        var n := Lcp(s[..e.l][j..], s[e.l..]);
        Move(Copy(n, e.l - j), e.(l := e.l + n, prev := s[e.l + n - 2]))
      case None =>
        match EarlierLine(s, e.l, lines, cfg)
        case Some(m) =>
          BestLineIsMatch(lines, s[e.l..], 0, None);
          Move(LineCopy(m.n, m.at, m.ctx), e.(l := e.l + m.n, prev := s[e.l + m.n - 2]))
        case None =>
          LiteralMove(s, e)
  }

  /** How many mode switches may still come before the character. */
  function Rank(s: seq<byte>, e: Enc): nat {
    if e.l >= |s| then 0
    else if LeavesDigits(s, e) then 4
    else if LeavesUpper(s, e) then 3
    else if EntersUpper(s, e) then 2
    else if EntersDigits(s, e) then 1
    else 0
  }

  /** The match found in a line lies in that line, agrees with the text and is long enough. */
  ghost predicate IsLineMatch(m: LineMatch, lines: Lines, y: seq<byte>) {
    && m.ctx < |lines| && m.at < |lines[m.ctx]|
    && m.n == Lcp(lines[m.ctx][m.at..], y) >= NICE_LEN_FOR_OTHER
  }

  lemma {:induction false} BestLineIsMatch(lines: Lines, y: seq<byte>, ctx: nat, best: Option<LineMatch>)
    requires best.Some? ==> IsLineMatch(best.value, lines, y)
    ensures BestLine(lines, y, ctx, best).Some? ==> IsLineMatch(BestLine(lines, y, ctx, best).value, lines, y)
    decreases |lines| - ctx
  {
    if ctx < |lines| {
      BestLineIsMatch(lines, y, ctx + 1, TryLine(lines[ctx], y, ctx, best));
    }
  }

  /** Of the first `k` lines, the match kept is in the line whose first fit has the least offset, and
      the last such line; there is none only if no line fits. */
  ghost predicate IsBest(best: Option<LineMatch>, lines: Lines, y: seq<byte>, k: nat)
    requires k <= |lines|
  {
    match best
    case None => forall i | 0 <= i < k :: FirstFit(lines[i], y, NICE_LEN_FOR_OTHER, 0).None?
    case Some(m) =>
      && m.ctx < k && FirstFit(lines[m.ctx], y, NICE_LEN_FOR_OTHER, 0) == Some(m.at)
      && m.n == Lcp(lines[m.ctx][m.at..], y)
      && forall i | 0 <= i < k && FirstFit(lines[i], y, NICE_LEN_FOR_OTHER, 0).Some? ::
           var j := FirstFit(lines[i], y, NICE_LEN_FOR_OTHER, 0).value;
           m.at <= j && (i > m.ctx ==> m.at < j)
  }

  lemma {:induction false} BestLineIsBest(lines: Lines, y: seq<byte>, k: nat, best: Option<LineMatch>)
    requires k <= |lines| && IsBest(best, lines, y, k)
    ensures IsBest(BestLine(lines, y, k, best), lines, y, |lines|)
    decreases |lines| - k
  {
    hide FirstFit, Lcp;
    if k < |lines| {
      BestLineIsBest(lines, y, k + 1, TryLine(lines[k], y, k, best));
    }
  }

  // ----- words -----

  /** What an item looks like in the compressed text, in the given modes. */
  function ItemWord(item: Item, digits: bool, upper: bool): Word {
    match item
    case SwitchText => BACK
    case EndUpper => BACK
    case BeginUpper => BACK + BACK
    case SwitchDigits => CodeWord(Vertical, 0) + CodeWord(Horizontal, 3)
    case Glyph(c) =>
      if !IsPrintable(c) then []
      else if c == 32 && digits then SlotWord(Slot(4, 6))
      else if digits && IsDigit(c) then CodeWord(Vertical, Place(c).v)
      else if upper && IsUpper(c) then GlyphWord(c + 32)
      else GlyphWord(c)
    case Crlf => SlotWord(Slot(2, 6))
    case Lf => SlotWord(Slot(2, 7))
    case Cr => BACK + SlotWord(Slot(2, 7))
    case Tab => BACK + CodeWord(Vertical, 1)
    case Repeat(n) => if n < 4 then [] else SlotWord(Slot(2, 9)) + CountWord(n - 4)
    case Copy(n, back) =>
      if n < 7 || back < 6 then []
      else SlotWord(Slot(2, 8)) + [true] + (CountWord(n - 7) + CountWord(back - 6))
    case LineCopy(n, at, ctx) =>
      if n < 12 then []
      else SlotWord(Slot(2, 8)) + [false] + (CountWord(n - 12) + (CountWord(at) + CountWord(ctx)))
    case Dropped => []
  }

  /** The bits written for the text from state `e` on. */
  function Encode(s: seq<byte>, lines: Lines, cfg: Config, e: Enc): Word
    decreases |s| - e.l, Rank(s, e)
  {
    if e.l >= |s| then []
    else
      var m := Step(s, lines, cfg, e);
      ItemWord(m.item, e.digits, e.upper) + Encode(s, lines, cfg, m.next)
  }

  /** The padding that fills the last byte: the first bits of a code that stands for nothing. */
  function Padding(n: nat): (r: Word)
    ensures (n + |r|) % 8 == 0 && |r| < 8
  {
    var pad := SlotWord(Slot(2, 10));
    assert |pad| == 10;
    if n % 8 == 0 then [] else pad[..8 - n % 8]
  }

  /** A bit string filled up to whole bytes. */
  function Filled(w: Word): (r: Word)
    ensures |r| % 8 == 0
  {
    w + Padding(|w|)
  }

  /** The compressed text, as bits. */
  function Compressed(s: seq<byte>, lines: Lines, cfg: Config): Word {
    Filled(Encode(s, lines, cfg, START))
  }
}
