/** The two matchers of the compressor, which write their tokens straight into the output. */
module Matchers {
  import opened Bits
  import opened BitBuffer
  import opened Codes
  import opened Words
  import opened Counts
  import opened Encoding

  /** The longest common prefix is the one length that has its property. */
  lemma LcpUnique(x: seq<byte>, y: seq<byte>, n: nat)
    requires n <= |x| && n <= |y| && x[..n] == y[..n]
    requires n == |x| || n == |y| || x[n] != y[n]
    ensures Lcp(x, y) == n
  {
    SamePrefix(x, y, n);
    SamePrefix(x, y, Lcp(x, y));
  }

  lemma SamePrefix(x: seq<byte>, y: seq<byte>, n: nat)
    requires n <= |x| && n <= |y| && x[..n] == y[..n]
    ensures forall i | 0 <= i < n :: x[i] == y[i]
  {
    forall i | 0 <= i < n
      ensures x[i] == y[i]
    {
      assert x[..n][i] == y[..n][i];
    }
  }

  /** The inner loop of both matchers: how far `x[..end]` from `j` on agrees with `s` from `l` on. */
  method CommonLength(x: seq<byte>, end: nat, j: nat, s: seq<byte>, l: nat) returns (n: nat)
    requires j <= end <= |x| && l <= |s|
    ensures n == Lcp(x[..end][j..], s[l..])
  {
    var k := j;
    while k < end && l + k - j < |s| && x[k] == s[l + k - j]
      invariant j <= k <= end && l + k - j <= |s|
      invariant forall i | j <= i < k :: x[i] == s[l + i - j]
    {
      k := k + 1;
    }
    n := k - j;
    var u, v := x[..end][j..], s[l..];
    forall i | 0 <= i < n
      ensures u[i] == v[i]
    {
      assert x[j + i] == s[l + (j + i) - j];
    }
    assert u[..n] == v[..n];
    LcpUnique(u, v, n);
  }

  lemma FitFound(x: seq<byte>, y: seq<byte>, min: nat, j: nat)
    requires j < |x| && Lcp(x[j..], y) >= min && forall i | 0 <= i < j :: Lcp(x[i..], y) < min
    ensures FirstFit(x, y, min, 0) == Some(j)
  {
    hide Lcp;
  }

  lemma NoFit(x: seq<byte>, y: seq<byte>, min: nat)
    requires forall i | 0 <= i < |x| :: Lcp(x[i..], y) < min
    ensures FirstFit(x, y, min, 0) == None
  {
  }

  /** The token of a match in the text, as the code and the two counts that are appended. */
  ghost function CopyToken(n: nat, back: nat): Word
    requires 7 <= n && 6 <= back
  {
    CodeBits(14144, 10) + CountWord(n - 7) + CountWord(back - 6)
  }

  lemma CopyWord(n: nat, back: nat, digits: bool, upper: bool)
    requires 7 <= n && 6 <= back
    ensures ItemWord(Copy(n, back), digits, upper) == CopyToken(n, back)
  {
    hide CodeBits, CountWord, SlotWord;
    CopyCodes();
    ConcatAssoc(CodeBits(14144, 10), CountWord(n - 7), CountWord(back - 6));
  }

  /** The token of a match in a line, likewise. */
  ghost function LineToken(m: LineMatch): Word
    requires m.n >= 12
  {
    CodeBits(14080, 10) + CountWord(m.n - 12) + CountWord(m.at) + CountWord(m.ctx)
  }

  lemma LineWord(m: LineMatch, digits: bool, upper: bool)
    requires 12 <= m.n
    ensures ItemWord(LineCopy(m.n, m.at, m.ctx), digits, upper) == LineToken(m)
  {
    hide CodeBits, CountWord, SlotWord;
    CopyCodes();
    ConcatAssoc4(CodeBits(14080, 10), CountWord(m.n - 12), CountWord(m.at), CountWord(m.ctx));
  }

  lemma PlainCode(code: nat, clen: nat)
    requires clen <= 16
    ensures Emitted(code, clen, false) == CodeBits(code, clen)
  {
  }

  /** Writes the token of a match in the text. */
  method WriteCopy(out: array<byte>, ol: nat, n: nat, back: nat, ghost w: Word) returns (ol': nat)
    requires 7 <= n <= back && |w| == ol && ol + 52 <= 8 * out.Length && Holds(out[..], w)
    modifies out
    ensures Holds(out[..], w + CopyToken(n, back)) && ol' == ol + |CopyToken(n, back)|
  {
    hide Holds, Ready, CountWord, CodeBits, Emitted;
    ghost var a, b, c := CodeBits(14144, 10), CountWord(n - 7), CountWord(back - 6);
    PlainCode(14144, 10);
    HoldsReady(out[..], w, a);
    ol' := AppendBits(out, ol, 14144, 10, false, w);
    ol' := EncodeCount(out, ol', n - NICE_LEN_FOR_PRIOR, w + a);
    ol' := EncodeCount(out, ol', back - NICE_LEN_FOR_PRIOR + 1, w + a + b);
    assert w + a + b + c == w + (a + b + c);
  }

  /** matchOccurance: the token of the first long enough match, and the position of its last byte; or
      nothing, and the position negated. */
  method MatchOccurance(s: seq<byte>, l: nat, out: array<byte>, ol: nat, ghost w: Word) returns (r: int, ol': nat)
    requires l < |s| && |w| == ol && ol + 52 <= 8 * out.Length && Holds(out[..], w)
    modifies out
    ensures var f := FirstFit(s[..l], s[l..], NICE_LEN_FOR_PRIOR, 0);
            match f
            case None => r == -(l as int) && ol' == ol && Holds(out[..], w)
            case Some(j) =>
              var n := Lcp(s[..l][j..], s[l..]);
              && r == l + n - 1 && r > 0
              && Holds(out[..], w + CopyToken(n, l - j)) && ol' == ol + |CopyToken(n, l - j)|
  {
    hide Holds, CopyToken, FirstFit, Lcp;
    ol' := ol;
    var j := 0;
    while j < l
      invariant 0 <= j <= l && ol' == ol && Holds(out[..], w)
      invariant forall i | 0 <= i < j :: Lcp(s[..l][i..], s[l..]) < NICE_LEN_FOR_PRIOR
    {
      var n := CommonLength(s, l, j, s, l);
      if n > NICE_LEN_FOR_PRIOR - 1 {
        ol' := WriteCopy(out, ol, n, l - j, w);
        FitFound(s[..l], s[l..], NICE_LEN_FOR_PRIOR, j);
        r := l + n;
        r := r - 1;
        return;
      }
      j := j + 1;
    }
    NoFit(s[..l], s[l..], NICE_LEN_FOR_PRIOR);
    r := -(l as int);
  }

  // ----- lines -----

  /** The buffer after a token of a line, or without one. */
  ghost predicate HoldsBest(buf: seq<byte>, ol: nat, w: Word, best: Option<LineMatch>) {
    match best
    case None => ol == |w| && Holds(buf, w)
    case Some(m) =>
      && m.n >= 12
      && Holds(buf, w + LineToken(m)) && ol == |w| + |LineToken(m)|
  }

  /** Rewinding: what an earlier token has left behind does no harm to the next one, because both begin
      with the same ten bits and less than eight of them share a byte with what is kept. */
  lemma RewindReady(buf: seq<byte>, w: Word, code: Word, rest: Word)
    requires |code| == 10 && Holds(buf, w + code + rest)
    ensures Ready(buf, w, code)
  {
    forall p | 0 <= p < |w|
      ensures BitAt(buf, p) == w[p]
    {
      assert BitAt(buf, p) == (w + code + rest)[p];
    }
    forall p | |w| <= p < RoundUp8(|w|) && BitAt(buf, p)
      ensures p - |w| < |code| && code[p - |w|]
    {
      assert BitAt(buf, p) == (w + code + rest)[p];
    }
  }

  lemma BestReady(buf: seq<byte>, ol: nat, w: Word, best: Option<LineMatch>)
    requires HoldsBest(buf, ol, w, best)
    ensures Ready(buf, w, CodeBits(14080, 10))
  {
    hide CodeBits, CountWord, Holds, Ready;
    match best
    case None => HoldsReady(buf, w, CodeBits(14080, 10));
    case Some(m) =>
      var rest := CountWord(m.n - 12) + CountWord(m.at) + CountWord(m.ctx);
      assert w + LineToken(m) == w + CodeBits(14080, 10) + rest;
      RewindReady(buf, w, CodeBits(14080, 10), rest);
  }

  /** Writes a token at the rewound position. */
  method WriteLine(out: array<byte>, ol: nat, m: LineMatch, ghost w: Word, ghost best: Option<LineMatch>,
                   ghost before: nat)
    returns (ol': nat)
    requires m.n >= 12 && |w| == ol && ol + 73 <= 8 * out.Length
    requires HoldsBest(out[..], before, w, best)
    modifies out
    ensures HoldsBest(out[..], ol', w, Some(m))
  {
    hide Holds, Ready, CountWord, CodeBits, Emitted;
    ghost var a, b, c, d := CodeBits(14080, 10), CountWord(m.n - 12), CountWord(m.at), CountWord(m.ctx);
    BestReady(out[..], before, w, best);
    PlainCode(14080, 10);
    ol' := AppendBits(out, ol, 14080, 10, false, w);
    ol' := EncodeCount(out, ol', m.n - NICE_LEN_FOR_OTHER, w + a);
    ol' := EncodeCount(out, ol', m.at, w + a + b);
    ol' := EncodeCount(out, ol', m.ctx, w + a + b + c);
    assert w + a + b + c + d == w + (a + b + c + d);
  }

  /** After trying the offsets below `j` of a line. */
  ghost predicate Tried(line: seq<byte>, y: seq<byte>, ctx: nat, before: Option<LineMatch>, j: nat,
                        best: Option<LineMatch>)
  {
    match FirstFit(line, y, NICE_LEN_FOR_OTHER, 0)
    case None => best == before
    case Some(f) => best == if f < j then TryLine(line, y, ctx, before) else before
  }

  lemma TriedNoFit(line: seq<byte>, y: seq<byte>, ctx: nat, before: Option<LineMatch>, j: nat, best: Option<LineMatch>)
    requires j < |line| && Tried(line, y, ctx, before, j, best)
    requires Lcp(line[j..], y) < NICE_LEN_FOR_OTHER
    ensures Tried(line, y, ctx, before, j + 1, best)
  {
  }

  /** A fit at an offset greater than that of the best match changes nothing ... */
  lemma TriedSkip(line: seq<byte>, y: seq<byte>, ctx: nat, before: Option<LineMatch>, j: nat, best: Option<LineMatch>)
    requires j < |line| && Tried(line, y, ctx, before, j, best)
    requires Lcp(line[j..], y) >= NICE_LEN_FOR_OTHER && best.Some? && j > best.value.at
    ensures Tried(line, y, ctx, before, j + 1, best)
  {
    hide Lcp;
    TryLineAt(line, y, ctx, before);
  }

  lemma TryLineAt(line: seq<byte>, y: seq<byte>, ctx: nat, before: Option<LineMatch>)
    ensures TryLine(line, y, ctx, before).Some? && FirstFit(line, y, NICE_LEN_FOR_OTHER, 0).Some? ==>
              TryLine(line, y, ctx, before).value.at <= FirstFit(line, y, NICE_LEN_FOR_OTHER, 0).value
  {
  }

  /** ... any other fit is the first of its line and becomes the best match. */
  lemma TriedTake(line: seq<byte>, y: seq<byte>, ctx: nat, before: Option<LineMatch>, j: nat, best: Option<LineMatch>)
    requires j < |line| && Tried(line, y, ctx, before, j, best)
    requires Lcp(line[j..], y) >= NICE_LEN_FOR_OTHER && !(best.Some? && j > best.value.at)
    ensures Tried(line, y, ctx, before, j + 1, Some(LineMatch(Lcp(line[j..], y), j, ctx)))
  {
    hide Lcp;
    TryLineAt(line, y, ctx, before);
  }

  /** matchLine: of the matches with earlier lines, the one that is left standing is the only one whose
      token is in the output, whatever has been written and taken back before. */
  method MatchLine(s: seq<byte>, l: nat, out: array<byte>, ol: nat, lines: Lines, ghost w: Word)
    returns (r: int, ol': nat)
    requires l < |s| && |w| == ol && ol + 73 <= 8 * out.Length && Holds(out[..], w)
    modifies out
    ensures var best := BestLine(lines, s[l..], 0, None);
            && HoldsBest(out[..], ol', w, best)
            && r == if best.Some? then l + best.value.n - 1 else -(l as int)
  {
    hide Holds, FirstFit, Lcp, TryLine, LineToken, Tried;
    ghost var y := s[l..];
    var lastOl := ol;
    ol' := ol;
    var lastLen: nat, lastDist: nat, lastCtx: nat := 0, 0, 0;
    ghost var best: Option<LineMatch> := None;
    var ctx := 0;
    while ctx < |lines|
      invariant ctx <= |lines|
      invariant BestLine(lines, y, ctx, best) == BestLine(lines, y, 0, None)
      invariant HoldsBest(out[..], ol', w, best)
      invariant if lastLen == 0 then best == None else best == Some(LineMatch(lastLen, lastDist, lastCtx))
    {
      var line := lines[ctx];
      ghost var before := best;
      assert Tried(line, y, ctx, before, 0, best) by { TriedNothing(line, y, ctx, before); }
      var j := 0;
      while j < |line|
        invariant j <= |line| && Tried(line, y, ctx, before, j, best)
        invariant HoldsBest(out[..], ol', w, best)
        invariant if lastLen == 0 then best == None else best == Some(LineMatch(lastLen, lastDist, lastCtx))
      {
        var n := CommonLength(line, |line|, j, s, l);
        assert line[..|line|] == line;
        if n >= NICE_LEN_FOR_OTHER {
          if lastLen != 0 && j > lastDist {
            TriedSkip(line, y, ctx, before, j, best);
            j := j + 1;
            continue;
          }
          ghost var end := ol';
          if lastLen != 0 {
            ol' := lastOl;
          }
          TriedTake(line, y, ctx, before, j, best);
          lastLen, lastDist, lastCtx := n, j, ctx;
          ol' := WriteLine(out, ol', LineMatch(lastLen, lastDist, lastCtx), w, best, end);
          best := Some(LineMatch(n, j, ctx));
        } else {
          TriedNoFit(line, y, ctx, before, j, best);
        }
        j := j + 1;
      }
      TriedAll(line, y, ctx, before, best);
      ctx := ctx + 1;
    }
    if lastLen != 0 {
      r := l + lastLen;
      r := r - 1;
    } else {
      r := -(l as int);
    }
  }

  lemma TriedNothing(line: seq<byte>, y: seq<byte>, ctx: nat, before: Option<LineMatch>)
    ensures Tried(line, y, ctx, before, 0, before)
  {
  }

  lemma TriedAll(line: seq<byte>, y: seq<byte>, ctx: nat, before: Option<LineMatch>, best: Option<LineMatch>)
    requires Tried(line, y, ctx, before, |line|, best)
    ensures best == TryLine(line, y, ctx, before)
  {
  }
}
