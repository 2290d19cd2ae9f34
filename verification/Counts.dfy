/** The variable-length code of run lengths, match lengths, distances and line numbers. */
module Counts {
  import opened Bits
  import opened BitBuffer
  import opened Codes
  import opened Words
  import opened Reader

  /** Counts from here on have no code: nothing at all is written for them. */
  const COUNT_LIMIT := 70308

  /** How many bits follow row code `h` ... */
  function Width(h: nat): nat
    requires h < 7
  {
    match h case 0 => 5 case 1 => 2 case 2 => 7 case 3 => 9 case 4 => 12 case 5 => 16 case _ => 17
  }

  /** ... and what is added to the number they spell. */
  function Base(h: nat): nat
    requires h < 7
  {
    match h case 0 => 4 case 1 => 0 case 2 => 36 case 3 => 164 case 4 => 676 case 5 => 4772 case _ => 0
  }

  /** The row code of a count. */
  function Bracket(n: nat): (h: nat)
    requires n < COUNT_LIMIT
    ensures h < 6 && Base(h) <= n && n - Base(h) < Pow2(Width(h))
  {
    Powers();
    if n < 4 then 1 else if n < 36 then 0 else if n < 164 then 2
    else if n < 676 then 3 else if n < 4772 then 4 else 5
  }

  lemma Powers()
    ensures Pow2(2) == 4 && Pow2(5) == 32 && Pow2(7) == 128 && Pow2(9) == 512 && Pow2(12) == 4096
    ensures Pow2(16) == 65536
  {
  }

  /** What is written for a count. */
  function CountWord(n: nat): (r: Word)
    ensures |r| <= 21
  {
    if n >= COUNT_LIMIT then []
    else CodeWord(Horizontal, Bracket(n)) + Bin(n - Base(Bracket(n)), Width(Bracket(n)))
  }

  // ----- the encoder's side -----

  /** encodeCount's own tables, in the order of growing counts. */
  function EncCode(i: nat): nat
    requires i < 7
  {
    match i case 0 => 0x01 case 1 => 0x82 case 2 => 0xC3 case 3 => 0xE5 case 4 => 0xED case 5 => 0xF5 case _ => 0xFD
  }

  function EncWidth(i: nat): nat
    requires i < 7
  {
    match i case 0 => 2 case 1 => 5 case 2 => 7 case 3 => 9 case 4 => 12 case 5 => 16 case _ => 17
  }

  function EncBase(i: nat): nat
    requires i < 7
  {
    match i case 0 => 0 case 1 => 4 case 2 => 36 case 3 => 164 case 4 => 676 case 5 => 4772 case _ => 0
  }

  /** The rows of the two sides are the same, the first two swapped. */
  function RowOf(i: nat): nat
    requires i < 6
  {
    if i == 0 then 1 else if i == 1 then 0 else i
  }

  lemma RowsSwapped(i: nat)
    requires i < 6
    ensures EncWidth(i) == Width(RowOf(i)) && EncBase(i) == Base(RowOf(i))
    ensures EncCode(i) % 8 == HLen(RowOf(i))
    ensures EncCode(i) / 8 * 8 * 256 == Up(HVal(RowOf(i)), 16 - HLen(RowOf(i)))
    ensures EncBase(i) + Pow2(EncWidth(i)) == if i < 5 then EncBase(i + 1) else COUNT_LIMIT
  {
    Powers();
  }

  lemma BracketIs(n: nat, i: nat)
    requires i < 6 && EncBase(i) <= n < (if i < 5 then EncBase(i + 1) else COUNT_LIMIT)
    ensures Bracket(n) == RowOf(i)
  {
  }

  /** What a round of encodeCount appends is the word of the count. */
  lemma RoundWord(n: nat, h: nat, code: nat, len: nat, x: nat, width: nat)
    requires n < COUNT_LIMIT && h == Bracket(n)
    requires code == Up(HVal(h), 16 - HLen(h)) && len == HLen(h)
    requires width == Width(h) && x == n - Base(h)
    ensures width <= 16 && CountWord(n) == CodeBits(code, len) + CodeBits(Shl(x, 16 - width), width)
  {
    hide CodeBits, Bin, Shl, Up;
    RowCode(h, code, len);
    CodeBitsShl(x, width, Shl(x, 16 - width));
  }

  lemma RowCode(h: nat, code: nat, len: nat)
    requires h < 7 && len == HLen(h) && code == Up(HVal(h), 16 - len)
    ensures CodeBits(code, len) == CodeWord(Horizontal, h)
  {
    CodeBitsUp(HVal(h), len, code);
  }

  method AppendTwo(out: array<byte>, ol: nat, code: nat, len: nat, code2: nat, len2: nat, ghost w: Word)
    returns (ol': nat)
    requires len <= 16 && len2 <= 16 && |w| == ol && ol + len + len2 <= 8 * out.Length
    requires Holds(out[..], w)
    modifies out
    ensures ol' == ol + len + len2 && Holds(out[..], w + (CodeBits(code, len) + CodeBits(code2, len2)))
  {
    HoldsReady(out[..], w, CodeBits(code, len));
    ol' := AppendBits(out, ol, code, len, false, w);
    HoldsReady(out[..], w + CodeBits(code, len), CodeBits(code2, len2));
    ol' := AppendBits(out, ol', code2, len2, false, w + CodeBits(code, len));
    assert w + CodeBits(code, len) + CodeBits(code2, len2) == w + (CodeBits(code, len) + CodeBits(code2, len2));
  }

  /** encodeCount */
  method EncodeCount(out: array<byte>, ol: nat, count: nat, ghost w: Word) returns (ol': nat)
    requires |w| == ol && Holds(out[..], w) && ol + |CountWord(count)| <= 8 * out.Length
    modifies out
    ensures ol' == ol + |CountWord(count)| && Holds(out[..], w + CountWord(count))
  {
    hide CountWord, CodeBits, Holds, Shl, Up, Bin;
    ol' := ol;
    var till := 0;
    for i := 0 to 6
      invariant till == (if i == 6 then COUNT_LIMIT else EncBase(i)) <= count
      invariant ol' == ol && Holds(out[..], w)
    {
      RowsSwapped(i);
      ShlIsMul(1, EncWidth(i));
      till := till + Shl(1, EncWidth(i));
      if count < till {
        var code, len, width, x := EncCode(i) / 8 * 8 * 256, EncCode(i) % 8, EncWidth(i), count - EncBase(i);
        BracketIs(count, i);
        RoundWord(count, RowOf(i), code, len, x, width);
        ol' := AppendTwo(out, ol', code, len, Shl(x, 16 - width), width, w);
        return;
      }
    }
    NoCode(count);
    assert w + [] == w;
  }

  /** A count of 70308 or more is not written at all. */
  lemma NoCode(n: nat)
    requires n >= COUNT_LIMIT
    ensures CountWord(n) == []
  {
  }

  // ----- the decoder's side -----

  /** What readCount returns and where it stops. At the end of the input it returns 0; a number that
      the input is too short for is read beyond its end. */
  datatype Count = Number(n: nat, next: nat) | Overrun

  function ReadCount(bits: Word, pos: nat): (r: Count)
    ensures r.Number? && pos <= |bits| ==> pos <= r.next <= |bits|
  {
    match ReadCode(Horizontal, bits, pos)
    case Eof => Number(0, |bits|)
    case Got(h, p) =>
      if p + Width(h) > |bits| then Overrun
      else Number(FromBin(bits[p..p + Width(h)]) + Base(h), p + Width(h))
  }

  lemma NumberAfterRow(bits: Word, pos: nat, h: nat, width: nat, x: nat)
    requires h < 7 && width == Width(h) && x < Pow2(width)
    requires StartsAt(bits, pos, CodeWord(Horizontal, h))
    requires StartsAt(bits, pos + |CodeWord(Horizontal, h)|, Bin(x, width))
    ensures ReadCount(bits, pos) == Number(x + Base(h), pos + |CodeWord(Horizontal, h)| + width)
  {
    hide ReadCode, CodeWord, Bin, FromBin, Pow2;
    ReadWord(Horizontal, bits, pos, h);
    FromBinBin(x, width);
  }

  /** readCount inverts encodeCount at any position, whatever follows. */
  lemma CountRoundTrip(n: nat, bits: Word, pos: nat)
    requires n < COUNT_LIMIT && StartsAt(bits, pos, CountWord(n))
    ensures ReadCount(bits, pos) == Number(n, pos + |CountWord(n)|)
  {
    var h := Bracket(n);
    StartsAtSplit(bits, pos, CodeWord(Horizontal, h), Bin(n - Base(h), Width(h)));
    NumberAfterRow(bits, pos, h, Width(h), n - Base(h));
  }
}
