/** Reading codes and numbers off a bit string: the decoder's table walk inverts the code words. */
module Reader {
  import opened Bits
  import opened Codes

  /** What getCodeIdx finds: an index and the position after it, or 199 at the end of the input. */
  datatype Read = Got(idx: nat, next: nat) | Eof

  /** `1 << k` */
  function Weight(k: nat): (r: nat)
    requires k <= 5
  {
    match k case 0 => 1 case 1 => 2 case 2 => 4 case 3 => 8 case 4 => 16 case _ => 32
  }

  /** The walk tests the entry at `code` after `count` bits. */
  predicate Hit(t: Table, code: nat, count: nat)
    requires code < 32
  {
    Entry(t, code) != 0 && Entry(t, code) % 8 == count
  }

  /** The walk of getCodeIdx from a position at which `count` bits, worth `code`, have been read. */
  function Scan(t: Table, bits: Word, pos: nat, code: nat, count: nat): (r: Read)
    requires count < 5 && code < Weight(count)
    ensures r.Got? ==> pos < r.next <= |bits| && r.next <= pos + 5 - count && r.idx < Size(t)
    decreases 5 - count
  {
    if pos >= |bits| then Eof
    else
      var code' := code + (if bits[pos] then Weight(count) else 0);
      if Hit(t, code', count + 1) then EntryIndex(t, code'); Got(Entry(t, code') / 8, pos + 1)
      else if count + 1 < 5 then Scan(t, bits, pos + 1, code', count + 1)
      else Got(1, pos + 1)
  }

  lemma EntryIndex(t: Table, i: nat)
    requires i < 32
    ensures Entry(t, i) / 8 < Size(t)
  {
  }

  function ReadCode(t: Table, bits: Word, pos: nat): (r: Read)
    ensures r.Got? ==> pos < r.next <= |bits| && r.next <= pos + 5 && r.idx < Size(t)
  {
    Scan(t, bits, pos, 0, 0)
  }

  /** The code words, written out. */
  function Spelt(t: Table, i: nat): (r: Word)
    requires i < Size(t)
    ensures 1 <= |r| <= 5
  {
    match t
    case Vertical => (
      match i
      case 0 => [false, false] case 1 => [false, true, false] case 2 => [false, true, true]
      case 3 => [true, false, false] case 4 => [true, false, true, false] case 5 => [true, false, true, true]
      case 6 => [true, true, false, false] case 7 => [true, true, false, true] case 8 => [true, true, true, false]
      case 9 => [true, true, true, true, false] case _ => [true, true, true, true, true])
    case Horizontal => (
      match i
      case 0 => [true, false] case 1 => [false] case 2 => [true, true, false]
      case 3 => [true, true, true, false, false] case 4 => [true, true, true, false, true]
      case 5 => [true, true, true, true, false] case _ => [true, true, true, true, true])
  }

  lemma VerticalSpelt(i: nat)
    requires i < 11
    ensures CodeWord(Vertical, i) == Spelt(Vertical, i)
  {
    match i
    case 0 => case 1 => case 2 => case 3 => case 4 => case 5 => case 6 => case 7 => case 8 => case 9 => case _ =>
  }

  lemma HorizontalSpelt(i: nat)
    requires i < 7
    ensures CodeWord(Horizontal, i) == Spelt(Horizontal, i)
  {
    match i { case 0 => case 1 => case 2 => case 3 => case 4 => case 5 => case _ => }
  }

  lemma CodeWordSpelt(t: Table, i: nat)
    requires i < Size(t)
    ensures CodeWord(t, i) == Spelt(t, i)
  {
    if t == Vertical { VerticalSpelt(i); } else { HorizontalSpelt(i); }
  }

  /** A word of at most five bits stands at a position, bit by bit. */
  ghost predicate Stands(bits: Word, pos: nat, w: Word) {
    && 1 <= |w| <= 5 && pos + |w| <= |bits|
    && bits[pos] == w[0]
    && (|w| > 1 ==> bits[pos + 1] == w[1])
    && (|w| > 2 ==> bits[pos + 2] == w[2])
    && (|w| > 3 ==> bits[pos + 3] == w[3])
    && (|w| > 4 ==> bits[pos + 4] == w[4])
  }

  lemma StandsThere(bits: Word, pos: nat, w: Word)
    requires 1 <= |w| <= 5 && StartsAt(bits, pos, w)
    ensures Stands(bits, pos, w)
  {
    var part := bits[pos..pos + |w|];
    assert part[0] == bits[pos];
    assert |w| > 1 ==> part[1] == bits[pos + 1];
    assert |w| > 2 ==> part[2] == bits[pos + 2];
    assert |w| > 3 ==> part[3] == bits[pos + 3];
    assert |w| > 4 ==> part[4] == bits[pos + 4];
  }

  lemma VerticalShortest(bits: Word, pos: nat, i: nat)
    requires i <= 2 && Stands(bits, pos, Spelt(Vertical, i))
    ensures ReadCode(Vertical, bits, pos) == Got(i, pos + |Spelt(Vertical, i)|)
  {
    var n := pos + |Spelt(Vertical, i)|;
    match i
    case 0 =>
      assert Scan(Vertical, bits, pos + 1, 0, 1) == Got(0, n);
    case 1 =>
      assert Scan(Vertical, bits, pos + 2, 2, 2) == Got(1, n);
      assert Scan(Vertical, bits, pos + 1, 0, 1) == Got(1, n);
    case _ =>
      assert Scan(Vertical, bits, pos + 2, 2, 2) == Got(2, n);
      assert Scan(Vertical, bits, pos + 1, 0, 1) == Got(2, n);
  }

  lemma VerticalShort(bits: Word, pos: nat, i: nat)
    requires 3 <= i <= 5 && Stands(bits, pos, Spelt(Vertical, i))
    ensures ReadCode(Vertical, bits, pos) == Got(i, pos + |Spelt(Vertical, i)|)
  {
    var n := pos + |Spelt(Vertical, i)|;
    match i
    case 3 =>
      assert Scan(Vertical, bits, pos + 2, 1, 2) == Got(3, n);
      assert Scan(Vertical, bits, pos + 1, 1, 1) == Got(3, n);
    case 4 =>
      assert Scan(Vertical, bits, pos + 3, 5, 3) == Got(4, n);
      assert Scan(Vertical, bits, pos + 2, 1, 2) == Got(4, n);
      assert Scan(Vertical, bits, pos + 1, 1, 1) == Got(4, n);
    case _ =>
      assert Scan(Vertical, bits, pos + 3, 5, 3) == Got(5, n);
      assert Scan(Vertical, bits, pos + 2, 1, 2) == Got(5, n);
      assert Scan(Vertical, bits, pos + 1, 1, 1) == Got(5, n);
  }

  lemma VerticalLong(bits: Word, pos: nat, i: nat)
    requires 6 <= i <= 8 && Stands(bits, pos, Spelt(Vertical, i))
    ensures ReadCode(Vertical, bits, pos) == Got(i, pos + |Spelt(Vertical, i)|)
  {
    var n := pos + |Spelt(Vertical, i)|;
    match i
    case 6 =>
      assert Scan(Vertical, bits, pos + 3, 3, 3) == Got(6, n);
      assert Scan(Vertical, bits, pos + 2, 3, 2) == Got(6, n);
      assert Scan(Vertical, bits, pos + 1, 1, 1) == Got(6, n);
    case 7 =>
      assert Scan(Vertical, bits, pos + 3, 3, 3) == Got(7, n);
      assert Scan(Vertical, bits, pos + 2, 3, 2) == Got(7, n);
      assert Scan(Vertical, bits, pos + 1, 1, 1) == Got(7, n);
    case _ =>
      assert Scan(Vertical, bits, pos + 3, 7, 3) == Got(8, n);
      assert Scan(Vertical, bits, pos + 2, 3, 2) == Got(8, n);
      assert Scan(Vertical, bits, pos + 1, 1, 1) == Got(8, n);
  }

  lemma VerticalLongest(bits: Word, pos: nat, i: nat)
    requires 9 <= i <= 10 && Stands(bits, pos, Spelt(Vertical, i))
    ensures ReadCode(Vertical, bits, pos) == Got(i, pos + |Spelt(Vertical, i)|)
  {
    var n := pos + |Spelt(Vertical, i)|;
    match i
    case 9 =>
      assert Scan(Vertical, bits, pos + 4, 15, 4) == Got(9, n);
      assert Scan(Vertical, bits, pos + 3, 7, 3) == Got(9, n);
      assert Scan(Vertical, bits, pos + 2, 3, 2) == Got(9, n);
      assert Scan(Vertical, bits, pos + 1, 1, 1) == Got(9, n);
    case _ =>
      assert Scan(Vertical, bits, pos + 4, 15, 4) == Got(10, n);
      assert Scan(Vertical, bits, pos + 3, 7, 3) == Got(10, n);
      assert Scan(Vertical, bits, pos + 2, 3, 2) == Got(10, n);
      assert Scan(Vertical, bits, pos + 1, 1, 1) == Got(10, n);
  }

  lemma HorizontalShort(bits: Word, pos: nat, i: nat)
    requires i <= 3 && Stands(bits, pos, Spelt(Horizontal, i))
    ensures ReadCode(Horizontal, bits, pos) == Got(i, pos + |Spelt(Horizontal, i)|)
  {
    var n := pos + |Spelt(Horizontal, i)|;
    match i
    case 0 =>
      assert Scan(Horizontal, bits, pos + 1, 1, 1) == Got(0, n);
    case 1 =>
    case 2 =>
      assert Scan(Horizontal, bits, pos + 2, 3, 2) == Got(2, n);
      assert Scan(Horizontal, bits, pos + 1, 1, 1) == Got(2, n);
    case _ =>
      assert Scan(Horizontal, bits, pos + 4, 7, 4) == Got(3, n);
      assert Scan(Horizontal, bits, pos + 3, 7, 3) == Got(3, n);
      assert Scan(Horizontal, bits, pos + 2, 3, 2) == Got(3, n);
      assert Scan(Horizontal, bits, pos + 1, 1, 1) == Got(3, n);
  }

  lemma HorizontalLong(bits: Word, pos: nat, i: nat)
    requires 4 <= i <= 6 && Stands(bits, pos, Spelt(Horizontal, i))
    ensures ReadCode(Horizontal, bits, pos) == Got(i, pos + |Spelt(Horizontal, i)|)
  {
    var n := pos + |Spelt(Horizontal, i)|;
    match i
    case 4 =>
      assert Scan(Horizontal, bits, pos + 4, 7, 4) == Got(4, n);
      assert Scan(Horizontal, bits, pos + 3, 7, 3) == Got(4, n);
      assert Scan(Horizontal, bits, pos + 2, 3, 2) == Got(4, n);
      assert Scan(Horizontal, bits, pos + 1, 1, 1) == Got(4, n);
    case 5 =>
      assert Scan(Horizontal, bits, pos + 4, 15, 4) == Got(5, n);
      assert Scan(Horizontal, bits, pos + 3, 7, 3) == Got(5, n);
      assert Scan(Horizontal, bits, pos + 2, 3, 2) == Got(5, n);
      assert Scan(Horizontal, bits, pos + 1, 1, 1) == Got(5, n);
    case _ =>
      assert Scan(Horizontal, bits, pos + 4, 15, 4) == Got(6, n);
      assert Scan(Horizontal, bits, pos + 3, 7, 3) == Got(6, n);
      assert Scan(Horizontal, bits, pos + 2, 3, 2) == Got(6, n);
      assert Scan(Horizontal, bits, pos + 1, 1, 1) == Got(6, n);
  }

  /** getCodeIdx inverts the code words, whatever follows them. */
  lemma ReadWord(t: Table, bits: Word, pos: nat, i: nat)
    requires i < Size(t) && StartsAt(bits, pos, CodeWord(t, i))
    ensures ReadCode(t, bits, pos) == Got(i, pos + |CodeWord(t, i)|)
  {
    CodeWordSpelt(t, i);
    StandsThere(bits, pos, Spelt(t, i));
    if t == Horizontal {
      if i <= 3 { HorizontalShort(bits, pos, i); } else { HorizontalLong(bits, pos, i); }
    } else if i <= 2 { VerticalShortest(bits, pos, i); }
    else if i <= 5 { VerticalShort(bits, pos, i); }
    else if i <= 8 { VerticalLong(bits, pos, i); }
    else { VerticalLongest(bits, pos, i); }
  }

  /** The index whose code word five given bits begin with. */
  function Leading(t: Table, b: Word): (r: nat)
    requires |b| == 5
    ensures r < Size(t) && Spelt(t, r) <= b
  {
    match t
    case Vertical =>
      if !b[0] then (if !b[1] then 0 else if !b[2] then 1 else 2)
      else if !b[1] then (if !b[2] then 3 else if !b[3] then 4 else 5)
      else if !b[2] then (if !b[3] then 6 else 7)
      else if !b[3] then 8 else if !b[4] then 9 else 10
    case Horizontal =>
      if !b[0] then 1 else if !b[1] then 0 else if !b[2] then 2
      else if !b[3] then (if !b[4] then 3 else 4) else if !b[4] then 5 else 6
  }

  /** Any five bits begin with a code word: the fallback after five rounds is never taken. */
  lemma FiveBits(t: Table, bits: Word, pos: nat)
    requires pos + 5 <= |bits|
    ensures ReadCode(t, bits, pos).Got?
    ensures StartsAt(bits, pos, CodeWord(t, ReadCode(t, bits, pos).idx))
    ensures ReadCode(t, bits, pos).next == pos + |CodeWord(t, ReadCode(t, bits, pos).idx)|
  {
    var five := bits[pos..pos + 5];
    var i := Leading(t, five);
    CodeWordSpelt(t, i);
    assert bits[pos..pos + |Spelt(t, i)|] == five[..|Spelt(t, i)|];
    ReadWord(t, bits, pos, i);
  }

  /** getCodeIdx returns exactly the index of the code word that stands at the position, also when
      fewer than five bits are left. */
  lemma ReadCodeExact(t: Table, bits: Word, pos: nat, i: nat, n: nat)
    ensures ReadCode(t, bits, pos) == Got(i, n) <==>
            i < Size(t) && StartsAt(bits, pos, CodeWord(t, i)) && n == pos + |CodeWord(t, i)|
  {
    if i < Size(t) && StartsAt(bits, pos, CodeWord(t, i)) {
      ReadWord(t, bits, pos, i);
    }
    if ReadCode(t, bits, pos) == Got(i, n) {
      var more := bits + [false, false, false, false, false];
      ScanPrefix(t, bits, more, pos, 0, 0);
      FiveBits(t, more, pos);
      assert bits[pos..n] == more[pos..n];
    }
  }

  /** A walk that ends inside the input does not look at what follows. */
  lemma {:induction false} ScanPrefix(t: Table, bits: Word, more: Word, pos: nat, code: nat, count: nat)
    requires bits <= more && count < 5 && code < Weight(count)
    requires Scan(t, bits, pos, code, count).Got?
    ensures Scan(t, more, pos, code, count) == Scan(t, bits, pos, code, count)
    decreases 5 - count
  {
    hide Entry, Hit;
    var code' := code + (if bits[pos] then Weight(count) else 0);
    if !Hit(t, code', count + 1) && count + 1 < 5 {
      ScanPrefix(t, bits, more, pos + 1, code', count + 1);
    }
  }

  // ----- sequences of code words -----

  predicate Indices(t: Table, idx: seq<nat>) {
    forall k | 0 <= k < |idx| :: idx[k] < Size(t)
  }

  /** Code words one behind the other. */
  function Concatenated(t: Table, idx: seq<nat>): Word
    requires Indices(t, idx)
  {
    if idx == [] then [] else CodeWord(t, idx[0]) + Concatenated(t, idx[1..])
  }

  /** What `n` calls of getCodeIdx return, and the position after them; nothing if the input ends. */
  datatype Parse = Parsed(idx: seq<nat>, next: nat) | Cut

  function ReadCodes(t: Table, bits: Word, pos: nat, n: nat): Parse
    decreases n
  {
    if n == 0 then Parsed([], pos)
    else
      match ReadCode(t, bits, pos)
      case Eof => Cut
      case Got(i, p) =>
        match ReadCodes(t, bits, p, n - 1)
        case Cut => Cut
        case Parsed(idx, q) => Parsed([i] + idx, q)
  }

  /** Reading inverts concatenation, for any number of code words at any position. */
  lemma {:induction false} CodesInverse(t: Table, idx: seq<nat>, bits: Word, pos: nat)
    requires Indices(t, idx) && StartsAt(bits, pos, Concatenated(t, idx))
    ensures ReadCodes(t, bits, pos, |idx|) == Parsed(idx, pos + |Concatenated(t, idx)|)
  {
    hide ReadCode, CodeWord;
    if idx != [] {
      var w := CodeWord(t, idx[0]);
      StartsAtSplit(bits, pos, w, Concatenated(t, idx[1..]));
      ReadWord(t, bits, pos, idx[0]);
      CodesInverse(t, idx[1..], bits, pos + |w|);
    }
  }

  /** The first code word of a bit string is determined, and so is the rest. */
  lemma SameWord(t: Table, w: Word, i: nat, u: Word, j: nat, v: Word)
    requires i < Size(t) && j < Size(t) && w == CodeWord(t, i) + u == CodeWord(t, j) + v
    ensures i == j && u == v
  {
    hide ReadCode, CodeWord;
    assert w[0..|w|] == w;
    StartsAtSplit(w, 0, CodeWord(t, i), u);
    StartsAtSplit(w, 0, CodeWord(t, j), v);
    ReadWord(t, w, 0, i);
    ReadWord(t, w, 0, j);
    assert u == w[|CodeWord(t, i)|..] && v == w[|CodeWord(t, j)|..];
  }

  lemma NoEmptyWord(t: Table, idx: seq<nat>)
    requires Indices(t, idx)
    ensures Concatenated(t, idx) == [] ==> idx == []
  {
    hide CodeWord;
    if idx != [] { CodeWordSpelt(t, idx[0]); }
  }

  /** So no bit string is the concatenation of two different sequences. */
  lemma {:induction false} CodesUnique(t: Table, a: seq<nat>, b: seq<nat>)
    requires Indices(t, a) && Indices(t, b) && Concatenated(t, a) == Concatenated(t, b)
    ensures a == b
    decreases |a|
  {
    hide ReadCode, CodeWord;
    if a == [] || b == [] { NoEmptyWord(t, a); NoEmptyWord(t, b); }
    if a != [] && b != [] {
      var w := Concatenated(t, a);
      SameWord(t, w, a[0], Concatenated(t, a[1..]), b[0], Concatenated(t, b[1..]));
      CodesUnique(t, a[1..], b[1..]);
      assert a == [a[0]] + a[1..] && b == [b[0]] + b[1..];
    }
  }
}
