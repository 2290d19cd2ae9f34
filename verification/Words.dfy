/** The words that `append_bits` writes for each character and control code, in terms of the
    code words of the decoder. */
module Words {
  import opened Bits
  import opened BitBuffer
  import opened Codes

  const BACK: Word := CodeWord(Vertical, 0) + CodeWord(Horizontal, 0)

  lemma {:induction false} Pow2Add(m: nat, n: nat)
    ensures Pow2(m) * Pow2(n) == Pow2(m + n)
  {
    if m > 0 {
      Pow2Add(m - 1, n);
      assert 2 * Pow2(m - 1) * Pow2(n) == 2 * (Pow2(m - 1) * Pow2(n));
    }
  }

  lemma Digits(x: nat, m: nat, y: nat, n: nat)
    requires x < m && y < n
    ensures x * n + y < m * n
  {
    assert (x + 1) * n <= m * n;
  }

  lemma SlotFits(s: Slot)
    requires s.h < 7 && s.v < 11
    ensures SlotVal(s) < Pow2(SlotLen(s))
  {
    CodeWordsFit(s.v);
    if s.h != 0 {
      var x, m, y, n := HVal(s.h), HLen(s.h), VVal(s.v), VLen(s.v);
      CodeWordsFit(s.h);
      UpMul(x, n);
      Pow2Add(m, n);
      Digits(x, Pow2(m), y, Pow2(n));
      Pow2Add(2, m + n);
      assert Pow2(2) == 4;
    }
  }

  lemma CapitalValue(v: nat, pn: nat, pk: nat, code: nat)
    requires pn * pk == 4096 && code == v * (16 * pk)
    ensures 8192 + code / 16 == (2 * pn + v) * pk
  {
    assert code == 16 * (v * pk);
    assert (2 * pn + v) * pk == 2 * (pn * pk) + v * pk;
  }

  lemma SmallPowers()
    ensures Pow2(4) == 16 && Pow2(12) == 4096
  {
  }

  /** Four more bits, 0010, in front of a code of at most twelve. */
  lemma PrefixCapital(v: nat, n: nat, code: nat)
    requires n <= 12 && v < Pow2(n) && code == v * Pow2(16 - n)
    ensures CodeBits(8192 + code / 16, 4 + n) == Bin(2, 4) + Bin(v, n)
  {
    hide CodeBits, Bin, Shl;
    var k := 12 - n;
    SmallPowers();
    hide Pow2;
    Pow2Add(4, k);
    Pow2Add(n, k);
    CapitalValue(v, Pow2(n), Pow2(k), code);
    var x := 2 * Pow2(n) + v;
    ShlIsMul(x, k);
    CodeBitsShl(x, 4 + n, x * Pow2(k));
    BinConcat(2, 4, v, n);
  }

  /** c_95 and l_95 spell what the decoder's tables read, for all 95 characters. */
  lemma GlyphBits(c: byte)
    requires IsPrintable(c)
    ensures L95(c - 32) <= 13
    ensures CodeBits(C95(c - 32), L95(c - 32)) == GlyphWord(c)
  {
    if IsUpper(c) {
      CapitalRow(c);
      var s := Place(c + 32);
      SlotBits(s);
      SlotFits(s);
      UpMul(SlotVal(s), 16 - SlotLen(s));
      PrefixCapital(SlotVal(s), SlotLen(s), C95(c));
      BackIsTwo();
    } else {
      TableRow(c);
      SlotBits(Place(c));
      CodeBitsUp(SlotVal(Place(c)), SlotLen(Place(c)), C95(c - 32));
    }
  }

  lemma BackIsTwo()
    ensures BACK == Bin(2, 4)
  {
    assert Pow2(2) == 4;
    BinConcat(0, 2, 2, 2);
  }

  lemma ShrThree(x: nat)
    ensures Shr(x, 3) == x / 8
  {
    assert Shr(x, 3) == Shr(x / 2, 2) == Shr(x / 2 / 2, 1);
  }

  lemma {:induction false} ShrTwice(x: nat, m: nat, n: nat)
    ensures Shr(Shr(x, m), n) == Shr(x, m + n)
    decreases m
  {
    if m > 0 { ShrTwice(x / 2, m - 1, n); }
  }

  /** `code >> 9` */
  lemma PrefixTest(code: nat)
    ensures HasSet2Prefix(code) <==> code / 512 == 28
  {
    hide Shr;
    ShrThree(code);
    ShrThree(code / 8);
    ShrThree(code / 64);
    ShrTwice(code, 3, 3);
    ShrTwice(code, 6, 3);
  }

  /** In digit state a digit loses the prefix that switches to set 2 and keeps its column only; every
      other character keeps its word. */
  lemma GlyphEmitted(c: byte, digits: bool)
    requires IsPrintable(c)
    ensures L95(c - 32) <= 13
    ensures Emitted(C95(c - 32), L95(c - 32), digits)
            == if digits && IsDigit(c) then CodeWord(Vertical, Place(c).v) else GlyphWord(c)
  {
    GlyphBits(c);
    PrefixTest(C95(c - 32));
    if IsUpper(c) { CapitalRow(c); } else { TableRow(c); }
    if IsDigit(c) {
      DigitPlace(c);
      var p := CodeWord(Vertical, 0) + CodeWord(Horizontal, 3);
      assert (p + CodeWord(Vertical, Place(c).v))[7..] == CodeWord(Vertical, Place(c).v);
    }
  }

  lemma DigitPlace(c: byte)
    requires IsDigit(c)
    ensures Place(c).h == 3
  {
  }

  /** The control codes. */
  lemma ControlWords()
    ensures CodeBits(8192, 4) == BACK
    ensures CodeBits(8704, 8) == BACK + BACK
    ensures CodeBits(14336, 7) == CodeWord(Vertical, 0) + CodeWord(Horizontal, 3)
    ensures CodeBits(9216, 7) == BACK + CodeWord(Vertical, 1)
    ensures CodeBits(9064, 13) == BACK + SlotWord(Slot(2, 7))
  {
    assert Pow2(4) == 16 && Pow2(5) == 32 && Pow2(3) == 8 && Pow2(9) == 512;
    BackIsTwo();
    CodeBitsUp(2, 4, 8192);
    CodeBitsUp(34, 8, 8704);
    BinConcat(2, 4, 2, 4);
    CodeBitsUp(28, 7, 14336);
    BinConcat(0, 2, 28, 5);
    CodeBitsUp(18, 7, 9216);
    BinConcat(2, 4, 2, 3);
    CodeBitsUp(1133, 13, 9064);
    SlotBits(Slot(2, 7));
    BinConcat(2, 4, 109, 9);
  }

  /** The codes that stand at a place of their own in `sets`. */
  lemma SlotCodes()
    ensures CodeBits(13824, 9) == SlotWord(Slot(2, 6))
    ensures CodeBits(13952, 9) == SlotWord(Slot(2, 7))
    ensures CodeBits(14208, 10) == SlotWord(Slot(2, 9))
    ensures CodeBits(14272, 10) == SlotWord(Slot(2, 10))
  {
    hide CodeBits, SlotWord, Bin;
    CodeBitsUp(108, 9, 13824);
    SlotBits(Slot(2, 6));
    CodeBitsUp(109, 9, 13952);
    SlotBits(Slot(2, 7));
    CodeBitsUp(222, 10, 14208);
    SlotBits(Slot(2, 9));
    CodeBitsUp(223, 10, 14272);
    SlotBits(Slot(2, 10));
  }

  /** A space in digit state. */
  lemma DigitSpace()
    ensures Emitted(15232, 11, true) == SlotWord(Slot(4, 6))
  {
    PrefixTest(15232);
    CodeBitsUp(476, 11, 15232);
    SlotBits(Slot(4, 6));
  }

  /** The two copy codes share a slot and differ in the bit after it. */
  lemma CopyCodes()
    ensures CodeBits(14144, 10) == SlotWord(Slot(2, 8)) + [true]
    ensures CodeBits(14080, 10) == SlotWord(Slot(2, 8)) + [false]
  {
    assert Pow2(1) == 2;
    SlotBits(Slot(2, 8));
    CodeBitsUp(221, 10, 14144);
    BinConcat(110, 9, 1, 1);
    CodeBitsUp(220, 10, 14080);
    BinConcat(110, 9, 0, 1);
    assert Bin(1, 1) == [] + [true] && Bin(0, 1) == [] + [false];
  }
}
