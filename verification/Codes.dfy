/** The code tables of the encoder and of the decoder, and the proof that they agree. */
module Codes {
  import opened Bits
  import opened BitBuffer

  // ----- the encoder's tables -----

  /** c_95: the code of printable character 32 + i, in the top bits of 16. */
  function C95(i: nat): (r: nat)
    requires i < 95
  {
    match i
    case 0 => 16384 case 1 => 16256 case 2 => 15744 case 3 => 16192 case 4 => 15328 case 5 => 15344
    case 6 => 15360 case 7 => 16064 case 8 => 15264 case 9 => 15296 case 10 => 15712 case 11 => 15200
    case 12 => 14976 case 13 => 15040 case 14 => 14848 case 15 => 15104 case 16 => 14528 case 17 => 14592
    case 18 => 14656 case 19 => 14688 case 20 => 14720 case 21 => 14752 case 22 => 14784 case 23 => 14816
    case 24 => 14832 case 25 => 14464 case 26 => 15552 case 27 => 15488 case 28 => 15616 case 29 => 15168
    case 30 => 15680 case 31 => 16000 case 32 => 15872 case 33 => 10752 case 34 => 8576 case 35 => 8192
    case 36 => 8320 case 37 => 9728 case 38 => 8672 case 39 => 8608 case 40 => 8384 case 41 => 11264
    case 42 => 9024 case 43 => 8992 case 44 => 12160 case 45 => 8544 case 46 => 11520 case 47 => 11008
    case 48 => 8512 case 49 => 9008 case 50 => 12032 case 51 => 11776 case 52 => 10240 case 53 => 8448
    case 54 => 8960 case 55 => 8640 case 56 => 9040 case 57 => 8688 case 58 => 9048 case 59 => 15840
    case 60 => 16288 case 61 => 15856 case 62 => 16128 case 63 => 16224 case 64 => 16368 case 65 => 40960
    case 66 => 6144 case 67 => 0 case 68 => 2048 case 69 => 24576 case 70 => 7680 case 71 => 6656
    case 72 => 3072 case 73 => 49152 case 74 => 13312 case 75 => 12800 case 76 => 63488 case 77 => 5632
    case 78 => 53248 case 79 => 45056 case 80 => 5120 case 81 => 13056 case 82 => 61440 case 83 => 57344
    case 84 => 32768 case 85 => 4096 case 86 => 12288 case 87 => 7168 case 88 => 13568 case 89 => 7936
    case 90 => 13696 case 91 => 15776 case 92 => 16320 case 93 => 15808 case _ => 16352
  }

  /** l_95: the length of that code. */
  function L95(i: nat): (r: nat)
    requires i < 95
    ensures 3 <= r <= 13
  {
    match i
    case 0 => 3 case 1 => 11 case 2 => 11 case 3 => 11 case 4 => 12 case 5 => 12 case 6 => 9 case 7 => 10
    case 8 => 11 case 9 => 11 case 10 => 11 case 11 => 11 case 12 => 10 case 13 => 10 case 14 => 9
    case 15 => 10 case 16 => 10 case 17 => 10 case 18 => 11 case 19 => 11 case 20 => 11 case 21 => 11
    case 22 => 11 case 23 => 12 case 24 => 12 case 25 => 10 case 26 => 10 case 27 => 10 case 28 => 10
    case 29 => 11 case 30 => 11 case 31 => 10 case 32 => 9 case 33 => 8 case 34 => 11 case 35 => 9
    case 36 => 10 case 37 => 7 case 38 => 12 case 39 => 11 case 40 => 10 case 41 => 8 case 42 => 12
    case 43 => 12 case 44 => 9 case 45 => 11 case 46 => 8 case 47 => 8 case 48 => 11 case 49 => 12
    case 50 => 9 case 51 => 8 case 52 => 7 case 53 => 10 case 54 => 11 case 55 => 11 case 56 => 13
    case 57 => 12 case 58 => 13 case 59 => 12 case 60 => 11 case 61 => 12 case 62 => 10 case 63 => 11
    case 64 => 12 case 65 => 4 case 66 => 7 case 67 => 5 case 68 => 6 case 69 => 3 case 70 => 8 case 71 => 7
    case 72 => 6 case 73 => 4 case 74 => 8 case 75 => 8 case 76 => 5 case 77 => 7 case 78 => 4 case 79 => 4
    case 80 => 7 case 81 => 8 case 82 => 5 case 83 => 4 case 84 => 3 case 85 => 6 case 86 => 7 case 87 => 7
    case 88 => 9 case 89 => 8 case 90 => 9 case 91 => 11 case 92 => 11 case 93 => 11 case _ => 12
  }

  /** SET2_STR[i], its terminator included. */
  function Set2Str(i: nat): (r: byte)
    requires i < 43
  {
    match i
    case 0 => 57 case 1 => 48 case 2 => 49 case 3 => 50 case 4 => 51 case 5 => 52 case 6 => 53 case 7 => 54
    case 8 => 55 case 9 => 56 case 10 => 46 case 11 => 44 case 12 => 45 case 13 => 47 case 14 => 61
    case 15 => 43 case 16 => 32 case 17 => 40 case 18 => 41 case 19 => 36 case 20 => 37 case 21 => 38
    case 22 => 59 case 23 => 58 case 24 => 60 case 25 => 62 case 26 => 42 case 27 => 34 case 28 => 123
    case 29 => 125 case 30 => 91 case 31 => 93 case 32 => 64 case 33 => 63 case 34 => 39 case 35 => 94
    case 36 => 35 case 37 => 95 case 38 => 33 case 39 => 92 case 40 => 124 case 41 => 126 case 42 => 96
    case _ => 0
  }

  /** `memchr(SET2_STR, c, 42) != NULL` */
  predicate InSet2(c: byte) {
    exists i :: 0 <= i < 42 && Set2Str(i) == c
  }

  // ----- the decoder's tables -----

  /** vcode tells the column of `sets`, hcode its row (and the index of a count). */
  datatype Table = Vertical | Horizontal

  /** Entry `i` of a decode table: the index times 8 plus the length of the code, or 0. The position
      is the code with its first bit lowest. */
  function Entry(t: Table, i: nat): nat
    requires i < 32
  {
    match t
    case Vertical => (
      match i
      case 0 => 2 case 1 => 3 + 3 * 8 case 2 => 3 + 1 * 8 case 3 => 4 + 6 * 8
      case 5 => 4 + 4 * 8 case 6 => 3 + 2 * 8 case 7 => 4 + 8 * 8 case 11 => 4 + 7 * 8
      case 13 => 4 + 5 * 8 case 15 => 5 + 9 * 8 case 31 => 5 + 10 * 8 case _ => 0)
    case Horizontal => (
      match i
      case 0 => 1 + 1 * 8 case 1 => 2 case 3 => 3 + 2 * 8 case 7 => 5 + 3 * 8
      case 15 => 5 + 5 * 8 case 23 => 5 + 4 * 8 case 31 => 5 + 6 * 8 case _ => 0)
  }

  /** sets[h][v] */
  function Sets(h: nat, v: nat): (r: byte)
    requires h < 7 && v < 11
  {
    match h
    case 0 => (match v case 0 => 32 case 1 => 32 case 2 => 101 case 3 => 116 case 4 => 97 case 5 => 111
      case 6 => 105 case 7 => 110 case 8 => 115 case 9 => 114 case _ => 108)
    case 1 => (match v case 0 => 99 case 1 => 100 case 2 => 104 case 3 => 117 case 4 => 112 case 5 => 109
      case 6 => 98 case 7 => 103 case 8 => 119 case 9 => 102 case _ => 121)
    case 2 => (match v case 0 => 118 case 1 => 107 case 2 => 113 case 3 => 106 case 4 => 120 case 5 => 122
      case 6 => 32 case 7 => 32 case 8 => 32 case 9 => 32 case _ => 32)
    case 3 => (match v case 0 => 32 case 1 => 57 case 2 => 48 case 3 => 49 case 4 => 50 case 5 => 51
      case 6 => 52 case 7 => 53 case 8 => 54 case 9 => 55 case _ => 56)
    case 4 => (match v case 0 => 46 case 1 => 44 case 2 => 45 case 3 => 47 case 4 => 61 case 5 => 43
      case 6 => 32 case 7 => 40 case 8 => 41 case 9 => 36 case _ => 37)
    case 5 => (match v case 0 => 38 case 1 => 59 case 2 => 58 case 3 => 60 case 4 => 62 case 5 => 42
      case 6 => 34 case 7 => 123 case 8 => 125 case 9 => 91 case _ => 93)
    case _ => (match v case 0 => 64 case 1 => 63 case 2 => 39 case 3 => 94 case 4 => 35 case 5 => 95
      case 6 => 33 case 7 => 92 case 8 => 124 case 9 => 126 case _ => 96)
  }

  // ----- the code words behind the decode tables -----

  function Size(t: Table): nat {
    match t case Vertical => 11 case Horizontal => 7
  }

  function VVal(v: nat): nat requires v < 11 {
    match v case 0 => 0 case 1 => 2 case 2 => 3 case 3 => 4 case 4 => 10 case 5 => 11 case 6 => 12
      case 7 => 13 case 8 => 14 case 9 => 30 case _ => 31
  }

  function VLen(v: nat): nat requires v < 11 {
    match v case 0 => 2 case 1 => 3 case 2 => 3 case 3 => 3 case 4 => 4 case 5 => 4 case 6 => 4 case 7 => 4
      case 8 => 4 case 9 => 5 case _ => 5
  }

  function HVal(h: nat): nat requires h < 7 {
    match h case 0 => 2 case 1 => 0 case 2 => 6 case 3 => 28 case 4 => 29 case 5 => 30 case _ => 31
  }

  function HLen(h: nat): nat requires h < 7 {
    match h case 0 => 2 case 1 => 1 case 2 => 3 case 3 => 5 case 4 => 5 case 5 => 5 case _ => 5
  }

  /** The code word of index `i`. */
  function CodeWord(t: Table, i: nat): Word
    requires i < Size(t)
  {
    match t
    case Vertical => Bin(VVal(i), VLen(i))
    case Horizontal => Bin(HVal(i), HLen(i))
  }

  /** A place in `sets`. */
  datatype Slot = Slot(h: nat, v: nat)

  predicate IsUpper(c: byte) { 65 <= c <= 90 }

  predicate IsLower(c: byte) { 97 <= c <= 122 }

  predicate IsDigit(c: byte) { 48 <= c <= 57 }

  predicate IsPrintable(c: byte) { 32 <= c <= 126 }

  /** Where a printable character other than a capital stands in `sets`. */
  function Place(c: byte): (r: Slot)
    requires IsPrintable(c) && !IsUpper(c)
    ensures r.h < 7 && r.v < 11 && (r.h == 0 || r.h == 3 ==> r.v >= 1)
  {
    match c
    case 32 => Slot(0, 1) case 33 => Slot(6, 6) case 34 => Slot(5, 6) case 35 => Slot(6, 4)
    case 36 => Slot(4, 9) case 37 => Slot(4, 10) case 38 => Slot(5, 0) case 39 => Slot(6, 2)
    case 40 => Slot(4, 7) case 41 => Slot(4, 8) case 42 => Slot(5, 5) case 43 => Slot(4, 5)
    case 44 => Slot(4, 1) case 45 => Slot(4, 2) case 46 => Slot(4, 0) case 47 => Slot(4, 3)
    case 48 => Slot(3, 2) case 49 => Slot(3, 3) case 50 => Slot(3, 4) case 51 => Slot(3, 5)
    case 52 => Slot(3, 6) case 53 => Slot(3, 7) case 54 => Slot(3, 8) case 55 => Slot(3, 9)
    case 56 => Slot(3, 10) case 57 => Slot(3, 1) case 58 => Slot(5, 2) case 59 => Slot(5, 1)
    case 60 => Slot(5, 3) case 61 => Slot(4, 4) case 62 => Slot(5, 4) case 63 => Slot(6, 1)
    case 64 => Slot(6, 0) case 91 => Slot(5, 9) case 92 => Slot(6, 7) case 93 => Slot(5, 10)
    case 94 => Slot(6, 3) case 95 => Slot(6, 5) case 96 => Slot(6, 10) case 97 => Slot(0, 4)
    case 98 => Slot(1, 6) case 99 => Slot(1, 0) case 100 => Slot(1, 1) case 101 => Slot(0, 2)
    case 102 => Slot(1, 9) case 103 => Slot(1, 7) case 104 => Slot(1, 2) case 105 => Slot(0, 6)
    case 106 => Slot(2, 3) case 107 => Slot(2, 1) case 108 => Slot(0, 10) case 109 => Slot(1, 5)
    case 110 => Slot(0, 7) case 111 => Slot(0, 5) case 112 => Slot(1, 4) case 113 => Slot(2, 2)
    case 114 => Slot(0, 9) case 115 => Slot(0, 8) case 116 => Slot(0, 3) case 117 => Slot(1, 3)
    case 118 => Slot(2, 0) case 119 => Slot(1, 8) case 120 => Slot(2, 4) case 121 => Slot(1, 10)
    case 122 => Slot(2, 5) case 123 => Slot(5, 7) case 124 => Slot(6, 8) case 125 => Slot(5, 8)
    case _ => Slot(6, 9)
  }

  /** The word that selects a slot: row 0 is the default and needs no row code. */
  function SlotWord(s: Slot): Word
    requires s.h < 7 && s.v < 11
  {
    if s.h == 0 then CodeWord(Vertical, s.v)
    else CodeWord(Vertical, 0) + CodeWord(Horizontal, s.h) + CodeWord(Vertical, s.v)
  }

  /** The word of one printable character in text state. */
  function GlyphWord(c: byte): Word
    requires IsPrintable(c)
  {
    if IsUpper(c) then CodeWord(Vertical, 0) + CodeWord(Horizontal, 0) + SlotWord(Place(c + 32))
    else SlotWord(Place(c))
  }

  // ----- agreement of the tables -----

  lemma PlaceInverts(c: byte)
    requires IsPrintable(c) && !IsUpper(c)
    ensures Sets(Place(c).h, Place(c).v) == c
  {
    match c
    case 32 => case 33 => case 34 => case 35 => case 36 => case 37 => case 38 => case 39 => case 40 =>
    case 41 => case 42 => case 43 => case 44 => case 45 => case 46 => case 47 => case 48 => case 49 =>
    case 50 => case 51 => case 52 => case 53 => case 54 => case 55 => case 56 => case 57 => case 58 =>
    case 59 => case 60 => case 61 => case 62 => case 63 => case 64 => case 91 => case 92 => case 93 =>
    case 94 => case 95 => case 96 => case 97 => case 98 => case 99 => case 100 => case 101 => case 102 =>
    case 103 => case 104 => case 105 => case 106 => case 107 => case 108 => case 109 => case 110 =>
    case 111 => case 112 => case 113 => case 114 => case 115 => case 116 => case 117 => case 118 =>
    case 119 => case 120 => case 121 => case 122 => case 123 => case 124 => case 125 => case 126 => case _ =>
  }

  /** Where memchr finds a character. */
  function Set2Pos(c: byte): (r: nat)
    ensures r < 42
  {
    match c
    case 57 => 0 case 48 => 1 case 49 => 2 case 50 => 3 case 51 => 4 case 52 => 5 case 53 => 6 case 54 => 7
    case 55 => 8 case 56 => 9 case 46 => 10 case 44 => 11 case 45 => 12 case 47 => 13 case 61 => 14
    case 43 => 15 case 32 => 16 case 40 => 17 case 41 => 18 case 36 => 19 case 37 => 20 case 38 => 21
    case 59 => 22 case 58 => 23 case 60 => 24 case 62 => 25 case 42 => 26 case 34 => 27 case 123 => 28
    case 125 => 29 case 91 => 30 case 93 => 31 case 64 => 32 case 63 => 33 case 39 => 34 case 94 => 35
    case 35 => 36 case 95 => 37 case 33 => 38 case 92 => 39 case 124 => 40 case _ => 41
  }

  predicate IsSymbol(c: byte) {
    IsPrintable(c) && !IsUpper(c) && !IsLower(c) && c != 96
  }

  lemma Set2Entries(i: nat)
    requires i < 42
    ensures IsSymbol(Set2Str(i))
  {
  }

  lemma Set2Positions(c: byte)
    requires IsSymbol(c)
    ensures Set2Str(Set2Pos(c)) == c
  {
  }

  /** The 42 characters searched are the printable ones that are not letters, except the backquote. */
  lemma Set2IsSymbols(c: byte)
    ensures InSet2(c) <==> IsSymbol(c)
  {
    if IsSymbol(c) {
      Set2Positions(c);
    } else {
      forall i | 0 <= i < 42
        ensures Set2Str(i) != c
      {
        Set2Entries(i);
      }
    }
  }

  /** `x << n` for the short shifts that occur in the tables. */
  function Up(x: nat, n: nat): nat
    requires n <= 16
  {
    match n
    case 0 => x case 1 => 2 * x case 2 => 4 * x case 3 => 8 * x case 4 => 16 * x case 5 => 32 * x
    case 6 => 64 * x case 7 => 128 * x case 8 => 256 * x case 9 => 512 * x case 10 => 1024 * x
    case 11 => 2048 * x case 12 => 4096 * x case 13 => 8192 * x case 14 => 16384 * x
    case 15 => 32768 * x case _ => 65536 * x
  }

  function SlotVal(s: Slot): nat
    requires s.h < 7 && s.v < 11
  {
    if s.h == 0 then VVal(s.v) else Up(HVal(s.h), VLen(s.v)) + VVal(s.v)
  }

  function SlotLen(s: Slot): (r: nat)
    requires s.h < 7 && s.v < 11
    ensures r <= 12
  {
    if s.h == 0 then VLen(s.v) else 2 + HLen(s.h) + VLen(s.v)
  }

  /** A row of the encoder's tables, as numbers read off the decoder's: not a capital ... */
  ghost predicate RowAgrees(c: byte)
    requires IsPrintable(c) && !IsUpper(c)
  {
    var s := Place(c);
    && L95(c - 32) == SlotLen(s)
    && C95(c - 32) == Up(SlotVal(s), 16 - SlotLen(s))
    && (C95(c - 32) / 512 == 28 <==> IsDigit(c))
    && (IsLower(c) ==> L95(c - 32) <= 9 && C95(c - 32) % 128 == 0)
  }

  /** ... and a capital: four bits, 0010, and the code of the small letter. */
  ghost predicate CapitalAgrees(c: byte)
    requires IsUpper(c)
  {
    L95(c - 32) == L95(c) + 4 && C95(c - 32) == 8192 + C95(c) / 16 && C95(c - 32) < 28 * 512
  }

  lemma Rows32To40(c: byte)
    requires 32 <= c <= 40
    ensures RowAgrees(c)
  {
  }

  lemma Rows41To47(c: byte)
    requires 41 <= c <= 47
    ensures RowAgrees(c)
  {
  }

  lemma Rows48To56(c: byte)
    requires 48 <= c <= 56
    ensures RowAgrees(c)
  {
  }

  lemma Rows57To64(c: byte)
    requires 57 <= c <= 64
    ensures RowAgrees(c)
  {
  }

  lemma Rows91To99(c: byte)
    requires 91 <= c <= 99
    ensures RowAgrees(c)
  {
  }

  lemma Rows100To104(c: byte)
    requires 100 <= c <= 104
    ensures RowAgrees(c)
  {
  }

  lemma Rows105To108(c: byte)
    requires 105 <= c <= 108
    ensures RowAgrees(c)
  {
  }

  lemma Rows109To113(c: byte)
    requires 109 <= c <= 113
    ensures RowAgrees(c)
  {
  }

  lemma Rows114To117(c: byte)
    requires 114 <= c <= 117
    ensures RowAgrees(c)
  {
  }

  lemma Rows118To122(c: byte)
    requires 118 <= c <= 122
    ensures RowAgrees(c)
  {
  }

  lemma Rows123To126(c: byte)
    requires 123 <= c <= 126
    ensures RowAgrees(c)
  {
  }

  lemma Capitals65To77(c: byte)
    requires 65 <= c <= 77
    ensures CapitalAgrees(c)
  {
  }

  lemma Capitals78To90(c: byte)
    requires 78 <= c <= 90
    ensures CapitalAgrees(c)
  {
  }

  lemma TableRow(c: byte)
    requires IsPrintable(c) && !IsUpper(c)
    ensures RowAgrees(c)
  {
    if c <= 40 { Rows32To40(c); }
    else if c <= 47 { Rows41To47(c); }
    else if c <= 56 { Rows48To56(c); }
    else if c <= 64 { Rows57To64(c); }
    else if c <= 99 { Rows91To99(c); }
    else if c <= 104 { Rows100To104(c); }
    else if c <= 108 { Rows105To108(c); }
    else if c <= 113 { Rows109To113(c); }
    else if c <= 117 { Rows114To117(c); }
    else if c <= 122 { Rows118To122(c); }
    else { Rows123To126(c); }
  }

  lemma CapitalRow(c: byte)
    requires IsUpper(c)
    ensures CapitalAgrees(c) && RowAgrees(c + 32)
  {
    if c <= 77 { Capitals65To77(c); } else { Capitals78To90(c); }
    TableRow(c + 32);
  }

  // ----- from numbers to words -----

  lemma UpStep(x: nat, n: nat)
    requires 0 < n <= 16
    ensures Up(x, n) == Up(2 * x, n - 1)
  {
  }

  lemma {:induction false} UpIsShl(x: nat, n: nat)
    requires n <= 16
    ensures Up(x, n) == Shl(x, n)
    decreases n
  {
    if n > 0 {
      UpStep(x, n);
      UpIsShl(2 * x, n - 1);
    }
  }

  lemma {:induction false} ShlIsMul(x: nat, n: nat)
    ensures Shl(x, n) == x * Pow2(n)
    decreases n
  {
    if n > 0 {
      ShlIsMul(2 * x, n - 1);
      assert 2 * x * Pow2(n - 1) == x * (2 * Pow2(n - 1));
    }
  }

  lemma CodeBitShl(x: nat, n: nat, i: nat)
    requires i < n <= 16
    ensures CodeBit(Shl(x, 16 - n), i) == Bin(x, n)[i]
  {
    ShlBin(x, 16 - n, n, i, 15 - i);
  }

  /** A code that is `x` moved to the top of 16 bits spells `x`. */
  lemma CodeBitsShl(x: nat, n: nat, code: nat)
    requires n <= 16 && code == Shl(x, 16 - n)
    ensures CodeBits(code, n) == Bin(x, n)
  {
    forall i | 0 <= i < n
      ensures CodeBit(code, i) == Bin(x, n)[i]
    {
      CodeBitShl(x, n, i);
    }
  }

  lemma CodeBitsUp(x: nat, n: nat, code: nat)
    requires n <= 16 && code == Up(x, 16 - n)
    ensures CodeBits(code, n) == Bin(x, n)
  {
    UpIsShl(x, 16 - n);
    CodeBitsShl(x, n, code);
  }

  lemma CodeWordsFit(i: nat)
    ensures i < 11 ==> VVal(i) < Pow2(VLen(i)) && VLen(i) <= 5
    ensures i < 7 ==> HVal(i) < Pow2(HLen(i)) && HLen(i) <= 5
  {
    assert Pow2(1) == 2 && Pow2(2) == 4 && Pow2(3) == 8 && Pow2(4) == 16 && Pow2(5) == 32;
  }

  lemma ThreeParts(x: nat, m: nat, y: nat, n: nat)
    requires x < Pow2(m) && y < Pow2(n)
    ensures Bin(x * Pow2(n) + y, 2 + m + n) == Bin(0, 2) + Bin(x, m) + Bin(y, n)
  {
    BinConcat(x, 2 + m, y, n);
    BinConcat(0, 2, x, m);
  }

  lemma SlotBits(s: Slot)
    requires s.h < 7 && s.v < 11
    ensures SlotWord(s) == Bin(SlotVal(s), SlotLen(s))
  {
    if s.h != 0 {
      CodeWordsFit(s.v);
      CodeWordsFit(s.h);
      UpMul(HVal(s.h), VLen(s.v));
      ThreeParts(HVal(s.h), HLen(s.h), VVal(s.v), VLen(s.v));
    }
  }

  lemma UpMul(x: nat, n: nat)
    requires n <= 16
    ensures Up(x, n) == x * Pow2(n)
  {
    UpIsShl(x, n);
    ShlIsMul(x, n);
  }
}
