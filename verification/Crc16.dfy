/** The table-driven CRC-16 of base/c_hash.c against the bit-serial register
    with polynomial 0x1021 and initial value 0. The accumulator is a 32-bit
    word that is never masked; only its low 16 bits are the register. */
module Crc16 {
  import opened CrcWords

  // ---- Doubling ----

  function Low(c: Word): Word { c & 0xffff }

  function Double(c: Word): Word { Low(c << 1) }

  predicate High(c: Word) { c & 0x8000 != 0 }

  /** A byte moved to the upper half of the register. */
  function Raise(x: Word): Word { x << 8 }

  lemma {:induction false} LowXor(a: Word, b: Word)
    ensures Low(Xor(a, b)) == Xor(Low(a), Low(b))
  {
  }

  lemma {:induction false} DoubleXor(a: Word, b: Word)
    ensures Double(Xor(a, b)) == Xor(Double(a), Double(b))
  {
  }

  lemma {:induction false} HighXor(a: Word, b: Word)
    ensures High(Xor(a, b)) <==> High(a) != High(b)
  {
  }

  // ---- The shift register, one message bit at a time ----

  const POLY: Word := 0x1021

  function Feedback(high: bool): Word { if high then POLY else 0 }

  /** The register moves one place towards its high end; a one that falls out
      feeds the polynomial back. */
  function Shift(c: Word): Word { Xor(Feedback(High(c)), Double(c)) }

  /** The register takes in one message bit. */
  function TakeBit(c: Word, bit: bool): Word { Shift(Xor(c, if bit then 0x8000 else 0)) }

  /** The bit-serial register after a stream of bits. */
  function Serial(c: Word, bits: seq<bool>): Word
    decreases |bits|
  {
    if bits == [] then c else Serial(TakeBit(c, bits[0]), bits[1..])
  }

  /** The top `n` bits of a 16-bit word, most significant first. */
  function TopBits(b: Word, n: nat): seq<bool>
    decreases n
  {
    if n == 0 then [] else [High(b)] + TopBits(Double(b), n - 1)
  }

  function MessageBits(key: seq<Byte>): seq<bool> {
    if key == [] then [] else MessageBits(key[..|key| - 1]) + TopBits(Raise(key[|key| - 1]), 8)
  }

  /** The register after a whole message. */
  function Register(key: seq<Byte>): Word { Serial(0, MessageBits(key)) }

  lemma {:induction false} SerialAppend(c: Word, x: seq<bool>, y: seq<bool>)
    ensures Serial(c, x + y) == Serial(Serial(c, x), y)
    decreases |x|
  {
    hide TakeBit;
    if x == [] {
      assert x + y == y;
    } else {
      assert (x + y)[1..] == x[1..] + y;
      SerialAppend(TakeBit(c, x[0]), x[1..], y);
    }
  }

  // ---- Linearity ----

  lemma {:induction false} FeedbackXor(a: bool, b: bool)
    ensures Feedback(a != b) == Xor(Feedback(a), Feedback(b))
  {
    hide Xor;
    XorZero(Feedback(a));
    XorZero(Feedback(b));
    XorSelf(POLY);
  }

  lemma {:induction false} ShiftXor(a: Word, b: Word)
    ensures Shift(Xor(a, b)) == Xor(Shift(a), Shift(b))
  {
    hide Xor, Double, High;
    DoubleXor(a, b);
    HighXor(a, b);
    FeedbackXor(High(a), High(b));
    XorRegroup(Feedback(High(a)), Feedback(High(b)), Double(a), Double(b));
  }

  /** Eight moves of the register. */
  function Entry(x: Word): Word {
    Shift(Shift(Shift(Shift(Shift(Shift(Shift(Shift(x))))))))
  }

  lemma {:induction false} EntryXor(a: Word, b: Word)
    ensures Entry(Xor(a, b)) == Xor(Entry(a), Entry(b))
  {
    hide Shift, Xor;
    var a1, b1 := Shift(a), Shift(b);
    var a2, b2 := Shift(a1), Shift(b1);
    var a3, b3 := Shift(a2), Shift(b2);
    var a4, b4 := Shift(a3), Shift(b3);
    var a5, b5 := Shift(a4), Shift(b4);
    var a6, b6 := Shift(a5), Shift(b5);
    var a7, b7 := Shift(a6), Shift(b6);
    ShiftXor(a, b);
    ShiftXor(a1, b1);
    ShiftXor(a2, b2);
    ShiftXor(a3, b3);
    ShiftXor(a4, b4);
    ShiftXor(a5, b5);
    ShiftXor(a6, b6);
    ShiftXor(a7, b7);
  }

  /** Nothing is fed back while zeros fall out. */
  lemma {:induction false} EntryLow(x: Byte)
    ensures Entry(x) == Raise(x)
  {
  }

  lemma {:induction false} PartsFit(x: Word)
    ensures Low(Feedback(High(x))) == Feedback(High(x)) && Low(Double(x)) == Double(x)
  {
  }

  lemma {:induction false} ShiftFits(x: Word)
    ensures Low(Shift(x)) == Shift(x)
  {
    hide Low, Xor, Double, Feedback;
    PartsFit(x);
    LowXor(Feedback(High(x)), Double(x));
  }

  // ---- The table ----

  /** The first entry of each row. */
  function Column(x: Word): Word {
    if x == 0x00 then 0x0000
    else if x == 0x10 then 0x1231
    else if x == 0x20 then 0x2462
    else if x == 0x30 then 0x3653
    else if x == 0x40 then 0x48c4
    else if x == 0x50 then 0x5af5
    else if x == 0x60 then 0x6ca6
    else if x == 0x70 then 0x7e97
    else if x == 0x80 then 0x9188
    else if x == 0x90 then 0x83b9
    else if x == 0xa0 then 0xb5ea
    else if x == 0xb0 then 0xa7db
    else if x == 0xc0 then 0xd94c
    else if x == 0xd0 then 0xcb7d
    else if x == 0xe0 then 0xfd2e
    else 0xef1f
  }

  function Row0(x: Word): Word {
    if x == 0x00 then 0x0000
    else if x == 0x01 then 0x1021
    else if x == 0x02 then 0x2042
    else if x == 0x03 then 0x3063
    else if x == 0x04 then 0x4084
    else if x == 0x05 then 0x50a5
    else if x == 0x06 then 0x60c6
    else if x == 0x07 then 0x70e7
    else if x == 0x08 then 0x8108
    else if x == 0x09 then 0x9129
    else if x == 0x0a then 0xa14a
    else if x == 0x0b then 0xb16b
    else if x == 0x0c then 0xc18c
    else if x == 0x0d then 0xd1ad
    else if x == 0x0e then 0xe1ce
    else 0xf1ef
  }

  function Row1(x: Word): Word {
    if x == 0x00 then 0x1231
    else if x == 0x01 then 0x0210
    else if x == 0x02 then 0x3273
    else if x == 0x03 then 0x2252
    else if x == 0x04 then 0x52b5
    else if x == 0x05 then 0x4294
    else if x == 0x06 then 0x72f7
    else if x == 0x07 then 0x62d6
    else if x == 0x08 then 0x9339
    else if x == 0x09 then 0x8318
    else if x == 0x0a then 0xb37b
    else if x == 0x0b then 0xa35a
    else if x == 0x0c then 0xd3bd
    else if x == 0x0d then 0xc39c
    else if x == 0x0e then 0xf3ff
    else 0xe3de
  }

  function Row2(x: Word): Word {
    if x == 0x00 then 0x2462
    else if x == 0x01 then 0x3443
    else if x == 0x02 then 0x0420
    else if x == 0x03 then 0x1401
    else if x == 0x04 then 0x64e6
    else if x == 0x05 then 0x74c7
    else if x == 0x06 then 0x44a4
    else if x == 0x07 then 0x5485
    else if x == 0x08 then 0xa56a
    else if x == 0x09 then 0xb54b
    else if x == 0x0a then 0x8528
    else if x == 0x0b then 0x9509
    else if x == 0x0c then 0xe5ee
    else if x == 0x0d then 0xf5cf
    else if x == 0x0e then 0xc5ac
    else 0xd58d
  }

  function Row3(x: Word): Word {
    if x == 0x00 then 0x3653
    else if x == 0x01 then 0x2672
    else if x == 0x02 then 0x1611
    else if x == 0x03 then 0x0630
    else if x == 0x04 then 0x76d7
    else if x == 0x05 then 0x66f6
    else if x == 0x06 then 0x5695
    else if x == 0x07 then 0x46b4
    else if x == 0x08 then 0xb75b
    else if x == 0x09 then 0xa77a
    else if x == 0x0a then 0x9719
    else if x == 0x0b then 0x8738
    else if x == 0x0c then 0xf7df
    else if x == 0x0d then 0xe7fe
    else if x == 0x0e then 0xd79d
    else 0xc7bc
  }

  function Row4(x: Word): Word {
    if x == 0x00 then 0x48c4
    else if x == 0x01 then 0x58e5
    else if x == 0x02 then 0x6886
    else if x == 0x03 then 0x78a7
    else if x == 0x04 then 0x0840
    else if x == 0x05 then 0x1861
    else if x == 0x06 then 0x2802
    else if x == 0x07 then 0x3823
    else if x == 0x08 then 0xc9cc
    else if x == 0x09 then 0xd9ed
    else if x == 0x0a then 0xe98e
    else if x == 0x0b then 0xf9af
    else if x == 0x0c then 0x8948
    else if x == 0x0d then 0x9969
    else if x == 0x0e then 0xa90a
    else 0xb92b
  }

  function Row5(x: Word): Word {
    if x == 0x00 then 0x5af5
    else if x == 0x01 then 0x4ad4
    else if x == 0x02 then 0x7ab7
    else if x == 0x03 then 0x6a96
    else if x == 0x04 then 0x1a71
    else if x == 0x05 then 0x0a50
    else if x == 0x06 then 0x3a33
    else if x == 0x07 then 0x2a12
    else if x == 0x08 then 0xdbfd
    else if x == 0x09 then 0xcbdc
    else if x == 0x0a then 0xfbbf
    else if x == 0x0b then 0xeb9e
    else if x == 0x0c then 0x9b79
    else if x == 0x0d then 0x8b58
    else if x == 0x0e then 0xbb3b
    else 0xab1a
  }

  function Row6(x: Word): Word {
    if x == 0x00 then 0x6ca6
    else if x == 0x01 then 0x7c87
    else if x == 0x02 then 0x4ce4
    else if x == 0x03 then 0x5cc5
    else if x == 0x04 then 0x2c22
    else if x == 0x05 then 0x3c03
    else if x == 0x06 then 0x0c60
    else if x == 0x07 then 0x1c41
    else if x == 0x08 then 0xedae
    else if x == 0x09 then 0xfd8f
    else if x == 0x0a then 0xcdec
    else if x == 0x0b then 0xddcd
    else if x == 0x0c then 0xad2a
    else if x == 0x0d then 0xbd0b
    else if x == 0x0e then 0x8d68
    else 0x9d49
  }

  function Row7(x: Word): Word {
    if x == 0x00 then 0x7e97
    else if x == 0x01 then 0x6eb6
    else if x == 0x02 then 0x5ed5
    else if x == 0x03 then 0x4ef4
    else if x == 0x04 then 0x3e13
    else if x == 0x05 then 0x2e32
    else if x == 0x06 then 0x1e51
    else if x == 0x07 then 0x0e70
    else if x == 0x08 then 0xff9f
    else if x == 0x09 then 0xefbe
    else if x == 0x0a then 0xdfdd
    else if x == 0x0b then 0xcffc
    else if x == 0x0c then 0xbf1b
    else if x == 0x0d then 0xaf3a
    else if x == 0x0e then 0x9f59
    else 0x8f78
  }

  function Row8(x: Word): Word {
    if x == 0x00 then 0x9188
    else if x == 0x01 then 0x81a9
    else if x == 0x02 then 0xb1ca
    else if x == 0x03 then 0xa1eb
    else if x == 0x04 then 0xd10c
    else if x == 0x05 then 0xc12d
    else if x == 0x06 then 0xf14e
    else if x == 0x07 then 0xe16f
    else if x == 0x08 then 0x1080
    else if x == 0x09 then 0x00a1
    else if x == 0x0a then 0x30c2
    else if x == 0x0b then 0x20e3
    else if x == 0x0c then 0x5004
    else if x == 0x0d then 0x4025
    else if x == 0x0e then 0x7046
    else 0x6067
  }

  function Row9(x: Word): Word {
    if x == 0x00 then 0x83b9
    else if x == 0x01 then 0x9398
    else if x == 0x02 then 0xa3fb
    else if x == 0x03 then 0xb3da
    else if x == 0x04 then 0xc33d
    else if x == 0x05 then 0xd31c
    else if x == 0x06 then 0xe37f
    else if x == 0x07 then 0xf35e
    else if x == 0x08 then 0x02b1
    else if x == 0x09 then 0x1290
    else if x == 0x0a then 0x22f3
    else if x == 0x0b then 0x32d2
    else if x == 0x0c then 0x4235
    else if x == 0x0d then 0x5214
    else if x == 0x0e then 0x6277
    else 0x7256
  }

  function RowA(x: Word): Word {
    if x == 0x00 then 0xb5ea
    else if x == 0x01 then 0xa5cb
    else if x == 0x02 then 0x95a8
    else if x == 0x03 then 0x8589
    else if x == 0x04 then 0xf56e
    else if x == 0x05 then 0xe54f
    else if x == 0x06 then 0xd52c
    else if x == 0x07 then 0xc50d
    else if x == 0x08 then 0x34e2
    else if x == 0x09 then 0x24c3
    else if x == 0x0a then 0x14a0
    else if x == 0x0b then 0x0481
    else if x == 0x0c then 0x7466
    else if x == 0x0d then 0x6447
    else if x == 0x0e then 0x5424
    else 0x4405
  }

  function RowB(x: Word): Word {
    if x == 0x00 then 0xa7db
    else if x == 0x01 then 0xb7fa
    else if x == 0x02 then 0x8799
    else if x == 0x03 then 0x97b8
    else if x == 0x04 then 0xe75f
    else if x == 0x05 then 0xf77e
    else if x == 0x06 then 0xc71d
    else if x == 0x07 then 0xd73c
    else if x == 0x08 then 0x26d3
    else if x == 0x09 then 0x36f2
    else if x == 0x0a then 0x0691
    else if x == 0x0b then 0x16b0
    else if x == 0x0c then 0x6657
    else if x == 0x0d then 0x7676
    else if x == 0x0e then 0x4615
    else 0x5634
  }

  function RowC(x: Word): Word {
    if x == 0x00 then 0xd94c
    else if x == 0x01 then 0xc96d
    else if x == 0x02 then 0xf90e
    else if x == 0x03 then 0xe92f
    else if x == 0x04 then 0x99c8
    else if x == 0x05 then 0x89e9
    else if x == 0x06 then 0xb98a
    else if x == 0x07 then 0xa9ab
    else if x == 0x08 then 0x5844
    else if x == 0x09 then 0x4865
    else if x == 0x0a then 0x7806
    else if x == 0x0b then 0x6827
    else if x == 0x0c then 0x18c0
    else if x == 0x0d then 0x08e1
    else if x == 0x0e then 0x3882
    else 0x28a3
  }

  function RowD(x: Word): Word {
    if x == 0x00 then 0xcb7d
    else if x == 0x01 then 0xdb5c
    else if x == 0x02 then 0xeb3f
    else if x == 0x03 then 0xfb1e
    else if x == 0x04 then 0x8bf9
    else if x == 0x05 then 0x9bd8
    else if x == 0x06 then 0xabbb
    else if x == 0x07 then 0xbb9a
    else if x == 0x08 then 0x4a75
    else if x == 0x09 then 0x5a54
    else if x == 0x0a then 0x6a37
    else if x == 0x0b then 0x7a16
    else if x == 0x0c then 0x0af1
    else if x == 0x0d then 0x1ad0
    else if x == 0x0e then 0x2ab3
    else 0x3a92
  }

  function RowE(x: Word): Word {
    if x == 0x00 then 0xfd2e
    else if x == 0x01 then 0xed0f
    else if x == 0x02 then 0xdd6c
    else if x == 0x03 then 0xcd4d
    else if x == 0x04 then 0xbdaa
    else if x == 0x05 then 0xad8b
    else if x == 0x06 then 0x9de8
    else if x == 0x07 then 0x8dc9
    else if x == 0x08 then 0x7c26
    else if x == 0x09 then 0x6c07
    else if x == 0x0a then 0x5c64
    else if x == 0x0b then 0x4c45
    else if x == 0x0c then 0x3ca2
    else if x == 0x0d then 0x2c83
    else if x == 0x0e then 0x1ce0
    else 0x0cc1
  }

  function RowF(x: Word): Word {
    if x == 0x00 then 0xef1f
    else if x == 0x01 then 0xff3e
    else if x == 0x02 then 0xcf5d
    else if x == 0x03 then 0xdf7c
    else if x == 0x04 then 0xaf9b
    else if x == 0x05 then 0xbfba
    else if x == 0x06 then 0x8fd9
    else if x == 0x07 then 0x9ff8
    else if x == 0x08 then 0x6e17
    else if x == 0x09 then 0x7e36
    else if x == 0x0a then 0x4e55
    else if x == 0x0b then 0x5e74
    else if x == 0x0c then 0x2e93
    else if x == 0x0d then 0x3eb2
    else if x == 0x0e then 0x0ed1
    else 0x1ef0
  }

  /** The entry of `crc16tab` for the byte `x`: the row is chosen by the high
      half, the place in it by the low half. */
  function Table(x: Byte): Word { if x & 0x80 == 0 then FrontTable(x) else BackTable(x) }

  function FrontTable(x: Byte): Word {
    var high, low := x & 0xf0, x & 0x0f;
    if high == 0x00 then Row0(low)
    else if high == 0x10 then Row1(low)
    else if high == 0x20 then Row2(low)
    else if high == 0x30 then Row3(low)
    else if high == 0x40 then Row4(low)
    else if high == 0x50 then Row5(low)
    else if high == 0x60 then Row6(low)
    else Row7(low)
  }

  function BackTable(x: Byte): Word {
    var high, low := x & 0xf0, x & 0x0f;
    if high == 0x80 then Row8(low)
    else if high == 0x90 then Row9(low)
    else if high == 0xa0 then RowA(low)
    else if high == 0xb0 then RowB(low)
    else if high == 0xc0 then RowC(low)
    else if high == 0xd0 then RowD(low)
    else if high == 0xe0 then RowE(low)
    else RowF(low)
  }

  lemma {:induction false} Row0Sum(x: Word)
    ensures Row0(x) == Xor(Column(0x00), Row0(x))
  {
  }

  lemma {:induction false} Row1Sum(x: Word)
    ensures Row1(x) == Xor(Column(0x10), Row0(x))
  {
  }

  lemma {:induction false} Row2Sum(x: Word)
    ensures Row2(x) == Xor(Column(0x20), Row0(x))
  {
  }

  lemma {:induction false} Row3Sum(x: Word)
    ensures Row3(x) == Xor(Column(0x30), Row0(x))
  {
  }

  lemma {:induction false} Row4Sum(x: Word)
    ensures Row4(x) == Xor(Column(0x40), Row0(x))
  {
  }

  lemma {:induction false} Row5Sum(x: Word)
    ensures Row5(x) == Xor(Column(0x50), Row0(x))
  {
  }

  lemma {:induction false} Row6Sum(x: Word)
    ensures Row6(x) == Xor(Column(0x60), Row0(x))
  {
  }

  lemma {:induction false} Row7Sum(x: Word)
    ensures Row7(x) == Xor(Column(0x70), Row0(x))
  {
  }

  lemma {:induction false} Row8Sum(x: Word)
    ensures Row8(x) == Xor(Column(0x80), Row0(x))
  {
  }

  lemma {:induction false} Row9Sum(x: Word)
    ensures Row9(x) == Xor(Column(0x90), Row0(x))
  {
  }

  lemma {:induction false} RowASum(x: Word)
    ensures RowA(x) == Xor(Column(0xa0), Row0(x))
  {
  }

  lemma {:induction false} RowBSum(x: Word)
    ensures RowB(x) == Xor(Column(0xb0), Row0(x))
  {
  }

  lemma {:induction false} RowCSum(x: Word)
    ensures RowC(x) == Xor(Column(0xc0), Row0(x))
  {
  }

  lemma {:induction false} RowDSum(x: Word)
    ensures RowD(x) == Xor(Column(0xd0), Row0(x))
  {
  }

  lemma {:induction false} RowESum(x: Word)
    ensures RowE(x) == Xor(Column(0xe0), Row0(x))
  {
  }

  lemma {:induction false} RowFSum(x: Word)
    ensures RowF(x) == Xor(Column(0xf0), Row0(x))
  {
  }

  lemma {:induction false} Row0Entry(x: Word)
    requires x <= 0x0f
    ensures Row0(x) == Entry(Raise(x))
  {
  }

  lemma {:induction false} ColumnEntry(x: Word)
    requires x & 0xf0 == x
    ensures Column(x) == Entry(Raise(x))
  {
  }

  lemma {:induction false} LowRows(x: Byte)
    requires x & 0x80 == 0
    ensures x & 0xf0 in {0x00, 0x10, 0x20, 0x30, 0x40, 0x50, 0x60, 0x70}
  {
  }

  lemma {:induction false} TableSumLow(x: Byte)
    requires x & 0x80 == 0
    ensures Table(x) == Xor(Column(x & 0xf0), Row0(x & 0x0f))
  {
    hide Xor, Column, Row0, Row1, Row2, Row3, Row4, Row5, Row6, Row7, Row8, Row9, RowA, RowB, RowC, RowD, RowE, RowF;
    LowRows(x);
    var low := x & 0x0f;
    Row0Sum(low);
    Row1Sum(low);
    Row2Sum(low);
    Row3Sum(low);
    Row4Sum(low);
    Row5Sum(low);
    Row6Sum(low);
    Row7Sum(low);
  }

  lemma {:induction false} HighRows(x: Byte)
    requires x & 0x80 != 0
    ensures x & 0xf0 in {0x80, 0x90, 0xa0, 0xb0, 0xc0, 0xd0, 0xe0, 0xf0}
  {
  }

  lemma {:induction false} TableSumHigh(x: Byte)
    requires x & 0x80 != 0
    ensures Table(x) == Xor(Column(x & 0xf0), Row0(x & 0x0f))
  {
    hide Xor, Column, Row0, Row1, Row2, Row3, Row4, Row5, Row6, Row7, Row8, Row9, RowA, RowB, RowC, RowD, RowE, RowF;
    HighRows(x);
    var low := x & 0x0f;
    Row8Sum(low);
    Row9Sum(low);
    RowASum(low);
    RowBSum(low);
    RowCSum(low);
    RowDSum(low);
    RowESum(low);
    RowFSum(low);
  }

  /** Every entry is the sum of one from its row's head and one from the first row. */
  lemma {:induction false} TableSum(x: Byte)
    ensures Table(x) == Xor(Column(x & 0xf0), Row0(x & 0x0f))
  {
    hide Xor, Column, Row0, Table;
    if x & 0x80 == 0 {
      TableSumLow(x);
    } else {
      TableSumHigh(x);
    }
  }

  lemma {:induction false} SplitHalves(x: Byte)
    ensures Xor(Raise(x & 0xf0), Raise(x & 0x0f)) == Raise(x) && x & 0xf0 & 0xf0 == x & 0xf0 && x & 0x0f <= 0x0f
  {
  }

  /** All 256 entries are what eight moves of the register give. */
  lemma {:induction false} TableEntry(x: Byte)
    ensures Table(x) == Entry(Raise(x))
  {
    hide Xor, Table, Entry, Column, Row0;
    var high, low := x & 0xf0, x & 0x0f;
    SplitHalves(x);
    TableSum(x);
    Row0Entry(low);
    ColumnEntry(high);
    EntryXor(Raise(high), Raise(low));
  }

  // ---- One byte: table step against eight bits ----

  /** The highest bit of `b` goes in, the others wait below it. */
  lemma {:induction false} TakeHighest(c: Word, b: Word)
    ensures Shift(Xor(c, b)) == Xor(TakeBit(c, High(b)), Double(b))
  {
    hide Xor, Double, Shift, High;
    var bit: Word := if High(b) then 0x8000 else 0;
    var rest := b & 0xffff_7fff;
    SplitHighest(b);
    XorAssoc(c, bit, rest);
    ShiftXor(Xor(c, bit), rest);
  }

  lemma {:induction false} SplitHighest(b: Word)
    ensures Xor(if High(b) then 0x8000 else 0, b & 0xffff_7fff) == b
    ensures Shift(b & 0xffff_7fff) == Double(b)
  {
  }

  function DoubleN(c: Word, n: nat): Word
    decreases n
  {
    if n == 0 then c else DoubleN(Double(c), n - 1)
  }

  function ShiftN(c: Word, n: nat): Word
    decreases n
  {
    if n == 0 then c else ShiftN(Shift(c), n - 1)
  }

  /** Adding the word first and moving the register `n` times takes in its top
      `n` bits and leaves the others waiting. */
  lemma {:induction false} SerialTop(c: Word, b: Word, n: nat)
    ensures ShiftN(Xor(c, b), n) == Xor(Serial(c, TopBits(b, n)), DoubleN(b, n))
    decreases n
  {
    hide Xor, Double, Shift, TakeBit, High;
    if n > 0 {
      TakeHighest(c, b);
      assert TopBits(b, n)[1..] == TopBits(Double(b), n - 1);
      SerialTop(TakeBit(c, High(b)), Double(b), n - 1);
    }
  }

  lemma {:induction false} EntryShifts(x: Word)
    ensures Entry(x) == ShiftN(x, 8)
  {
    hide Shift;
    var y := Shift(Shift(Shift(Shift(x))));
    assert ShiftN(y, 4) == Entry(x);
    assert ShiftN(Shift(Shift(x)), 6) == ShiftN(y, 4);
  }

  lemma {:induction false} EightDoubles(b: Byte)
    ensures Double(Double(Double(Double(Double(Double(Double(Double(Raise(b))))))))) == 0
  {
  }

  lemma {:induction false} ByteSpent(b: Byte)
    ensures DoubleN(Raise(b), 8) == 0
  {
    hide Double, Raise;
    EightDoubles(b);
    var c := Double(Double(Double(Double(Raise(b)))));
    assert DoubleN(Double(Double(Raise(b))), 6) == DoubleN(c, 4);
    assert DoubleN(Double(Double(c)), 2) == 0;
  }

  /** Taking in a byte bit by bit is eight moves from the sum. */
  lemma {:induction false} SerialByte(c: Word, b: Byte)
    ensures Serial(c, TopBits(Raise(b), 8)) == Entry(Xor(c, Raise(b)))
  {
    hide Raise, Xor, Entry, Serial, TopBits, DoubleN, ShiftN;
    var w := Raise(b);
    ByteSpent(b);
    SerialTop(c, w, 8);
    EntryShifts(Xor(c, w));
    XorZero(Serial(c, TopBits(w, 8)));
  }

  /** The word that one turn of the source's loop leaves. */
  function TableStep(c: Word, b: Byte): Word {
    Xor(Raise(c), Table(Xor(c >> 8, SignExtend(b)) & 0xff))
  }

  /** The byte that selects the table entry. */
  function Index(c: Word, b: Byte): Byte { Xor(c >> 8, SignExtend(b)) & 0xff }

  lemma {:induction false} IndexSum(c: Word, b: Byte)
    ensures Index(c, b) == Xor((c >> 8) & 0xff, b)
  {
  }

  lemma {:induction false} RaiseXor(a: Word, b: Word)
    ensures Raise(Xor(a, b)) == Xor(Raise(a), Raise(b))
  {
  }

  lemma {:induction false} WordParts(c: Word)
    ensures Xor(Raise((c >> 8) & 0xff), c & 0xff) == Low(c)
    ensures Low(Raise(c)) == Raise(c & 0xff) && c & 0xff <= 0xff
  {
  }

  lemma {:induction false} SplitWord(c: Word, b: Byte)
    ensures Xor(Raise(Index(c, b)), c & 0xff) == Xor(Low(c), Raise(b))
  {
    hide Xor, Low, Raise, Index;
    var upper, lower := (c >> 8) & 0xff, c & 0xff;
    IndexSum(c, b);
    WordParts(c);
    RaiseXor(upper, b);
    XorAssoc(Raise(upper), Raise(b), lower);
    XorComm(Raise(b), lower);
    XorAssoc(Raise(upper), lower, Raise(b));
  }

  lemma {:induction false} EntryFits(x: Word)
    ensures Low(Entry(x)) == Entry(x)
  {
    hide Shift, Low;
    ShiftFits(Shift(Shift(Shift(Shift(Shift(Shift(Shift(x))))))));
  }

  /** One turn of the loop takes in one byte, whatever lies above the register. */
  lemma {:induction false} TableStepExact(c: Word, b: Byte)
    ensures Low(TableStep(c, b)) == Serial(Low(c), TopBits(Raise(b), 8))
  {
    hide Raise, Xor, Low, Table, Entry, Serial, TopBits, SignExtend;
    var top, rest := Index(c, b), c & 0xff;
    SplitWord(c, b);
    WordParts(c);
    TableEntry(top);
    EntryFits(Raise(top));
    LowXor(Raise(c), Table(top));
    EntryLow(rest);
    EntryXor(Raise(top), rest);
    XorComm(Entry(Raise(top)), Entry(rest));
    SerialByte(Low(c), b);
  }

  lemma {:induction false} RegisterStep(key: seq<Byte>, i: nat, c: Word)
    requires i < |key| && Low(c) == Register(key[..i])
    ensures Low(TableStep(c, key[i])) == Register(key[..i + 1])
  {
    hide Raise, Serial, TopBits, TableStep, Low;
    assert key[..i + 1][..i] == key[..i];
    SerialAppend(0, MessageBits(key[..i]), TopBits(Raise(key[i]), 8));
    TableStepExact(c, key[i]);
  }

  lemma {:induction false} RegisterStart(key: seq<Byte>)
    ensures Low(0) == Register(key[..0])
    ensures key[..|key|] == key
  {
    assert key[..0] == [];
  }

  /** c_hash_crc16 */
  method HashCrc16(key: seq<Byte>) returns (r: Word)
    ensures r & 0xffff == Register(key)
  {
    RegisterStart(key);
    var crc: Word := 0;
    for i := 0 to |key|
      invariant Low(crc) == Register(key[..i])
    {
      hide Register, TableStep, Low;
      RegisterStep(key, i, crc);
      crc := TableStep(crc, key[i]);
    }
    r := crc;
  }

  // ---- The published check value ----

  /** "123456789" */
  const CHECK: seq<Byte> := [0x31, 0x32, 0x33, 0x34, 0x35, 0x36, 0x37, 0x38, 0x39]

  lemma {:induction false} Check1()
    ensures TableStep(0x00000000, 0x31) == 0x00002672
  {
  }

  lemma {:induction false} Check2()
    ensures TableStep(0x00002672, 0x32) == 0x002620b5
  {
  }

  lemma {:induction false} Check3()
    ensures TableStep(0x002620b5, 0x33) == 0x26209752
  {
  }

  lemma {:induction false} Check4()
    ensures TableStep(0x26209752, 0x34) == 0x2097d789
  {
  }

  lemma {:induction false} Check5()
    ensures TableStep(0x2097d789, 0x35) == 0x97d7546c
  {
  }

  lemma {:induction false} Check6()
    ensures TableStep(0x97d7546c, 0x36) == 0xd75420e4
  {
  }

  lemma {:induction false} Check7()
    ensures TableStep(0xd75420e4, 0x37) == 0x542086d6
  {
  }

  lemma {:induction false} Check8()
    ensures TableStep(0x542086d6, 0x38) == 0x20869015
  {
  }

  lemma {:induction false} Check9()
    ensures TableStep(0x20869015, 0x39) == 0x869031c3
  {
  }

  /** The check value that this CRC-16 is published with. */
  lemma {:induction false} CheckValue()
    ensures Register(CHECK) == 0x31c3
  {
    hide Register, TableStep, Low;
    RegisterStart(CHECK);
    RegisterStep(CHECK, 0, 0x00000000);
    Check1();
    RegisterStep(CHECK, 1, 0x00002672);
    Check2();
    RegisterStep(CHECK, 2, 0x002620b5);
    Check3();
    RegisterStep(CHECK, 3, 0x26209752);
    Check4();
    RegisterStep(CHECK, 4, 0x2097d789);
    Check5();
    RegisterStep(CHECK, 5, 0x97d7546c);
    Check6();
    RegisterStep(CHECK, 6, 0xd75420e4);
    Check7();
    RegisterStep(CHECK, 7, 0x542086d6);
    Check8();
    RegisterStep(CHECK, 8, 0x20869015);
    Check9();
    LowOf();
  }

  lemma {:induction false} LowOf()
    ensures Low(0x869031c3) == 0x31c3
  {
  }
}
