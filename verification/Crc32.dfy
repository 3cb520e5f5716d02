/** The table-driven CRC-32 of base/c_hash.c against the bit-serial register
    that section 8 of RFC 1952 describes. */
module Crc32 {
  import opened CrcWords

  // ---- Halving ----

  function Half(c: Word): Word { c >> 1 }

  predicate Odd(c: Word) { c & 1 == 1 }

  lemma {:induction false} HalfXor(a: Word, b: Word)
    ensures Half(Xor(a, b)) == Xor(Half(a), Half(b))
  {
  }

  lemma {:induction false} OddXor(a: Word, b: Word)
    ensures Odd(Xor(a, b)) <==> Odd(a) != Odd(b)
  {
  }

  // ---- The shift register, one message bit at a time ----

  const POLY: Word := 0xedb88320

  /** The register moves one place towards its low end; a one that falls out
      feeds the polynomial back. */
  function Shift(c: Word): Word { Xor(Feedback(Odd(c)), Half(c)) }

  function Feedback(odd: bool): Word { if odd then POLY else 0 }

  /** The register takes in one message bit. */
  function TakeBit(c: Word, bit: bool): Word { Shift(Xor(c, if bit then 1 else 0)) }

  /** The bit-serial register after a stream of bits. */
  function Serial(c: Word, bits: seq<bool>): Word
    decreases |bits|
  {
    if bits == [] then c else Serial(TakeBit(c, bits[0]), bits[1..])
  }

  /** The low `n` bits of a word, least significant first. */
  function LowBits(b: Word, n: nat): seq<bool>
    decreases n
  {
    if n == 0 then [] else [Odd(b)] + LowBits(Half(b), n - 1)
  }

  function MessageBits(key: seq<Byte>): seq<bool> {
    if key == [] then [] else MessageBits(key[..|key| - 1]) + LowBits(key[|key| - 1], 8)
  }

  /** The register after a whole message. */
  function Register(key: seq<Byte>): Word { Serial(0xffff_ffff, MessageBits(key)) }

  /** The check value that RFC 1952 defines. */
  function Crc(key: seq<Byte>): Word {
    Xor(Register(key), 0xffff_ffff)
  }

  lemma {:induction false} SerialAppend(c: Word, x: seq<bool>, y: seq<bool>)
    ensures Serial(c, x + y) == Serial(Serial(c, x), y)
    decreases |x|
  {
    hide TakeBit;
    if x == [] {
      assert x + y == y;
    } else {
      assert (x + y)[1..] == x[1..] + y;
      SerialAppend(TakeBit(c, x[0]), x[1..], y);
    }
  }

  // ---- Linearity ----

  lemma {:induction false} ShiftXor(a: Word, b: Word)
    ensures Shift(Xor(a, b)) == Xor(Shift(a), Shift(b))
  {
    hide Xor, Half, Odd;
    HalfXor(a, b);
    OddXor(a, b);
    FeedbackXor(Odd(a), Odd(b));
    XorRegroup(Feedback(Odd(a)), Feedback(Odd(b)), Half(a), Half(b));
  }

  lemma {:induction false} FeedbackXor(a: bool, b: bool)
    ensures Feedback(a != b) == Xor(Feedback(a), Feedback(b))
  {
    hide Xor;
    XorZero(Feedback(a));
    XorZero(Feedback(b));
    XorSelf(POLY);
  }

  /** Eight moves of the register. */
  function Entry(x: Word): Word {
    Shift(Shift(Shift(Shift(Shift(Shift(Shift(Shift(x))))))))
  }

  lemma {:induction false} EntryXor(a: Word, b: Word)
    ensures Entry(Xor(a, b)) == Xor(Entry(a), Entry(b))
  {
    hide Shift, Xor;
    var a1, b1 := Shift(a), Shift(b);
    var a2, b2 := Shift(a1), Shift(b1);
    var a3, b3 := Shift(a2), Shift(b2);
    var a4, b4 := Shift(a3), Shift(b3);
    var a5, b5 := Shift(a4), Shift(b4);
    var a6, b6 := Shift(a5), Shift(b5);
    var a7, b7 := Shift(a6), Shift(b6);
    ShiftXor(a, b);
    ShiftXor(a1, b1);
    ShiftXor(a2, b2);
    ShiftXor(a3, b3);
    ShiftXor(a4, b4);
    ShiftXor(a5, b5);
    ShiftXor(a6, b6);
    ShiftXor(a7, b7);
  }

  /** Nothing is fed back while zeros fall out. */
  lemma {:induction false} EntryHigh(x: Word)
    requires x & 0xff == 0
    ensures Entry(x) == x >> 8
  {
  }

  // ---- The table ----

  /** The first entry of each row. */
  function Column(x: Word): Word {
    if x == 0x00 then 0x00000000
    else if x == 0x10 then 0x1db71064
    else if x == 0x20 then 0x3b6e20c8
    else if x == 0x30 then 0x26d930ac
    else if x == 0x40 then 0x76dc4190
    else if x == 0x50 then 0x6b6b51f4
    else if x == 0x60 then 0x4db26158
    else if x == 0x70 then 0x5005713c
    else if x == 0x80 then 0xedb88320
    else if x == 0x90 then 0xf00f9344
    else if x == 0xa0 then 0xd6d6a3e8
    else if x == 0xb0 then 0xcb61b38c
    else if x == 0xc0 then 0x9b64c2b0
    else if x == 0xd0 then 0x86d3d2d4
    else if x == 0xe0 then 0xa00ae278
    else 0xbdbdf21c
  }

  function Row0(x: Word): Word {
    if x == 0x00 then 0x00000000
    else if x == 0x01 then 0x77073096
    else if x == 0x02 then 0xee0e612c
    else if x == 0x03 then 0x990951ba
    else if x == 0x04 then 0x076dc419
    else if x == 0x05 then 0x706af48f
    else if x == 0x06 then 0xe963a535
    else if x == 0x07 then 0x9e6495a3
    else if x == 0x08 then 0x0edb8832
    else if x == 0x09 then 0x79dcb8a4
    else if x == 0x0a then 0xe0d5e91e
    else if x == 0x0b then 0x97d2d988
    else if x == 0x0c then 0x09b64c2b
    else if x == 0x0d then 0x7eb17cbd
    else if x == 0x0e then 0xe7b82d07
    else 0x90bf1d91
  }

  function Row1(x: Word): Word {
    if x == 0x00 then 0x1db71064
    else if x == 0x01 then 0x6ab020f2
    else if x == 0x02 then 0xf3b97148
    else if x == 0x03 then 0x84be41de
    else if x == 0x04 then 0x1adad47d
    else if x == 0x05 then 0x6ddde4eb
    else if x == 0x06 then 0xf4d4b551
    else if x == 0x07 then 0x83d385c7
    else if x == 0x08 then 0x136c9856
    else if x == 0x09 then 0x646ba8c0
    else if x == 0x0a then 0xfd62f97a
    else if x == 0x0b then 0x8a65c9ec
    else if x == 0x0c then 0x14015c4f
    else if x == 0x0d then 0x63066cd9
    else if x == 0x0e then 0xfa0f3d63
    else 0x8d080df5
  }

  function Row2(x: Word): Word {
    if x == 0x00 then 0x3b6e20c8
    else if x == 0x01 then 0x4c69105e
    else if x == 0x02 then 0xd56041e4
    else if x == 0x03 then 0xa2677172
    else if x == 0x04 then 0x3c03e4d1
    else if x == 0x05 then 0x4b04d447
    else if x == 0x06 then 0xd20d85fd
    else if x == 0x07 then 0xa50ab56b
    else if x == 0x08 then 0x35b5a8fa
    else if x == 0x09 then 0x42b2986c
    else if x == 0x0a then 0xdbbbc9d6
    else if x == 0x0b then 0xacbcf940
    else if x == 0x0c then 0x32d86ce3
    else if x == 0x0d then 0x45df5c75
    else if x == 0x0e then 0xdcd60dcf
    else 0xabd13d59
  }

  function Row3(x: Word): Word {
    if x == 0x00 then 0x26d930ac
    else if x == 0x01 then 0x51de003a
    else if x == 0x02 then 0xc8d75180
    else if x == 0x03 then 0xbfd06116
    else if x == 0x04 then 0x21b4f4b5
    else if x == 0x05 then 0x56b3c423
    else if x == 0x06 then 0xcfba9599
    else if x == 0x07 then 0xb8bda50f
    else if x == 0x08 then 0x2802b89e
    else if x == 0x09 then 0x5f058808
    else if x == 0x0a then 0xc60cd9b2
    else if x == 0x0b then 0xb10be924
    else if x == 0x0c then 0x2f6f7c87
    else if x == 0x0d then 0x58684c11
    else if x == 0x0e then 0xc1611dab
    else 0xb6662d3d
  }

  function Row4(x: Word): Word {
    if x == 0x00 then 0x76dc4190
    else if x == 0x01 then 0x01db7106
    else if x == 0x02 then 0x98d220bc
    else if x == 0x03 then 0xefd5102a
    else if x == 0x04 then 0x71b18589
    else if x == 0x05 then 0x06b6b51f
    else if x == 0x06 then 0x9fbfe4a5
    else if x == 0x07 then 0xe8b8d433
    else if x == 0x08 then 0x7807c9a2
    else if x == 0x09 then 0x0f00f934
    else if x == 0x0a then 0x9609a88e
    else if x == 0x0b then 0xe10e9818
    else if x == 0x0c then 0x7f6a0dbb
    else if x == 0x0d then 0x086d3d2d
    else if x == 0x0e then 0x91646c97
    else 0xe6635c01
  }

  function Row5(x: Word): Word {
    if x == 0x00 then 0x6b6b51f4
    else if x == 0x01 then 0x1c6c6162
    else if x == 0x02 then 0x856530d8
    else if x == 0x03 then 0xf262004e
    else if x == 0x04 then 0x6c0695ed
    else if x == 0x05 then 0x1b01a57b
    else if x == 0x06 then 0x8208f4c1
    else if x == 0x07 then 0xf50fc457
    else if x == 0x08 then 0x65b0d9c6
    else if x == 0x09 then 0x12b7e950
    else if x == 0x0a then 0x8bbeb8ea
    else if x == 0x0b then 0xfcb9887c
    else if x == 0x0c then 0x62dd1ddf
    else if x == 0x0d then 0x15da2d49
    else if x == 0x0e then 0x8cd37cf3
    else 0xfbd44c65
  }

  function Row6(x: Word): Word {
    if x == 0x00 then 0x4db26158
    else if x == 0x01 then 0x3ab551ce
    else if x == 0x02 then 0xa3bc0074
    else if x == 0x03 then 0xd4bb30e2
    else if x == 0x04 then 0x4adfa541
    else if x == 0x05 then 0x3dd895d7
    else if x == 0x06 then 0xa4d1c46d
    else if x == 0x07 then 0xd3d6f4fb
    else if x == 0x08 then 0x4369e96a
    else if x == 0x09 then 0x346ed9fc
    else if x == 0x0a then 0xad678846
    else if x == 0x0b then 0xda60b8d0
    else if x == 0x0c then 0x44042d73
    else if x == 0x0d then 0x33031de5
    else if x == 0x0e then 0xaa0a4c5f
    else 0xdd0d7cc9
  }

  function Row7(x: Word): Word {
    if x == 0x00 then 0x5005713c
    else if x == 0x01 then 0x270241aa
    else if x == 0x02 then 0xbe0b1010
    else if x == 0x03 then 0xc90c2086
    else if x == 0x04 then 0x5768b525
    else if x == 0x05 then 0x206f85b3
    else if x == 0x06 then 0xb966d409
    else if x == 0x07 then 0xce61e49f
    else if x == 0x08 then 0x5edef90e
    else if x == 0x09 then 0x29d9c998
    else if x == 0x0a then 0xb0d09822
    else if x == 0x0b then 0xc7d7a8b4
    else if x == 0x0c then 0x59b33d17
    else if x == 0x0d then 0x2eb40d81
    else if x == 0x0e then 0xb7bd5c3b
    else 0xc0ba6cad
  }

  function Row8(x: Word): Word {
    if x == 0x00 then 0xedb88320
    else if x == 0x01 then 0x9abfb3b6
    else if x == 0x02 then 0x03b6e20c
    else if x == 0x03 then 0x74b1d29a
    else if x == 0x04 then 0xead54739
    else if x == 0x05 then 0x9dd277af
    else if x == 0x06 then 0x04db2615
    else if x == 0x07 then 0x73dc1683
    else if x == 0x08 then 0xe3630b12
    else if x == 0x09 then 0x94643b84
    else if x == 0x0a then 0x0d6d6a3e
    else if x == 0x0b then 0x7a6a5aa8
    else if x == 0x0c then 0xe40ecf0b
    else if x == 0x0d then 0x9309ff9d
    else if x == 0x0e then 0x0a00ae27
    else 0x7d079eb1
  }

  function Row9(x: Word): Word {
    if x == 0x00 then 0xf00f9344
    else if x == 0x01 then 0x8708a3d2
    else if x == 0x02 then 0x1e01f268
    else if x == 0x03 then 0x6906c2fe
    else if x == 0x04 then 0xf762575d
    else if x == 0x05 then 0x806567cb
    else if x == 0x06 then 0x196c3671
    else if x == 0x07 then 0x6e6b06e7
    else if x == 0x08 then 0xfed41b76
    else if x == 0x09 then 0x89d32be0
    else if x == 0x0a then 0x10da7a5a
    else if x == 0x0b then 0x67dd4acc
    else if x == 0x0c then 0xf9b9df6f
    else if x == 0x0d then 0x8ebeeff9
    else if x == 0x0e then 0x17b7be43
    else 0x60b08ed5
  }

  function RowA(x: Word): Word {
    if x == 0x00 then 0xd6d6a3e8
    else if x == 0x01 then 0xa1d1937e
    else if x == 0x02 then 0x38d8c2c4
    else if x == 0x03 then 0x4fdff252
    else if x == 0x04 then 0xd1bb67f1
    else if x == 0x05 then 0xa6bc5767
    else if x == 0x06 then 0x3fb506dd
    else if x == 0x07 then 0x48b2364b
    else if x == 0x08 then 0xd80d2bda
    else if x == 0x09 then 0xaf0a1b4c
    else if x == 0x0a then 0x36034af6
    else if x == 0x0b then 0x41047a60
    else if x == 0x0c then 0xdf60efc3
    else if x == 0x0d then 0xa867df55
    else if x == 0x0e then 0x316e8eef
    else 0x4669be79
  }

  function RowB(x: Word): Word {
    if x == 0x00 then 0xcb61b38c
    else if x == 0x01 then 0xbc66831a
    else if x == 0x02 then 0x256fd2a0
    else if x == 0x03 then 0x5268e236
    else if x == 0x04 then 0xcc0c7795
    else if x == 0x05 then 0xbb0b4703
    else if x == 0x06 then 0x220216b9
    else if x == 0x07 then 0x5505262f
    else if x == 0x08 then 0xc5ba3bbe
    else if x == 0x09 then 0xb2bd0b28
    else if x == 0x0a then 0x2bb45a92
    else if x == 0x0b then 0x5cb36a04
    else if x == 0x0c then 0xc2d7ffa7
    else if x == 0x0d then 0xb5d0cf31
    else if x == 0x0e then 0x2cd99e8b
    else 0x5bdeae1d
  }

  function RowC(x: Word): Word {
    if x == 0x00 then 0x9b64c2b0
    else if x == 0x01 then 0xec63f226
    else if x == 0x02 then 0x756aa39c
    else if x == 0x03 then 0x026d930a
    else if x == 0x04 then 0x9c0906a9
    else if x == 0x05 then 0xeb0e363f
    else if x == 0x06 then 0x72076785
    else if x == 0x07 then 0x05005713
    else if x == 0x08 then 0x95bf4a82
    else if x == 0x09 then 0xe2b87a14
    else if x == 0x0a then 0x7bb12bae
    else if x == 0x0b then 0x0cb61b38
    else if x == 0x0c then 0x92d28e9b
    else if x == 0x0d then 0xe5d5be0d
    else if x == 0x0e then 0x7cdcefb7
    else 0x0bdbdf21
  }

  function RowD(x: Word): Word {
    if x == 0x00 then 0x86d3d2d4
    else if x == 0x01 then 0xf1d4e242
    else if x == 0x02 then 0x68ddb3f8
    else if x == 0x03 then 0x1fda836e
    else if x == 0x04 then 0x81be16cd
    else if x == 0x05 then 0xf6b9265b
    else if x == 0x06 then 0x6fb077e1
    else if x == 0x07 then 0x18b74777
    else if x == 0x08 then 0x88085ae6
    else if x == 0x09 then 0xff0f6a70
    else if x == 0x0a then 0x66063bca
    else if x == 0x0b then 0x11010b5c
    else if x == 0x0c then 0x8f659eff
    else if x == 0x0d then 0xf862ae69
    else if x == 0x0e then 0x616bffd3
    else 0x166ccf45
  }

  function RowE(x: Word): Word {
    if x == 0x00 then 0xa00ae278
    else if x == 0x01 then 0xd70dd2ee
    else if x == 0x02 then 0x4e048354
    else if x == 0x03 then 0x3903b3c2
    else if x == 0x04 then 0xa7672661
    else if x == 0x05 then 0xd06016f7
    else if x == 0x06 then 0x4969474d
    else if x == 0x07 then 0x3e6e77db
    else if x == 0x08 then 0xaed16a4a
    else if x == 0x09 then 0xd9d65adc
    else if x == 0x0a then 0x40df0b66
    else if x == 0x0b then 0x37d83bf0
    else if x == 0x0c then 0xa9bcae53
    else if x == 0x0d then 0xdebb9ec5
    else if x == 0x0e then 0x47b2cf7f
    else 0x30b5ffe9
  }

  function RowF(x: Word): Word {
    if x == 0x00 then 0xbdbdf21c
    else if x == 0x01 then 0xcabac28a
    else if x == 0x02 then 0x53b39330
    else if x == 0x03 then 0x24b4a3a6
    else if x == 0x04 then 0xbad03605
    else if x == 0x05 then 0xcdd70693
    else if x == 0x06 then 0x54de5729
    else if x == 0x07 then 0x23d967bf
    else if x == 0x08 then 0xb3667a2e
    else if x == 0x09 then 0xc4614ab8
    else if x == 0x0a then 0x5d681b02
    else if x == 0x0b then 0x2a6f2b94
    else if x == 0x0c then 0xb40bbe37
    else if x == 0x0d then 0xc30c8ea1
    else if x == 0x0e then 0x5a05df1b
    else 0x2d02ef8d
  }

  /** The entry of `crc32tab` for the byte `x`: the row is chosen by the high
      half, the place in it by the low half. */
  function Table(x: Byte): Word { if x & 0x80 == 0 then FrontTable(x) else BackTable(x) }

  function FrontTable(x: Byte): Word {
    var high, low := x & 0xf0, x & 0x0f;
    if high == 0x00 then Row0(low)
    else if high == 0x10 then Row1(low)
    else if high == 0x20 then Row2(low)
    else if high == 0x30 then Row3(low)
    else if high == 0x40 then Row4(low)
    else if high == 0x50 then Row5(low)
    else if high == 0x60 then Row6(low)
    else Row7(low)
  }

  function BackTable(x: Byte): Word {
    var high, low := x & 0xf0, x & 0x0f;
    if high == 0x80 then Row8(low)
    else if high == 0x90 then Row9(low)
    else if high == 0xa0 then RowA(low)
    else if high == 0xb0 then RowB(low)
    else if high == 0xc0 then RowC(low)
    else if high == 0xd0 then RowD(low)
    else if high == 0xe0 then RowE(low)
    else RowF(low)
  }

  lemma {:induction false} Row0Sum(x: Word)
    ensures Row0(x) == Xor(Column(0x00), Row0(x))
  {
  }

  lemma {:induction false} Row1Sum(x: Word)
    ensures Row1(x) == Xor(Column(0x10), Row0(x))
  {
  }

  lemma {:induction false} Row2Sum(x: Word)
    ensures Row2(x) == Xor(Column(0x20), Row0(x))
  {
  }

  lemma {:induction false} Row3Sum(x: Word)
    ensures Row3(x) == Xor(Column(0x30), Row0(x))
  {
  }

  lemma {:induction false} Row4Sum(x: Word)
    ensures Row4(x) == Xor(Column(0x40), Row0(x))
  {
  }

  lemma {:induction false} Row5Sum(x: Word)
    ensures Row5(x) == Xor(Column(0x50), Row0(x))
  {
  }

  lemma {:induction false} Row6Sum(x: Word)
    ensures Row6(x) == Xor(Column(0x60), Row0(x))
  {
  }

  lemma {:induction false} Row7Sum(x: Word)
    ensures Row7(x) == Xor(Column(0x70), Row0(x))
  {
  }

  lemma {:induction false} Row8Sum(x: Word)
    ensures Row8(x) == Xor(Column(0x80), Row0(x))
  {
  }

  lemma {:induction false} Row9Sum(x: Word)
    ensures Row9(x) == Xor(Column(0x90), Row0(x))
  {
  }

  lemma {:induction false} RowASum(x: Word)
    ensures RowA(x) == Xor(Column(0xa0), Row0(x))
  {
  }

  lemma {:induction false} RowBSum(x: Word)
    ensures RowB(x) == Xor(Column(0xb0), Row0(x))
  {
  }

  lemma {:induction false} RowCSum(x: Word)
    ensures RowC(x) == Xor(Column(0xc0), Row0(x))
  {
  }

  lemma {:induction false} RowDSum(x: Word)
    ensures RowD(x) == Xor(Column(0xd0), Row0(x))
  {
  }

  lemma {:induction false} RowESum(x: Word)
    ensures RowE(x) == Xor(Column(0xe0), Row0(x))
  {
  }

  lemma {:induction false} RowFSum(x: Word)
    ensures RowF(x) == Xor(Column(0xf0), Row0(x))
  {
  }

  lemma {:induction false} Row0At0()
    ensures Row0(0) == Entry(0)
  {
  }

  lemma {:induction false} Row0At1()
    ensures Row0(1) == Entry(1)
  {
  }

  lemma {:induction false} Row0At2()
    ensures Row0(2) == Entry(2)
  {
  }

  lemma {:induction false} Row0At4()
    ensures Row0(4) == Entry(4)
  {
  }

  lemma {:induction false} Row0At8()
    ensures Row0(8) == Entry(8)
  {
  }

  /** An entry of the first row is the sum of those for its single bits. */
  lemma {:induction false} Row0Bits(x: Word)
    requires x <= 0x0f
    ensures Row0(x) == Xor(Xor(Row0(x & 1), Row0(x & 2)), Xor(Row0(x & 4), Row0(x & 8)))
  {
  }

  lemma {:induction false} SplitBits(x: Word)
    requires x <= 0x0f
    ensures x == Xor(Xor(x & 1, x & 2), Xor(x & 4, x & 8))
    ensures (x & 1 == 0 || x & 1 == 1) && (x & 2 == 0 || x & 2 == 2)
    ensures (x & 4 == 0 || x & 4 == 4) && (x & 8 == 0 || x & 8 == 8)
  {
  }

  lemma {:induction false} Row0Entry(x: Word)
    requires x <= 0x0f
    ensures Row0(x) == Entry(x)
  {
    hide Xor, Row0, Entry;
    Row0Bits(x);
    SplitBits(x);
    Row0At0();
    Row0At1();
    Row0At2();
    Row0At4();
    Row0At8();
    EntryXor(x & 1, x & 2);
    EntryXor(x & 4, x & 8);
    EntryXor(Xor(x & 1, x & 2), Xor(x & 4, x & 8));
  }

  lemma {:induction false} ColumnEntry(x: Word)
    requires x & 0xf0 == x
    ensures Column(x) == Entry(x)
  {
  }

  lemma {:induction false} LowRows(x: Byte)
    requires x & 0x80 == 0
    ensures x & 0xf0 in {0x00, 0x10, 0x20, 0x30, 0x40, 0x50, 0x60, 0x70}
  {
  }

  lemma {:induction false} TableSumLow(x: Byte)
    requires x & 0x80 == 0
    ensures Table(x) == Xor(Column(x & 0xf0), Row0(x & 0x0f))
  {
    hide Xor, Column, Row0, Row1, Row2, Row3, Row4, Row5, Row6, Row7, Row8, Row9, RowA, RowB, RowC, RowD, RowE, RowF;
    LowRows(x);
    var low := x & 0x0f;
    Row0Sum(low);
    Row1Sum(low);
    Row2Sum(low);
    Row3Sum(low);
    Row4Sum(low);
    Row5Sum(low);
    Row6Sum(low);
    Row7Sum(low);
  }

  lemma {:induction false} HighRows(x: Byte)
    requires x & 0x80 != 0
    ensures x & 0xf0 in {0x80, 0x90, 0xa0, 0xb0, 0xc0, 0xd0, 0xe0, 0xf0}
  {
  }

  lemma {:induction false} TableSumHigh(x: Byte)
    requires x & 0x80 != 0
    ensures Table(x) == Xor(Column(x & 0xf0), Row0(x & 0x0f))
  {
    hide Xor, Column, Row0, Row1, Row2, Row3, Row4, Row5, Row6, Row7, Row8, Row9, RowA, RowB, RowC, RowD, RowE, RowF;
    HighRows(x);
    var low := x & 0x0f;
    Row8Sum(low);
    Row9Sum(low);
    RowASum(low);
    RowBSum(low);
    RowCSum(low);
    RowDSum(low);
    RowESum(low);
    RowFSum(low);
  }

  /** Every entry is the sum of one from its row's head and one from the first row. */
  lemma {:induction false} TableSum(x: Byte)
    ensures Table(x) == Xor(Column(x & 0xf0), Row0(x & 0x0f))
  {
    hide Xor, Column, Row0, Table;
    if x & 0x80 == 0 {
      TableSumLow(x);
    } else {
      TableSumHigh(x);
    }
  }

  lemma {:induction false} SplitHalves(x: Byte)
    ensures Xor(x & 0xf0, x & 0x0f) == x && x & 0xf0 & 0xf0 == x & 0xf0 && x & 0x0f <= 0x0f
  {
  }

  /** All 256 entries are what eight moves of the register give. */
  lemma {:induction false} TableEntry(x: Byte)
    ensures Table(x) == Entry(x)
  {
    hide Xor, Table, Entry, Column, Row0;
    var high, low := x & 0xf0, x & 0x0f;
    SplitHalves(x);
    TableSum(x);
    Row0Entry(low);
    ColumnEntry(high);
    EntryXor(high, low);
  }

  // ---- One byte: table step against eight bits ----

  /** The lowest bit of `b` goes in, the others wait above it. */
  lemma {:induction false} TakeLowest(c: Word, b: Word)
    ensures Shift(Xor(c, b)) == Xor(TakeBit(c, Odd(b)), Half(b))
  {
    hide Xor, Half, Shift, Odd;
    var bit: Word := if Odd(b) then 1 else 0;
    var rest := b & 0xffff_fffe;
    SplitLowest(b);
    XorAssoc(c, bit, rest);
    ShiftXor(Xor(c, bit), rest);
  }

  lemma {:induction false} SplitLowest(b: Word)
    ensures Xor(if Odd(b) then 1 else 0, b & 0xffff_fffe) == b
    ensures Shift(b & 0xffff_fffe) == Half(b)
  {
  }

  function HalfN(c: Word, n: nat): Word
    decreases n
  {
    if n == 0 then c else HalfN(Half(c), n - 1)
  }

  function ShiftN(c: Word, n: nat): Word
    decreases n
  {
    if n == 0 then c else ShiftN(Shift(c), n - 1)
  }

  /** Adding the word first and moving the register `n` times takes in its low
      `n` bits and leaves the others waiting. */
  lemma {:induction false} SerialLow(c: Word, b: Word, n: nat)
    ensures ShiftN(Xor(c, b), n) == Xor(Serial(c, LowBits(b, n)), HalfN(b, n))
    decreases n
  {
    hide Xor, Half, Shift, TakeBit, Odd;
    if n > 0 {
      TakeLowest(c, b);
      assert LowBits(b, n)[1..] == LowBits(Half(b), n - 1);
      SerialLow(TakeBit(c, Odd(b)), Half(b), n - 1);
    }
  }

  lemma {:induction false} EntryShifts(x: Word)
    ensures Entry(x) == ShiftN(x, 8)
  {
    hide Shift;
    var y := Shift(Shift(Shift(Shift(x))));
    assert ShiftN(y, 4) == Entry(x);
    assert ShiftN(Shift(Shift(x)), 6) == ShiftN(y, 4);
  }

  lemma {:induction false} EightHalves(b: Byte)
    ensures Half(Half(Half(Half(Half(Half(Half(Half(b)))))))) == 0
  {
  }

  lemma {:induction false} ByteSpent(b: Byte)
    ensures HalfN(b, 8) == 0
  {
    hide Half;
    EightHalves(b);
    var c := Half(Half(Half(Half(b))));
    assert HalfN(Half(Half(b)), 6) == HalfN(c, 4);
    assert HalfN(Half(Half(c)), 2) == 0;
  }

  /** Taking in a byte bit by bit is eight moves from the sum. */
  lemma {:induction false} SerialByte(c: Word, b: Byte)
    ensures Serial(c, LowBits(b, 8)) == Entry(Xor(c, b))
  {
    hide Xor, Entry, Serial, LowBits, HalfN, ShiftN;
    SerialLow(c, b, 8);
    ByteSpent(b);
    EntryShifts(Xor(c, b));
    XorZero(Serial(c, LowBits(b, 8)));
  }

  /** The word that one turn of the source's loop leaves. */
  function TableStep(c: Word, b: Byte): Word {
    Xor(Table(Xor(c, b) & 0xff), c >> 8)
  }

  lemma {:induction false} SplitByte(c: Word, b: Byte)
    ensures Xor(Xor(c, b) & 0xff, Xor(c, b) & 0xffff_ff00) == Xor(c, b)
    ensures (Xor(c, b) & 0xffff_ff00) >> 8 == c >> 8
    ensures Xor(c, b) & 0xffff_ff00 & 0xff == 0 && Xor(c, b) & 0xff <= 0xff
  {
  }

  /** One turn of the loop takes in one byte. */
  lemma {:induction false} TableStepExact(c: Word, b: Byte)
    ensures TableStep(c, b) == Serial(c, LowBits(b, 8))
  {
    hide Xor, Table, Entry, Serial, LowBits;
    var low, high := Xor(c, b) & 0xff, Xor(c, b) & 0xffff_ff00;
    SplitByte(c, b);
    TableEntry(low);
    EntryHigh(high);
    EntryXor(low, high);
    SerialByte(c, b);
  }

  lemma {:induction false} RegisterStep(key: seq<Byte>, i: nat)
    requires i < |key|
    ensures Register(key[..i + 1]) == TableStep(Register(key[..i]), key[i])
  {
    hide Serial, LowBits, TableStep;
    assert key[..i + 1][..i] == key[..i];
    SerialAppend(0xffff_ffff, MessageBits(key[..i]), LowBits(key[i], 8));
    TableStepExact(Register(key[..i]), key[i]);
  }

  lemma {:induction false} RegisterStart(key: seq<Byte>)
    ensures Register(key[..0]) == 0xffff_ffff
    ensures key[..|key|] == key
  {
    assert key[..0] == [];
  }

  /** c_hash_crc32a */
  method HashCrc32a(key: seq<Byte>) returns (r: Word)
    ensures r == Crc(key)
  {
    hide Register, TableStep, Xor;
    RegisterStart(key);
    var crc: Word := 0xffff_ffff;
    for i := 0 to |key|
      invariant crc == Register(key[..i])
    {
      RegisterStep(key, i);
      crc := TableStep(crc, key[i]);
    }
    r := Xor(crc, 0xffff_ffff);
  }

  /** The loop body of c_hash_crc32, which reads the key as signed characters. */
  function SignedStep(c: Word, b: Byte): Word {
    Xor(c >> 8, Table(Xor(c, SignExtend(b)) & 0xff))
  }

  lemma {:induction false} SignLost(c: Word, b: Byte)
    ensures Xor(c, SignExtend(b)) & 0xff == Xor(c, b) & 0xff
  {
  }

  lemma {:induction false} SignedStepSame(c: Word, b: Byte)
    ensures SignedStep(c, b) == TableStep(c, b)
  {
    hide Xor, Table, SignExtend;
    SignLost(c, b);
    XorComm(Table(Xor(c, b) & 0xff), c >> 8);
  }

  lemma {:induction false} Complement(c: Word)
    ensures !c == Xor(c, 0xffff_ffff)
  {
  }

  /** c_hash_crc32: bits 16 to 30 of the check value. */
  method HashCrc32(key: seq<Byte>) returns (r: Word)
    ensures r == (Crc(key) >> 16) & 0x7fff
  {
    hide Register, TableStep, SignedStep, Xor;
    RegisterStart(key);
    var crc: Word := 0xffff_ffff;
    for i := 0 to |key|
      invariant crc == Register(key[..i])
    {
      RegisterStep(key, i);
      SignedStepSame(crc, key[i]);
      crc := SignedStep(crc, key[i]);
    }
    Complement(crc);
    r := (!crc >> 16) & 0x7fff;
  }

  // ---- What the check value detects ----

  function Unshift(c: Word): Word {
    if c & 0x8000_0000 != 0 then Xor(Xor(c, POLY) << 1, 1) else c << 1
  }

  lemma {:induction false} ShiftUndone(c: Word)
    ensures Unshift(Shift(c)) == c
  {
  }

  lemma {:induction false} EntryInjective(a: Word, b: Word)
    requires Entry(a) == Entry(b)
    ensures a == b
  {
    EntryUndone(a);
    EntryUndone(b);
  }

  function Unentry(x: Word): Word {
    Unshift(Unshift(Unshift(Unshift(Unshift(Unshift(Unshift(Unshift(x))))))))
  }

  lemma {:induction false} EntryUndone(x: Word)
    ensures Unentry(Entry(x)) == x
  {
    hide Shift, Unshift;
    var x1 := Shift(x);
    var x2 := Shift(x1);
    var x3 := Shift(x2);
    var x4 := Shift(x3);
    var x5 := Shift(x4);
    var x6 := Shift(x5);
    var x7 := Shift(x6);
    ShiftUndone(x);
    ShiftUndone(x1);
    ShiftUndone(x2);
    ShiftUndone(x3);
    ShiftUndone(x4);
    ShiftUndone(x5);
    ShiftUndone(x6);
    ShiftUndone(x7);
  }

  lemma {:induction false} XorCancel(a: Word, b: Word, c: Word)
    ensures Xor(a, b) == Xor(a, c) ==> b == c
    ensures Xor(b, a) == Xor(c, a) ==> b == c
  {
  }

  /** The register after a run of bytes, from any state. */
  function Run(c: Word, key: seq<Byte>): Word { Serial(c, MessageBits(key)) }

  lemma {:induction false} RunStep(c: Word, key: seq<Byte>, b: Byte)
    ensures Run(c, key + [b]) == Entry(Xor(Run(c, key), b))
  {
    hide Xor, Serial, Entry, LowBits;
    assert (key + [b])[..|key|] == key;
    SerialAppend(c, MessageBits(key), LowBits(b, 8));
    SerialByte(Run(c, key), b);
  }

  lemma {:induction false} RunAppend(c: Word, x: seq<Byte>, y: seq<Byte>)
    ensures Run(c, x + y) == Run(Run(c, x), y)
    decreases |y|
  {
    if y == [] {
      assert x + y == x;
    } else {
      hide Xor, Serial, Entry, LowBits, MessageBits, Run;
      var z, b := y[..|y| - 1], y[|y| - 1];
      assert y == z + [b] && x + y == x + z + [b];
      RunAppend(c, x, z);
      RunStep(c, x + z, b);
      RunStep(Run(c, x), z, b);
    }
  }

  /** No run of bytes brings two different registers together. */
  lemma {:induction false} RunInjective(c: Word, d: Word, key: seq<Byte>)
    requires Run(c, key) == Run(d, key)
    ensures c == d
    decreases |key|
  {
    if key != [] {
      hide Xor, Serial, Entry, LowBits, MessageBits, Run;
      var z, b := key[..|key| - 1], key[|key| - 1];
      assert key == z + [b];
      RunStep(c, z, b);
      RunStep(d, z, b);
      EntryInjective(Xor(Run(c, z), b), Xor(Run(d, z), b));
      XorCancel(b, Run(c, z), Run(d, z));
      RunInjective(c, d, z);
    }
  }

  /** A byte with the later bytes of the same word above it. */
  function Stack(b: Byte, later: Word): Word { Xor(b, later << 8) }

  lemma {:induction false} StackParts(b: Byte, later: Word)
    requires later <= 0xff_ffff
    ensures Stack(b, later) & 0xff == b
    ensures Stack(b, later) >> 8 == later
  {
    hide Xor;
    var up := later << 8;
    Raised(later);
    StackLow(b, up);
  }

  lemma {:induction false} Raised(later: Word)
    requires later <= 0xff_ffff
    ensures (later << 8) >> 8 == later && (later << 8) & 0xff == 0
  {
  }

  lemma {:induction false} StackLow(b: Byte, up: Word)
    requires up & 0xff == 0
    ensures Xor(b, up) & 0xff == b
    ensures Xor(b, up) >> 8 == up >> 8
  {
  }

  /** Taking in the lowest byte leaves the later ones waiting. */
  lemma {:induction false} StackStep(c: Word, b: Byte, later: Word)
    requires later <= 0xff_ffff
    ensures Entry(Xor(c, Stack(b, later))) == Xor(Entry(Xor(c, b)), later)
  {
    hide Xor, Entry;
    var up := later << 8;
    Raised(later);
    EntryHigh(up);
    XorAssoc(c, b, up);
    EntryXor(Xor(c, b), up);
  }

  function Word4(m: seq<Byte>): Word
    requires |m| == 4
  {
    Stack(m[0], Stack(m[1], Stack(m[2], m[3])))
  }

  lemma {:induction false} StackFits(x: Byte, y: Byte, z: Byte)
    ensures Stack(y, z) <= 0xffff
    ensures Stack(x, Stack(y, z)) <= 0xff_ffff
  {
  }

  lemma {:induction false} Word4Injective(m: seq<Byte>, n: seq<Byte>)
    requires |m| == |n| == 4 && Word4(m) == Word4(n)
    ensures m == n
  {
    hide Stack;
    StackFits(m[1], m[2], m[3]);
    StackFits(n[1], n[2], n[3]);
    StackParts(m[0], Stack(m[1], Stack(m[2], m[3])));
    StackParts(n[0], Stack(n[1], Stack(n[2], n[3])));
    StackParts(m[1], Stack(m[2], m[3]));
    StackParts(n[1], Stack(n[2], n[3]));
    StackParts(m[2], m[3]);
    StackParts(n[2], n[3]);
  }

  lemma {:induction false} RunSteps(c: Word, m: seq<Byte>)
    requires |m| == 4
    ensures Run(c, m) == Entry(Xor(Entry(Xor(Entry(Xor(Entry(Xor(c, m[0])), m[1])), m[2])), m[3]))
  {
    hide Xor, Entry, Run;
    RunNone(c);
    assert m[..1] == [] + [m[0]] && m[..2] == m[..1] + [m[1]];
    assert m[..3] == m[..2] + [m[2]] && m == m[..3] + [m[3]];
    RunStep(c, [], m[0]);
    RunStep(c, m[..1], m[1]);
    RunStep(c, m[..2], m[2]);
    RunStep(c, m[..3], m[3]);
  }

  /** Four bytes fill the register once: the outcome is a permutation of the sum. */
  lemma {:induction false} RunFour(c: Word, m: seq<Byte>)
    requires |m| == 4
    ensures Run(c, m) == Entry(Entry(Entry(Entry(Xor(c, Word4(m))))))
  {
    hide Stack, Xor, Entry, Run;
    StackFits(m[1], m[2], m[3]);
    var w2 := Stack(m[2], m[3]);
    var c1 := Entry(Xor(c, m[0]));
    var c2 := Entry(Xor(c1, m[1]));
    StackStep(c, m[0], Stack(m[1], w2));
    StackStep(c1, m[1], w2);
    StackStep(c2, m[2], m[3]);
    RunSteps(c, m);
  }

  lemma {:induction false} RunNone(c: Word)
    ensures Run(c, []) == c
  {
  }

  lemma {:induction false} FourInjective(c: Word, m: seq<Byte>, n: seq<Byte>)
    requires |m| == |n| == 4 && Run(c, m) == Run(c, n)
    ensures m == n
  {
    hide Word4, Xor, Entry, Run;
    RunFour(c, m);
    RunFour(c, n);
    var x, y := Xor(c, Word4(m)), Xor(c, Word4(n));
    EntryInjective(Entry(Entry(Entry(x))), Entry(Entry(Entry(y))));
    EntryInjective(Entry(Entry(x)), Entry(Entry(y)));
    EntryInjective(Entry(x), Entry(y));
    EntryInjective(x, y);
    XorCancel(c, Word4(m), Word4(n));
    Word4Injective(m, n);
  }

  lemma {:induction false} FewInjective(c: Word, m: seq<Byte>, n: seq<Byte>)
    requires |m| == |n| <= 4 && Run(c, m) == Run(c, n)
    ensures m == n
    decreases 4 - |m|
  {
    hide Xor, Entry, Run;
    if |m| == 4 {
      FourInjective(c, m, n);
    } else {
      RunStep(c, m, 0);
      RunStep(c, n, 0);
      FewInjective(c, m + [0], n + [0]);
      assert m == (m + [0])[..|m|] && n == (n + [0])[..|n|];
    }
  }

  /** Two messages of one length that differ, but only within four bytes in a
      row, have different check values. */
  lemma {:induction false} BurstDetected(before: seq<Byte>, m: seq<Byte>, n: seq<Byte>, after: seq<Byte>)
    requires |m| == |n| <= 4 && m != n
    ensures Crc(before + m + after) != Crc(before + n + after)
  {
    hide Xor, Entry, Serial, MessageBits;
    var c: Word := 0xffff_ffff;
    if Crc(before + m + after) == Crc(before + n + after) {
      XorCancel(c, Run(c, before + m + after), Run(c, before + n + after));
      RunAppend(c, before + m, after);
      RunAppend(c, before + n, after);
      RunAppend(c, before, m);
      RunAppend(c, before, n);
      RunInjective(Run(Run(c, before), m), Run(Run(c, before), n), after);
      FewInjective(Run(c, before), m, n);
    }
  }

  // ---- The published check value ----

  /** "123456789" */
  const CHECK: seq<Byte> := [0x31, 0x32, 0x33, 0x34, 0x35, 0x36, 0x37, 0x38, 0x39]

  lemma {:induction false} Check1()
    ensures TableStep(0xffffffff, 0x31) == 0x7c231048
  {
  }

  lemma {:induction false} Check2()
    ensures TableStep(0x7c231048, 0x32) == 0xb0acbb32
  {
  }

  lemma {:induction false} Check3()
    ensures TableStep(0xb0acbb32, 0x33) == 0x77b79c2d
  {
  }

  lemma {:induction false} Check4()
    ensures TableStep(0x77b79c2d, 0x34) == 0x641c1f5c
  {
  }

  lemma {:induction false} Check5()
    ensures TableStep(0x641c1f5c, 0x35) == 0x340ac5e3
  {
  }

  lemma {:induction false} Check6()
    ensures TableStep(0x340ac5e3, 0x36) == 0xf68d2c9e
  {
  }

  lemma {:induction false} Check7()
    ensures TableStep(0xf68d2c9e, 0x37) == 0xaffc9660
  {
  }

  lemma {:induction false} Check8()
    ensures TableStep(0xaffc9660, 0x38) == 0x651f2550
  {
  }

  lemma {:induction false} Check9()
    ensures TableStep(0x651f2550, 0x39) == 0x340bc6d9
  {
  }

  /** The check value that CRC-32 is published with. */
  lemma {:induction false} CheckValue()
    ensures Crc(CHECK) == 0xcbf4_3926
  {
    hide Register, TableStep;
    RegisterStart(CHECK);
    RegisterStep(CHECK, 0);
    Check1();
    RegisterStep(CHECK, 1);
    Check2();
    RegisterStep(CHECK, 2);
    Check3();
    RegisterStep(CHECK, 3);
    Check4();
    RegisterStep(CHECK, 4);
    Check5();
    RegisterStep(CHECK, 5);
    Check6();
    RegisterStep(CHECK, 6);
    Check7();
    RegisterStep(CHECK, 7);
    Check8();
    RegisterStep(CHECK, 8);
    Check9();
  }

  /** The empty message has check value 0. */
  lemma {:induction false} EmptyValue()
    ensures Crc([]) == 0
  {
  }
}
