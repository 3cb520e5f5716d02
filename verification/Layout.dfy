/** On-disk structs of fuse/types: little-endian fields, one after the other in
    declared order, and where a reader finds them. */
module Layout {
  import opened Machine

  /** One member of a struct, with its value. */
  datatype Field = F8(byte: Byte) | F16(half: nat) | F32(word: nat) | Raw(bytes: seq<Byte>)

  /** The value fits the member's width. */
  predicate InRange(f: Field) {
    match f
    case F16(n) => n < 0x1_0000
    case F32(n) => n < TWO32
    case _ => true
  }

  function Put16(n: nat): (s: seq<Byte>)
    ensures |s| == 2
  {
    [n % 256, n / 256 % 256]
  }

  function Put32(n: nat): (s: seq<Byte>)
    ensures |s| == 4
  {
    Put16(n % 0x1_0000) + Put16(n / 0x1_0000)
  }

  function SizeOf(f: Field): nat {
    match f
    case F8(_) => 1
    case F16(_) => 2
    case F32(_) => 4
    case Raw(s) => |s|
  }

  function Bytes(f: Field): (s: seq<Byte>)
    ensures |s| == SizeOf(f)
  {
    match f
    case F8(b) => [b]
    case F16(n) => Put16(n)
    case F32(n) => Put32(n)
    case Raw(s) => s
  }

  /** The bytes of the first `n` members. */
  function Struct(fs: seq<Field>, n: nat): seq<Byte>
    requires n <= |fs|
    decreases n
  {
    if n == 0 then [] else Struct(fs, n - 1) + Bytes(fs[n - 1])
  }

  /** Where member `i` starts. */
  function Offset(fs: seq<Field>, i: nat): nat
    requires i <= |fs|
  {
    if i == 0 then 0 else Offset(fs, i - 1) + SizeOf(fs[i - 1])
  }

  function Write(fs: seq<Field>): seq<Byte> { Struct(fs, |fs|) }

  lemma {:induction false} StructLength(fs: seq<Field>, n: nat)
    requires n <= |fs|
    ensures |Struct(fs, n)| == Offset(fs, n)
    decreases n
  {
    hide Bytes;
    if n > 0 {
      StructLength(fs, n - 1);
    }
  }

  /** `part` lies in `s` at position `at`. */
  predicate Holds(s: seq<Byte>, at: nat, part: seq<Byte>) {
    at + |part| <= |s| && s[at..at + |part|] == part
  }

  lemma {:induction false} HoldsPart(s: seq<Byte>, at: nat, whole: seq<Byte>, i: nat, part: seq<Byte>)
    requires Holds(s, at, whole) && Holds(whole, i, part)
    ensures Holds(s, at + i, part)
  {
    forall k | 0 <= k < |part| ensures s[at + i..at + i + |part|][k] == part[k] {
      assert whole[i..i + |part|][k] == whole[i + k];
      assert s[at..at + |whole|][i + k] == s[at + (i + k)];
    }
  }

  lemma {:induction false} HoldsFront(p: seq<Byte>, q: seq<Byte>, i: nat, part: seq<Byte>)
    requires Holds(p, i, part)
    ensures Holds(p + q, i, part)
  {
    assert (p + q)[i..i + |part|] == p[i..i + |part|];
  }

  /** Every member lies at its offset. */
  lemma {:induction false} MemberAt(fs: seq<Field>, n: nat, i: nat)
    requires i < n <= |fs|
    ensures Holds(Struct(fs, n), Offset(fs, i), Bytes(fs[i]))
    decreases n
  {
    hide Bytes, Holds;
    StructLength(fs, n - 1);
    if i < n - 1 {
      MemberAt(fs, n - 1, i);
      HoldsFront(Struct(fs, n - 1), Bytes(fs[n - 1]), Offset(fs, i), Bytes(fs[i]));
    } else {
      LastPart(Struct(fs, n - 1), Bytes(fs[n - 1]));
    }
  }

  lemma {:induction false} LastPart(p: seq<Byte>, q: seq<Byte>)
    ensures Holds(p + q, |p|, q)
  {
  }

  // ---- Reading back ----

  lemma {:induction false} Load16(s: seq<Byte>, at: nat, n: nat)
    requires n < 0x1_0000 && Holds(s, at, Put16(n))
    ensures at + 2 <= |s| && LE16(s, at) == n
  {
    var p := Put16(n);
    assert s[at..at + 2][0] == s[at] && s[at..at + 2][1] == s[at + 1];
  }

  lemma {:induction false} Load32(s: seq<Byte>, at: nat, n: nat)
    requires n < TWO32 && Holds(s, at, Put32(n))
    ensures at + 4 <= |s| && LE32(s, at) == n
  {
    var low, high := n % 0x1_0000, n / 0x1_0000;
    assert Put32(n) == Put16(low) + Put16(high);
    HoldsFront(Put16(low), Put16(high), 0, Put16(low));
    LastPart(Put16(low), Put16(high));
    HoldsPart(s, at, Put32(n), 0, Put16(low));
    HoldsPart(s, at, Put32(n), 2, Put16(high));
    Load16(s, at, low);
    Load16(s, at + 2, high);
    LoadHalves(s, at);
  }

  lemma {:induction false} LoadHalves(s: seq<Byte>, at: nat)
    requires at + 4 <= |s|
    ensures LE32(s, at) == LE16(s, at) + 0x1_0000 * LE16(s, at + 2)
  {
  }

  /** What a reader finds in a buffer that holds the first `n` members of a
      struct at `at`. */
  lemma {:induction false} ReadMember(s: seq<Byte>, at: nat, fs: seq<Field>, n: nat, i: nat)
    requires i < n <= |fs| && Holds(s, at, Struct(fs, n)) && InRange(fs[i])
    ensures Holds(s, at + Offset(fs, i), Bytes(fs[i]))
    ensures fs[i].F16? ==> at + Offset(fs, i) + 2 <= |s| && LE16(s, at + Offset(fs, i)) == fs[i].half
    ensures fs[i].F32? ==> at + Offset(fs, i) + 4 <= |s| && LE32(s, at + Offset(fs, i)) == fs[i].word
  {
    hide Holds, Struct, Put16, Put32, LE16, LE32, Offset;
    MemberAt(fs, n, i);
    HoldsPart(s, at, Struct(fs, n), Offset(fs, i), Bytes(fs[i]));
    match fs[i]
    case F16(n) => Load16(s, at + Offset(fs, i), n);
    case F32(n) => Load32(s, at + Offset(fs, i), n);
    case _ =>
  }

  /** The first members of a struct are a prefix of it. */
  lemma {:induction false} StructPrefix(fs: seq<Field>, n: nat, m: nat)
    requires n <= m <= |fs|
    ensures Struct(fs, n) <= Struct(fs, m)
    decreases m
  {
    hide Bytes;
    if n < m {
      StructPrefix(fs, n, m - 1);
    }
  }

  lemma {:induction false} OffsetStep(fs: seq<Field>, i: nat)
    requires i < |fs|
    ensures Offset(fs, i + 1) == Offset(fs, i) + SizeOf(fs[i])
  {
  }

  lemma {:induction false} HoldsPrefix(s: seq<Byte>, at: nat, whole: seq<Byte>, part: seq<Byte>)
    requires Holds(s, at, whole) && part <= whole
    ensures Holds(s, at, part)
  {
    assert whole[0..|part|] == part;
    HoldsPart(s, at, whole, 0, part);
  }

  // ---- Arrays of structs ----

  /** The bytes of the first `n` elements. */
  function Array(elems: seq<seq<Field>>, n: nat): seq<Byte>
    requires n <= |elems|
    decreases n
  {
    if n == 0 then [] else Array(elems, n - 1) + Write(elems[n - 1])
  }

  /** All elements are `w` bytes long. */
  predicate Even(elems: seq<seq<Field>>, w: nat) {
    forall i :: 0 <= i < |elems| ==> |Write(elems[i])| == w
  }

  lemma {:induction false} ArrayLength(elems: seq<seq<Field>>, w: nat, n: nat)
    requires n <= |elems| && Even(elems, w)
    ensures |Array(elems, n)| == w * n
    decreases n
  {
    hide Struct;
    if n > 0 {
      ArrayLength(elems, w, n - 1);
    }
  }

  /** Element `i` lies at `i` times the element size. */
  lemma {:induction false} ElementAt(elems: seq<seq<Field>>, w: nat, n: nat, i: nat)
    requires i < n <= |elems| && Even(elems, w)
    ensures Holds(Array(elems, n), w * i, Write(elems[i]))
    decreases n
  {
    hide Struct, Holds;
    ArrayLength(elems, w, n - 1);
    if i < n - 1 {
      ElementAt(elems, w, n - 1, i);
      HoldsFront(Array(elems, n - 1), Write(elems[n - 1]), w * i, Write(elems[i]));
    } else {
      LastPart(Array(elems, n - 1), Write(elems[n - 1]));
    }
  }
}
