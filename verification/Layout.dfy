/** The 16-byte boot record that bootconfig keeps in NAND, as the C structs lay it
    out in memory on the little-endian target: every field's bits in order, least
    significant bit first, without padding. */
module Layout {

  type Bits = seq<bool>
  type Bit = x: nat | x < 2
  type Byte = x: nat | x < 0x100
  type Word = x: nat | x < 0x1_0000_0000
  type Reserved = x: nat | x < 0x2000
  type Magic = m: seq<Byte> | |m| == 4 witness [0, 0, 0, 0]

  const BOOT: Magic := [0x42, 0x6F, 0x6F, 0x74]  // "Boot"
  const BAD: Magic := [0x42, 0x41, 0x44, 0x21]   // "BAD!"
  const MAX_EPOCH: Word := 0xFFFF_FFFF

  /** struct btinfo */
  datatype Btinfo = Btinfo(reserved: Reserved, partition: Bit, nBooted: Bit, nHealthy: Bit)

  /** struct btblock */
  datatype Btblock = Btblock(magic: Magic, epoch: Word, timestamp: Word, kernel: Btinfo, rootfs: Btinfo)

  const RECORD_BYTES := 16
  const RECORD_BITS := 128
  const KERNEL_HEALTHY_BIT := 111
  const ROOTFS_HEALTHY_BIT := 127

  const ZERO_INFO := Btinfo(0, 0, 0, 0)
  const ZERO_BLOCK := Btblock([0, 0, 0, 0], 0, 0, ZERO_INFO, ZERO_INFO)

  function Pow2(n: nat): nat {
    if n == 0 then 1 else 2 * Pow2(n - 1)
  }

  function ToBits(n: nat, width: nat): (b: Bits)
    ensures |b| == width
  {
    if width == 0 then [] else [n % 2 == 1] + ToBits(n / 2, width - 1)
  }

  function FromBits(b: Bits): (n: nat)
    ensures n < Pow2(|b|)
  {
    if b == [] then 0 else (if b[0] then 1 else 0) + 2 * FromBits(b[1..])
  }

  lemma {:induction false} FromToBits(n: nat, width: nat)
    requires n < Pow2(width)
    ensures FromBits(ToBits(n, width)) == n
  {
    if width > 0 {
      FromToBits(n / 2, width - 1);
      assert ToBits(n, width)[1..] == ToBits(n / 2, width - 1);
    }
  }

  lemma {:induction false} ToFromBits(b: Bits)
    ensures ToBits(FromBits(b), |b|) == b
  {
    if b != [] {
      ToFromBits(b[1..]);
      assert FromBits(b) / 2 == FromBits(b[1..]);
    }
  }

  lemma Widths()
    ensures Pow2(8) == 0x100 && Pow2(13) == 0x2000 && Pow2(32) == 0x1_0000_0000
  {
    assert Pow2(13) == 0x2000;
    assert Pow2(21) == 0x20_0000;
    assert Pow2(27) == 0x800_0000;
  }

  function EncodeMagic(m: Magic): (b: Bits)
    ensures |b| == 32
  {
    ToBits(m[0], 8) + ToBits(m[1], 8) + ToBits(m[2], 8) + ToBits(m[3], 8)
  }

  function DecodeMagic(b: Bits): Magic
    requires |b| == 32
  {
    Widths();
    [FromBits(b[..8]), FromBits(b[8..16]), FromBits(b[16..24]), FromBits(b[24..])]
  }

  function EncodeInfo(i: Btinfo): (b: Bits)
    ensures |b| == 16
  {
    ToBits(i.reserved, 13) + [i.partition == 1, i.nBooted == 1, i.nHealthy == 1]
  }

  function BitOf(b: bool): Bit { if b then 1 else 0 }

  function DecodeInfo(b: Bits): Btinfo
    requires |b| == 16
  {
    Widths();
    Btinfo(FromBits(b[..13]), BitOf(b[13]), BitOf(b[14]), BitOf(b[15]))
  }

  function Encode(r: Btblock): (b: Bits)
    ensures |b| == RECORD_BITS
  {
    EncodeMagic(r.magic) + ToBits(r.epoch, 32) + ToBits(r.timestamp, 32) + EncodeInfo(r.kernel) + EncodeInfo(r.rootfs)
  }

  /** The record that a read of sizeof(struct btblock) bytes finds at the start of a page. */
  function Decode(page: Bits): Btblock
    requires RECORD_BITS <= |page|
  {
    Widths();
    Btblock(DecodeMagic(page[..32]), FromBits(page[32..64]), FromBits(page[64..96]),
            DecodeInfo(page[96..112]), DecodeInfo(page[112..128]))
  }

  lemma MagicRoundTrip(m: Magic)
    ensures DecodeMagic(EncodeMagic(m)) == m
  {
    hide ToBits, FromBits, Pow2;
    Widths();
    var b := EncodeMagic(m);
    FromToBits(m[0], 8);
    FromToBits(m[1], 8);
    FromToBits(m[2], 8);
    FromToBits(m[3], 8);
    assert b[..8] == ToBits(m[0], 8) && b[8..16] == ToBits(m[1], 8);
    assert b[16..24] == ToBits(m[2], 8) && b[24..] == ToBits(m[3], 8);
  }

  lemma InfoRoundTrip(i: Btinfo)
    ensures DecodeInfo(EncodeInfo(i)) == i
  {
    Widths();
    FromToBits(i.reserved, 13);
    assert EncodeInfo(i)[..13] == ToBits(i.reserved, 13);
  }

  /** Whatever follows the record on the page, reading it back gives the record. */
  lemma RecordRoundTrip(r: Btblock, padding: Bits)
    ensures Decode(Encode(r) + padding) == r
  {
    hide Pow2, ToBits, FromBits, EncodeMagic, DecodeMagic, EncodeInfo, DecodeInfo;
    Widths();
    var page := Encode(r) + padding;
    MagicRoundTrip(r.magic);
    FromToBits(r.epoch, 32);
    FromToBits(r.timestamp, 32);
    InfoRoundTrip(r.kernel);
    InfoRoundTrip(r.rootfs);
    assert page[..32] == EncodeMagic(r.magic);
    assert page[32..64] == ToBits(r.epoch, 32);
    assert page[64..96] == ToBits(r.timestamp, 32);
    assert page[96..112] == EncodeInfo(r.kernel);
    assert page[112..128] == EncodeInfo(r.rootfs);
  }

  lemma MagicBitsRoundTrip(b: Bits)
    requires |b| == 32
    ensures EncodeMagic(DecodeMagic(b)) == b
  {
    hide ToBits, FromBits, Pow2;
    ToFromBits(b[..8]);
    ToFromBits(b[8..16]);
    ToFromBits(b[16..24]);
    ToFromBits(b[24..]);
  }

  lemma InfoBitsRoundTrip(b: Bits)
    requires |b| == 16
    ensures EncodeInfo(DecodeInfo(b)) == b
  {
    ToFromBits(b[..13]);
  }

  /** Every 128-bit pattern is some record's image: reading loses nothing. */
  lemma PatternRoundTrip(page: Bits)
    requires RECORD_BITS <= |page|
    ensures Encode(Decode(page)) == page[..RECORD_BITS]
  {
    hide EncodeMagic, DecodeMagic, EncodeInfo, DecodeInfo, Pow2, ToBits, FromBits;
    MagicBitsRoundTrip(page[..32]);
    ToFromBits(page[32..64]);
    ToFromBits(page[64..96]);
    InfoBitsRoundTrip(page[96..112]);
    InfoBitsRoundTrip(page[112..128]);
  }

  /** memset(r, 0, n) on the first n bytes of a record. */
  function ClearBytes(r: Btblock, n: nat): Btblock
    requires n <= RECORD_BYTES
  {
    Decode(seq(8 * n, _ => false) + Encode(r)[8 * n..])
  }

  lemma ZeroBits(n: nat)
    ensures FromBits(seq(n, _ => false)) == 0
  {
    if n > 0 {
      ZeroBits(n - 1);
      assert seq(n, _ => false)[1..] == seq(n - 1, _ => false);
    }
  }

  lemma ClearNone(r: Btblock)
    ensures ClearBytes(r, 0) == r
  {
    RecordRoundTrip(r, []);
    assert seq(0, _ => false) + Encode(r)[0..] == Encode(r) + [];
  }

  lemma ClearAll(r: Btblock)
    ensures ClearBytes(r, RECORD_BYTES) == ZERO_BLOCK
  {
    hide Pow2, FromBits, ToBits, EncodeMagic, EncodeInfo;
    var z := seq(128, _ => false);
    assert seq(8 * RECORD_BYTES, _ => false) + Encode(r)[8 * RECORD_BYTES..] == z;
    AllZero(z[..32][..8]);
    AllZero(z[..32][8..16]);
    AllZero(z[..32][16..24]);
    AllZero(z[..32][24..]);
    AllZero(z[32..64]);
    AllZero(z[64..96]);
    AllZero(z[96..112][..13]);
    AllZero(z[112..128][..13]);
  }

  /** What the memset leaves of a record that it clears in part: the fields up to where it ends are 0,
      those beyond stay. */
  lemma ClearSome(r: Btblock)
    ensures ClearBytes(r, 4) == Btblock([0, 0, 0, 0], r.epoch, r.timestamp, r.kernel, r.rootfs)
    ensures ClearBytes(r, 8) == Btblock([0, 0, 0, 0], 0, r.timestamp, r.kernel, r.rootfs)
    ensures ClearBytes(r, 12) == Btblock([0, 0, 0, 0], 0, 0, r.kernel, r.rootfs)
  {
    hide *;
    ClearIs(r, r.(magic := [0, 0, 0, 0]), 4);
    ClearIs(r, r.(magic := [0, 0, 0, 0], epoch := 0), 8);
    ClearIs(r, r.(magic := [0, 0, 0, 0], epoch := 0, timestamp := 0), 12);
  }

  lemma ClearIs(r: Btblock, c: Btblock, n: nat)
    requires n == 4 || n == 8 || n == 12
    requires c == r.(magic := [0, 0, 0, 0], epoch := if n < 8 then r.epoch else 0,
                     timestamp := if n < 12 then r.timestamp else 0)
    ensures ClearBytes(r, n) == c
  {
    hide FromBits, ToBits, EncodeInfo, Pow2, DecodeMagic, DecodeInfo, EncodeMagic;
    ZeroMagic();
    ZeroWord();
    var code := Encode(r);
    assert code[32..64] == ToBits(r.epoch, 32) && code[64..96] == ToBits(r.timestamp, 32);
    assert code[96..] == EncodeInfo(r.kernel) + EncodeInfo(r.rootfs);
    assert code[32..] == code[32..64] + code[64..96] + code[96..];
    assert Encode(c)[..32] == seq(32, _ => false);
    assert seq(8 * n, _ => false) + code[8 * n..] == Encode(c) + [];
    RecordRoundTrip(c, []);
  }

  lemma ZeroMagic()
    ensures EncodeMagic([0, 0, 0, 0]) == seq(32, _ => false)
  {
    hide ToBits;
    ZeroNumber(8);
    assert seq(32, _ => false) == seq(8, _ => false) + seq(8, _ => false) + seq(8, _ => false) + seq(8, _ => false);
  }

  lemma ZeroWord()
    ensures ToBits(0, 32) == seq(32, _ => false)
  {
    ZeroNumber(32);
  }

  lemma {:induction false} ZeroNumber(n: nat)
    ensures ToBits(0, n) == seq(n, _ => false)
  {
    if n > 0 {
      ZeroNumber(n - 1);
    }
  }

  lemma AllZero(b: Bits)
    requires forall i :: 0 <= i < |b| ==> !b[i]
    ensures FromBits(b) == 0
  {
    assert b == seq(|b|, _ => false);
    ZeroBits(|b|);
  }

  predicate Boots(r: Btblock) { r.magic == BOOT }

  /** What a record says is to be booted. */
  datatype Choice = Choice(kernel: Btinfo, rootfs: Btinfo)

  function ChoiceOf(r: Btblock): Choice { Choice(r.kernel, r.rootfs) }

  // ---- What single bytes and bits say ----

  /** The value of byte i of a page, from its eight bits. */
  function ByteAt(page: Bits, i: nat): nat
    requires 8 * i + 8 <= |page|
  {
    var k := 8 * i;
    BitOf(page[k]) + 2 * BitOf(page[k + 1]) + 4 * BitOf(page[k + 2]) + 8 * BitOf(page[k + 3]) + 16 * BitOf(page[k + 4])
    + 32 * BitOf(page[k + 5]) + 64 * BitOf(page[k + 6]) + 128 * BitOf(page[k + 7])
  }

  lemma {:induction false} FromBitsConcat(a: Bits, b: Bits)
    ensures FromBits(a + b) == FromBits(a) + Pow2(|a|) * FromBits(b)
    decreases |a|
  {
    if a == [] {
      assert a + b == b;
    } else {
      hide FromBits, Pow2;
      FromBitsConcat(a[1..], b);
      ConcatStep(a, b);
      TwiceOf(Pow2(|a| - 1), FromBits(b));
    }
  }

  lemma ConcatStep(a: Bits, b: Bits)
    requires a != []
    ensures FromBits(a + b) == BitOf(a[0]) + 2 * FromBits(a[1..] + b)
    ensures FromBits(a) == BitOf(a[0]) + 2 * FromBits(a[1..]) && Pow2(|a|) == 2 * Pow2(|a| - 1)
  {
    assert (a + b)[1..] == a[1..] + b;
  }

  lemma TwiceOf(p: nat, f: nat)
    ensures 2 * (p * f) == 2 * p * f
  {
  }

  lemma EightBits(b: Bits)
    requires |b| == 8
    ensures FromBits(b) == ByteAt(b, 0)
  {
    FourBits(b[..4]);
    FourBits(b[4..]);
    FromBitsConcat(b[..4], b[4..]);
    assert b == b[..4] + b[4..] && Pow2(4) == 16;
  }

  lemma FourBits(b: Bits)
    requires |b| == 4
    ensures FromBits(b) == BitOf(b[0]) + 2 * BitOf(b[1]) + 4 * BitOf(b[2]) + 8 * BitOf(b[3])
  {
    assert b[1..][1..] == b[2..] && b[2..][1..] == b[3..] && b[3..][1..] == [];
    assert FromBits(b[3..]) == BitOf(b[3]);
    assert FromBits(b[2..]) == BitOf(b[2]) + 2 * BitOf(b[3]);
  }

  lemma OneByte(page: Bits, i: nat)
    requires 8 * i + 8 <= |page|
    ensures FromBits(page[8 * i..8 * i + 8]) == ByteAt(page, i)
  {
    var b := page[8 * i..8 * i + 8];
    EightBits(b);
    assert forall j :: 0 <= j < 8 ==> b[j] == page[8 * i + j];
  }

  /** Four bytes, the least significant first. */
  lemma FourBytes(page: Bits, i: nat)
    requires 8 * i + 32 <= |page|
    ensures FromBits(page[8 * i..8 * i + 32]) == ByteAt(page, i) + 0x100 * ByteAt(page, i + 1)
                                                + 0x1_0000 * ByteAt(page, i + 2) + 0x100_0000 * ByteAt(page, i + 3)
  {
    hide FromBits, Pow2, ByteAt;
    Widths();
    var k := 8 * i;
    var a, b, c, d := page[k..k + 8], page[k + 8..k + 16], page[k + 16..k + 24], page[k + 24..k + 32];
    OneByte(page, i);
    OneByte(page, i + 1);
    OneByte(page, i + 2);
    OneByte(page, i + 3);
    FromBitsConcat(c, d);
    FromBitsConcat(b, c + d);
    FromBitsConcat(a, b + (c + d));
    assert page[k..k + 32] == a + (b + (c + d));
  }

  /** The record byte by byte: "Boot" is four ASCII characters, and numbers are little-endian. */
  lemma RecordBytes(page: Bits)
    requires RECORD_BITS <= |page|
    ensures var r := Decode(page);
            && r.magic == [ByteAt(page, 0), ByteAt(page, 1), ByteAt(page, 2), ByteAt(page, 3)]
            && r.epoch == ByteAt(page, 4) + 0x100 * ByteAt(page, 5)
                          + 0x1_0000 * ByteAt(page, 6) + 0x100_0000 * ByteAt(page, 7)
            && r.timestamp == ByteAt(page, 8) + 0x100 * ByteAt(page, 9)
                              + 0x1_0000 * ByteAt(page, 10) + 0x100_0000 * ByteAt(page, 11)
            && (Boots(r) <==> r.magic == ['B' as int, 'o' as int, 'o' as int, 't' as int])
  {
    hide FromBits, ByteAt, DecodeInfo;
    OneByte(page, 0);
    OneByte(page, 1);
    OneByte(page, 2);
    OneByte(page, 3);
    FourBytes(page, 4);
    FourBytes(page, 8);
    var m := page[..32];
    assert m[..8] == page[0..8] && m[8..16] == page[8..16] && m[16..24] == page[16..24] && m[24..] == page[24..32];
  }

  /** The flags bit by bit: in the two bytes of each image, 13 reserved bits come first, then the
      partition, "not booted" and "not healthy"; the kernel's two bytes come first. */
  lemma RecordFlags(page: Bits)
    requires RECORD_BITS <= |page|
    ensures var r := Decode(page);
            && (r.kernel.partition == 1 <==> page[109]) && (r.rootfs.partition == 1 <==> page[125])
            && (r.kernel.nBooted == 1 <==> page[110]) && (r.rootfs.nBooted == 1 <==> page[126])
            && (r.kernel.nHealthy == 1 <==> page[111]) && (r.rootfs.nHealthy == 1 <==> page[127])
            && r.kernel.reserved == (ByteAt(page, 12) + 0x100 * ByteAt(page, 13)) % 0x2000
            && r.rootfs.reserved == (ByteAt(page, 14) + 0x100 * ByteAt(page, 15)) % 0x2000
  {
    hide FromBits, ByteAt, DecodeMagic;
    TwoBytes(page, 12);
    TwoBytes(page, 14);
    assert page[96..112][..13] == page[96..109] && page[112..128][..13] == page[112..125];
  }

  lemma TwoBytes(page: Bits, i: nat)
    requires 8 * i + 16 <= |page|
    ensures FromBits(page[8 * i..8 * i + 13]) == (ByteAt(page, i) + 0x100 * ByteAt(page, i + 1)) % 0x2000
  {
    hide FromBits, Pow2, ByteAt;
    Widths();
    var k := 8 * i;
    var a, b := page[k..k + 13], page[k + 13..k + 16];
    var c, d := page[k..k + 8], page[k + 8..k + 16];
    OneByte(page, i);
    OneByte(page, i + 1);
    FromBitsConcat(a, b);
    FromBitsConcat(c, d);
    assert page[k..k + 16] == a + b == c + d;
    assert FromBits(a) < 0x2000;
  }

  lemma {:induction false} FromBitsGrows(a: Bits, b: Bits)
    requires |a| == |b| && forall i :: 0 <= i < |a| ==> a[i] ==> b[i]
    ensures FromBits(a) <= FromBits(b)
    decreases |a|
  {
    if a != [] {
      FromBitsGrows(a[1..], b[1..]);
    }
  }

  lemma {:induction false} FromBitsSome(b: Bits, i: nat)
    requires i < |b| && b[i]
    ensures FromBits(b) > 0
    decreases |b|
  {
    if i > 0 {
      FromBitsSome(b[1..], i - 1);
    }
  }

  /** The magic is given by the first 32 bits, ... */
  lemma MagicBits(page: Bits, m: Magic)
    requires RECORD_BITS <= |page|
    ensures Decode(page).magic == m <==> page[..32] == EncodeMagic(m)
  {
    hide EncodeMagic, DecodeMagic;
    MagicBitsRoundTrip(page[..32]);
    MagicRoundTrip(m);
  }

  /** ... the epoch by the next 32, ... */
  lemma EpochBits(page: Bits, r: Btblock)
    requires RECORD_BITS <= |page|
    ensures Decode(page).epoch == r.epoch <==> page[32..64] == Encode(r)[32..64]
  {
    hide Pow2, ToBits, FromBits, EncodeMagic, DecodeMagic, EncodeInfo, DecodeInfo;
    Widths();
    ToFromBits(page[32..64]);
    FromToBits(r.epoch, 32);
    assert Encode(r)[32..64] == ToBits(r.epoch, 32);
  }

  /** ... and the choice by the last 32. */
  lemma ChoiceBits(page: Bits, r: Btblock)
    requires RECORD_BITS <= |page|
    ensures ChoiceOf(Decode(page)) == ChoiceOf(r) <==> page[96..128] == Encode(r)[96..128]
  {
    hide Pow2, ToBits, FromBits, EncodeMagic, DecodeMagic, EncodeInfo, DecodeInfo;
    InfoBitsRoundTrip(page[96..112]);
    InfoBitsRoundTrip(page[112..128]);
    InfoRoundTrip(r.kernel);
    InfoRoundTrip(r.rootfs);
    var a, b := page[96..128], Encode(r)[96..128];
    assert a == page[96..112] + page[112..128];
    assert b == EncodeInfo(r.kernel) + EncodeInfo(r.rootfs);
    assert a[..16] == page[96..112] && a[16..] == page[112..128];
    assert b[..16] == EncodeInfo(r.kernel) && b[16..] == EncodeInfo(r.rootfs);
  }
}
