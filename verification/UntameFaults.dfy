/** The conditions on erase and program calls that fail halfway are needed: each call that does not
    meet them breaks the atomicity of a request under power cuts. */
module UntameFaults {
  import opened Wrappers
  import opened Layout
  import opened Flash
  import opened BootStore
  import opened RingSearch
  import opened TornCalls
  import opened PowerCut

  const ALL_ONES := Btinfo(0x1FFF, 1, 1, 1)
  const OLD := Btblock(BOOT, 1, 0, ZERO_INFO, ZERO_INFO)

  /** Two blocks of one record each, as a process finds them that can read both. */
  function Pair(a: Bits, b: Bits): Store
    requires |a| == |b| == RECORD_BITS
  {
    Store([EraseBlock(a, 0, 0), EraseBlock(b, 0, 0)], [Decode(a), Decode(b)], [])
  }

  lemma PairIsMirrored(cfg: Config, a: Bits, b: Bits)
    requires |a| == |b| == RECORD_BITS && ValidConfig(cfg) && cfg.ioBytes == RECORD_BYTES
    ensures Valid(cfg, Pair(a, b)) && Mirrors(Pair(a, b), {0, 1})
  {
    hide Decode;
  }

  lemma ReadBack(r: Btblock)
    ensures Decode(Encode(r)) == r
  {
    RecordRoundTrip(r, []);
    assert Encode(r) + [] == Encode(r);
  }

  lemma ZeroInfoBits(r: Btblock, i: nat)
    requires i < 16
    ensures r.kernel == ZERO_INFO ==> !Encode(r)[96 + i]
    ensures r.rootfs == ZERO_INFO ==> !Encode(r)[112 + i]
  {
    hide EncodeMagic;
    assert forall j :: 0 <= j < 13 ==> !ToBits(0, 13)[j] by {
      ZeroBitsOf(13);
    }
  }

  lemma {:induction false} ZeroBitsOf(n: nat)
    ensures forall j :: 0 <= j < n ==> !ToBits(0, n)[j]
  {
    if n > 0 {
      ZeroBitsOf(n - 1);
    }
  }

  /** The one attempt that a request makes in a ring of two blocks, if it fails. */
  lemma OnlyAttempt(cfg: Config, s: Store, req: Request, cur: nat)
    requires cur < 2 && Valid(cfg, s) && |s.flash| == 2 && Current(s.ram) == Some(cur)
    requires UpdateOne(cfg, 1 - cur, s.flash[1 - cur], s.ram[1 - cur], NewRecord(s.ram[cur], req, 1 - cur)).code != 0
    ensures var k := 1 - cur; var a := UpdateOne(cfg, k, s.flash[k], s.ram[k], NewRecord(s.ram[cur], req, k));
            var t := SetPartition(cfg, s, req).store.trace;
            |t| == |s.trace| + |a.steps|
            && forall i :: 0 <= i < |a.steps| ==> t[|s.trace| + i] == s.flash[k := a.steps[i]]
  {
    hide UpdateOne;
    var k := 1 - cur;
    var u := UpdateBlock(cfg, s, req, cur, k);
    assert Next(k, 2) == cur && Next(cur, 2) == k;
    assert Search(cfg, u.store, req, cur, cur) == Step(u.store, cur);
  }

  /** A scan of both blocks after the attempt on block k that finds another choice there. */
  lemma ThirdChoice(cfg: Config, s: Store, req: Request, cur: nat, b: EraseBlock)
    requires Valid(cfg, s) && |s.flash| == 2 && Current(s.ram) == Some(cur) && s.ram[cur] == Decode(s.flash[cur].page)
    requires |b.page| == 8 * cfg.ioBytes
    requires var d := Decode(b.page);
             && Boots(d) && (d.epoch > s.ram[cur].epoch || (d.epoch == s.ram[cur].epoch && cur == 1))
             && ChoiceOf(d) != ChoiceOf(s.ram[cur]) && ChoiceOf(d) != Apply(Some(ChoiceOf(s.ram[cur])), req)
    ensures var f := s.flash[1 - cur := b]; ValidFlash(cfg, f) && !OldOrRequested(cfg, s, req, {0, 1}, f)
  {
    hide Decode, Apply;
    var f := s.flash[1 - cur := b];
    var v := View(f, {0, 1});
    CurrentIs(v, 1 - cur);
  }

  /** Whenever a failing program reaches every 0 of the magic and misses some bit of the choice, there
      are a store and a request such that power failing right after it leaves a machine that boots
      neither what it booted before nor what was requested. */
  lemma UntameProgramBreaks(hit: nat -> bool) returns (cfg: Config, s: Store, req: Request, i: nat)
    requires !TameProgram(Reply(-1, hit))
    ensures cfg.faults == OneFault(Program, 1, hit) && Valid(cfg, s) && Mirrors(s, {0, 1}) && Current(s.ram) == Some(0)
    ensures |s.trace| <= i < |SetPartition(cfg, s, req).store.trace|
    ensures var f := SetPartition(cfg, s, req).store.trace[i];
            ValidFlash(cfg, f) && !OldOrRequested(cfg, s, req, {0, 1}, f)
  {
    hide Decode, Encode, SetPartition, OldOrRequested, UpdateOne, BootZero, IsCurrent, Mirrors, Booted, Apply;
    var j :| 96 <= j < 128 && !hit(j);
    cfg, s, i := Config(OneFault(Program, 1, hit), RECORD_BYTES, 4), Pair(Encode(OLD), Ones(RECORD_BITS)), 2;
    req := Request(if j < 112 then Rootfs else Kernel, 1, k => 0);
    PairIsMirrored(cfg, Encode(OLD), Ones(RECORD_BITS));
    OldThenErased();
    var b := TornStep(hit, NewRecord(OLD, req, 1));
    TornIsAnother(hit, req, j, b);
    OnlyAttempt(cfg, s, req, 0);
    ThirdChoice(cfg, s, req, 0, b);
  }

  lemma OldThenErased()
    ensures var ram := Pair(Encode(OLD), Ones(RECORD_BITS)).ram; ram[0] == OLD && Current(ram) == Some(0)
  {
    hide Decode, Encode;
    ReadBack(OLD);
    DecodeErased(RECORD_BITS);
    CurrentIs(Pair(Encode(OLD), Ones(RECORD_BITS)).ram, 0);
  }

  /** The block after the failed program call. */
  lemma TornStep(hit: nat -> bool, next: Btblock) returns (b: EraseBlock)
    requires Boots(next)
    ensures var cfg := Config(OneFault(Program, 1, hit), RECORD_BYTES, 4);
            var a := UpdateOne(cfg, 1, EraseBlock(Ones(RECORD_BITS), 0, 0), Decode(Ones(RECORD_BITS)), next);
            a.code != 0 && |a.steps| == 4 && a.steps[2] == b
    ensures |b.page| == RECORD_BITS && forall i :: 0 <= i < RECORD_BITS ==> b.page[i] == (Encode(next)[i] || !hit(i))
    ensures (forall i :: BootZero(i) ==> hit(i)) ==> Boots(Decode(b.page)) && Decode(b.page).epoch >= next.epoch
  {
    hide Decode, Encode, BootZero;
    DecodeErased(RECORD_BITS);
    var blank := EraseBlock(Ones(RECORD_BITS), 2, 1);
    b := blank.AfterProgram(PageImage(next, RECORD_BYTES), Reply(-1, hit));
    TornProgram(blank, next, RECORD_BYTES, Reply(-1, hit));
    assert EraseBlock(Ones(RECORD_BITS), 1, 0).AfterErase(Reply(0, i => false)) == blank;
  }

  lemma TornIsAnother(hit: nat -> bool, req: Request, j: nat, b: EraseBlock)
    requires 96 <= j < 128 && !hit(j) && req.image == (if j < 112 then Rootfs else Kernel)
    requires |b.page| == RECORD_BITS && b.page[j]
    ensures ChoiceOf(Decode(b.page)) != ChoiceOf(OLD)
    ensures ChoiceOf(Decode(b.page)) != Apply(Some(ChoiceOf(OLD)), req)
  {
    hide Decode, Encode;
    var next := NewRecord(OLD, req, 1);
    ChoiceBits(b.page, OLD);
    ChoiceBits(b.page, next);
    ZeroInfoBits(OLD, if j < 112 then j - 96 else j - 112);
    ZeroInfoBits(next, if j < 112 then j - 96 else j - 112);
    assert b.page[96..128][j - 96] && !Encode(OLD)[96..128][j - 96] && !Encode(next)[96..128][j - 96];
  }

  /** The same of every failing erase that reaches no 0 of the magic and some bit of magic or epoch:
      it can raise what was there to something that outranks the current record. */
  lemma UntameEraseBreaks(hit: nat -> bool) returns (cfg: Config, s: Store, req: Request, i: nat)
    requires !TameErase(Reply(-1, hit))
    ensures cfg.faults == OneFault(Erase, 0, hit) && Valid(cfg, s) && Mirrors(s, {0, 1}) && Current(s.ram) == Some(1)
    ensures |s.trace| <= i < |SetPartition(cfg, s, req).store.trace|
    ensures var f := SetPartition(cfg, s, req).store.trace[i];
            ValidFlash(cfg, f) && !OldOrRequested(cfg, s, req, {0, 1}, f)
  {
    hide Decode, Encode, SetPartition, OldOrRequested, UpdateOne, BootZero, IsCurrent, Mirrors, Booted, Apply;
    var j :| 0 <= j < 64 && hit(j);
    var page := Encode(Raisable(j))[j := false];
    cfg, s := Config(OneFault(Erase, 0, hit), RECORD_BYTES, 4), Pair(page, Encode(OLD));
    req, i := Request(Kernel, 1, k => 0), 1;
    PairIsMirrored(cfg, page, Encode(OLD));
    RaisableThenOld(hit, j);
    var b := RaiseStep(hit, page, Decode(page), NewRecord(OLD, req, 0));
    AfterRaise(hit, j);
    OnlyAttempt(cfg, s, req, 1);
    AllOnesIsAnother(req);
    ThirdChoice(cfg, s, req, 1, b);
  }

  lemma AllOnesIsAnother(req: Request)
    requires req.image == Kernel
    ensures Choice(ALL_ONES, ALL_ONES) != ChoiceOf(OLD)
    ensures Choice(ALL_ONES, ALL_ONES) != Apply(Some(ChoiceOf(OLD)), req)
  {
  }

  lemma RaisableThenOld(hit: nat -> bool, j: nat)
    requires j < 64 && hit(j) && forall i :: BootZero(i) ==> !hit(i)
    ensures var ram := Pair(Encode(Raisable(j))[j := false], Encode(OLD)).ram;
            ram[0].magic != BAD && ram[1] == OLD && Current(ram) == Some(1)
  {
    hide Decode, Encode, BootZero;
    ReadBack(OLD);
    BeforeRaise(hit, j);
    CurrentIs(Pair(Encode(Raisable(j))[j := false], Encode(OLD)).ram, 1);
  }

  /** The block after the failed erase call. */
  lemma RaiseStep(hit: nat -> bool, page: Bits, r: Btblock, next: Btblock) returns (b: EraseBlock)
    requires |page| == RECORD_BITS && r.magic != BAD
    ensures var cfg := Config(OneFault(Erase, 0, hit), RECORD_BYTES, 4);
            var a := UpdateOne(cfg, 0, EraseBlock(page, 0, 0), r, next);
            a.code != 0 && |a.steps| == 3 && a.steps[1] == b
    ensures b == EraseBlock(page, 1, 0).AfterErase(Reply(-1, hit))
  {
    hide Decode, Encode;
    b := EraseBlock(page, 1, 0).AfterErase(Reply(-1, hit));
  }

  /** A record that becomes one of higher epoch, or a boot record at all, when bit j is raised. */
  function Raisable(j: nat): Btblock {
    Btblock(BOOT, if j < 32 then 2 else 0, 0, ALL_ONES, ALL_ONES)
  }

  /** Before it is raised there is nothing to boot. */
  lemma BeforeRaise(hit: nat -> bool, j: nat)
    requires j < 64 && hit(j) && forall i :: BootZero(i) ==> !hit(i)
    ensures var d := Decode(Encode(Raisable(j))[j := false]); d.magic != BAD && (Boots(d) ==> d.epoch == 0)
  {
    hide Decode, Encode, EncodeInfo, DecodeMagic;
    var page := Encode(Raisable(j))[j := false];
    BitsOfRecord(Raisable(j));
    MagicBits(page, BAD);
    MagicBits(page, BOOT);
    if j < 32 {
      assert !page[..32][j] && EncodeMagic(BOOT)[j];
      BadDiffers(page, j);
    } else {
      EpochZero(page, j);
      assert page[..32] == EncodeMagic(BOOT);
      MagicsDiffer();
    }
  }

  lemma MagicsDiffer()
    ensures EncodeMagic(BOOT)[9] && EncodeMagic(BOOT)[10] && !EncodeMagic(BAD)[9] && !EncodeMagic(BAD)[10]
  {
    hide EncodeMagic, ToBits;
    SecondByte(BOOT);
    SecondByte(BAD);
    LowBits(0x6F);
    LowBits(0x41);
  }

  lemma SecondByte(m: Magic)
    ensures EncodeMagic(m)[9] == ToBits(m[1], 8)[1] && EncodeMagic(m)[10] == ToBits(m[1], 8)[2]
  {
    hide ToBits;
  }

  lemma LowBits(n: nat)
    ensures ToBits(n, 8)[1] == (n / 2 % 2 == 1) && ToBits(n, 8)[2] == (n / 2 / 2 % 2 == 1)
  {
    assert ToBits(n, 8)[1] == ToBits(n / 2, 7)[0];
    assert ToBits(n, 8)[2] == ToBits(n / 2, 7)[1] == ToBits(n / 2 / 2, 6)[0];
  }

  lemma BadDiffers(page: Bits, j: nat)
    requires |page| == RECORD_BITS && j < 32 && forall i :: 0 <= i < 32 && i != j ==> page[i] == EncodeMagic(BOOT)[i]
    ensures page[..32] != EncodeMagic(BAD)
  {
    hide EncodeMagic;
    MagicsDiffer();
    var i := if j == 9 then 10 else 9;
    assert page[..32][i] && !EncodeMagic(BAD)[i];
  }

  lemma EpochZero(page: Bits, j: nat)
    requires 32 <= j < 64 && page == Encode(Raisable(j))[j := false]
    ensures Decode(page).epoch == 0
  {
    hide EncodeMagic, DecodeMagic, EncodeInfo, DecodeInfo;
    var r := Raisable(j);
    ZeroBitsOf(32);
    assert Encode(r)[32..64] == ToBits(0, 32);
    assert !Encode(r)[32..64][j - 32];
    assert page == Encode(r);
    ReadBack(r);
  }

  /** Afterwards it boots, with an epoch of at least 1 and a choice of all ones. */
  lemma AfterRaise(hit: nat -> bool, j: nat)
    requires j < 64 && hit(j) && forall i :: BootZero(i) ==> !hit(i)
    ensures var d := Decode(EraseBlock(Encode(Raisable(j))[j := false], 1, 0).AfterErase(Reply(-1, hit)).page);
            && Boots(d) && d.epoch >= 1 && ChoiceOf(d) == Choice(ALL_ONES, ALL_ONES)
  {
    hide Decode, Encode, EncodeMagic, EncodeInfo, DecodeMagic;
    var r := Raisable(j);
    var b := EraseBlock(Encode(r)[j := false], 1, 0);
    var page := b.AfterErase(Reply(-1, hit)).page;
    BitsOfRecord(r);
    assert forall i :: 0 <= i < 32 ==> Encode(r)[..32][i] == Encode(r)[i] && EncodeMagic(BOOT)[i] == !BootZero(i);
    TornErase(b, Reply(-1, hit));
    AllOnesChoice(r);
    ChoiceBits(page, r);
    assert page[96..128] == Encode(r)[96..128];
    if j < 32 {
      EpochGrows(page, r);
    } else {
      EpochPositive(page, j);
    }
  }

  lemma EpochPositive(page: Bits, j: nat)
    requires RECORD_BITS <= |page| && 32 <= j < 64 && page[j]
    ensures Decode(page).epoch > 0
  {
    hide DecodeMagic, DecodeInfo, FromBits;
    FromBitsSome(page[32..64], j - 32);
  }

  lemma AllOnesChoice(r: Btblock)
    requires r.kernel == r.rootfs == ALL_ONES
    ensures forall i :: 96 <= i < 128 ==> Encode(r)[i]
  {
    hide EncodeMagic, EncodeInfo;
    AllOnesInfo();
    assert Encode(r)[96..112] == EncodeInfo(ALL_ONES) == Encode(r)[112..128];
    forall i | 96 <= i < 128 ensures Encode(r)[i] {
      assert Encode(r)[i] == if i < 112 then Encode(r)[96..112][i - 96] else Encode(r)[112..128][i - 112];
    }
  }

  lemma AllOnesInfo()
    ensures forall i :: 0 <= i < 16 ==> EncodeInfo(ALL_ONES)[i]
  {
    hide Pow2, ToBits, FromBits;
    Widths();
    OnesValue(13);
    ToFromBits(Ones(13));
    assert ToBits(0x1FFF, 13) == Ones(13);
  }
}
