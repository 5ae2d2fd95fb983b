/** One torn program call and its consequences: a write that is torn, reported as failed and then
    skipped over leaves a record behind that outranks the one written in its place. */
module TornWrite {
  import opened Wrappers
  import opened Layout
  import opened Flash
  import opened BootStore
  import opened Reading
  import opened RingSearch
  import opened TornCalls
  import opened PowerCut
  import opened NewRecord

  const ALL_ONES := Btinfo(0x1FFF, 1, 1, 1)
  const TORN := Btblock(BOOT, MAX_EPOCH, MAX_EPOCH, ALL_ONES, ALL_ONES)

  /** Programming block k fails after its first 32 bits; everything else works. */
  function TornAt(k: nat): Faults {
    OneFault(Program, k, i => i < 32)
  }

  lemma DecodeTorn(page: Bits, r: Btblock)
    requires RECORD_BITS <= |page| && Boots(r)
    requires forall i :: 0 <= i < RECORD_BITS ==> page[i] == (Encode(r)[i] || i >= 32)
    ensures Decode(page) == TORN
  {
    hide Pow2, FromBits, EncodeMagic, DecodeMagic, ToBits, EncodeInfo;
    BitsOfRecord(r);
    assert page[..32] == EncodeMagic(BOOT);
    MagicRoundTrip(BOOT);
    AllOnes(page[32..64]);
    AllOnes(page[64..96]);
    AllOnes(page[96..112][..13]);
    AllOnes(page[112..128][..13]);
    Widths();
  }

  lemma TornAttempt(cfg: Config, k: nat, b: EraseBlock, r: Btblock, next: Btblock)
    requires ValidConfig(cfg) && |b.page| == 8 * cfg.ioBytes && cfg.faults == TornAt(k)
    requires r.magic != BAD && Boots(next)
    ensures var a := UpdateOne(cfg, k, b, r, next); a.code == 1 && Decode(a.block.page) == TORN
  {
    hide Decode;
    var c := CheckOne(cfg, k, b, next).block;
    var blank := c.AfterErase(cfg.faults(Erase, k, c.calls));
    var page := blank.AfterProgram(PageImage(next, cfg.ioBytes), cfg.faults(Program, k, blank.calls)).page;
    DecodeTorn(page, next);
  }

  /** In every store whose current record has a successor in a ring of at least three good
      blocks, there is a torn write after which a request succeeds, and yet what boots is
      all ones, which is neither what booted before nor what was requested; its epoch is
      the last one, so that no later request can replace it. */
  lemma TornWriteWins(cfg: Config, s: Store, req: Request, cur: nat)
    requires Valid(cfg, s) && |s.flash| >= 3 && Current(s.ram) == Some(cur) && s.ram[cur].epoch + 1 < MAX_EPOCH
    requires cfg.faults == TornAt(Next(cur, |s.flash|))
    requires forall k :: 0 <= k < |s.flash| ==> s.ram[k].magic != BAD && s.ram[k] == Decode(s.flash[k].page)
    ensures var r := SetPartition(cfg, s, req);
            && r.code == 0 && Current(r.store.ram) == Some(Next(cur, |s.flash|))
            && Booted(r.store.ram) == Some(Choice(ALL_ONES, ALL_ONES))
            && EpochBefore(r.store) == MAX_EPOCH
  {
    hide Decode, PageImage, UpdateOne, SetPartition, SearchFor, FirstToPass;
    var n, torn := |s.flash|, Next(cur, |s.flash|);
    TornSearch(cfg, s, cur);
    StopIsFirst(cfg, s, req, Next(torn, n));
    var ram := SetPartition(cfg, s, req).store.ram;
    forall k | 0 <= k < n
      ensures ram[k] == if k == torn then TORN else if k == Next(torn, n) then Requested(s, req, k) else s.ram[k]
    {
      TornOnBlock(cfg, s, req, cur, k);
    }
    CurrentIs(ram, torn);
  }

  /** The search passes over the torn block and ends at the one after it. */
  lemma TornSearch(cfg: Config, s: Store, cur: nat)
    requires Valid(cfg, s) && |s.flash| >= 3 && cur < |s.flash| && cfg.faults == TornAt(Next(cur, |s.flash|))
    requires forall k :: 0 <= k < |s.flash| ==> s.ram[k].magic != BAD
    ensures FirstToPass(cfg, s, cur, Next(Next(cur, |s.flash|), |s.flash|))
  {
    var n := |s.flash|;
    var torn, stop := Next(cur, n), Next(Next(cur, n), n);
    assert Passes(cfg, s, stop) && !Passes(cfg, s, torn);
    forall j | 0 <= j < n && Ahead(torn, j, stop, n) ensures j == torn {
    }
  }

  lemma TornOnBlock(cfg: Config, s: Store, req: Request, cur: nat, k: nat)
    requires Valid(cfg, s) && |s.flash| >= 3 && Current(s.ram) == Some(cur) && k < |s.flash|
    requires cfg.faults == TornAt(Next(cur, |s.flash|))
    requires SetPartition(cfg, s, req).code == 0
    requires SearchFor(cfg, s, req).code == Next(Next(cur, |s.flash|), |s.flash|)
    requires s.ram[k].magic != BAD && s.ram[k] == Decode(s.flash[k].page)
    ensures var n, r := |s.flash|, SetPartition(cfg, s, req).store.ram[k];
            r == if k == Next(cur, n) then TORN
                 else if k == Next(Next(cur, n), n) then Requested(s, req, k) else s.ram[k]
  {
    hide Decode, PageImage, UpdateOne, SetPartition;
    var n, u := |s.flash|, SearchFor(cfg, s, req).store;
    SearchExact(cfg, s, req, cur, Next(cur, n), k);
    SearchOnFlash(cfg, s, req, k);
    assert ReadsAll(cfg, u.flash);
    SuccessReads(cfg, s, req, k);
    DecodePageImage(Requested(s, req, k), cfg.ioBytes);
    if k == Next(cur, n) {
      TornAttempt(cfg, k, s.flash[k], s.ram[k], Requested(s, req, k));
    }
  }
}
