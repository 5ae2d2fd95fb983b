/** Clearing a health flag re-programs a page without erasing it. Programming can only clear
    bits; these lemmas say that this is all that is needed, and that nothing else changes. */
module Healthy {
  import opened Layout
  import opened Flash
  import opened BootStore

  function FlagBit(image: Image): (i: nat)
    ensures i < RECORD_BITS
  {
    if image == Kernel then KERNEL_HEALTHY_BIT else ROOTFS_HEALTHY_BIT
  }

  lemma EncodeWithHealthy(r: Btblock, image: Image)
    ensures Encode(WithHealthy(r, image)) == Encode(r)[FlagBit(image) := false]
    ensures Encode(r)[FlagBit(image)] == (HealthFlag(r, image) == 1)
  {
    var k, k' := EncodeInfo(r.kernel), EncodeInfo(r.kernel.(nHealthy := 0));
    var o, o' := EncodeInfo(r.rootfs), EncodeInfo(r.rootfs.(nHealthy := 0));
    assert k' == k[15 := false] && o' == o[15 := false];
    var head := EncodeMagic(r.magic) + ToBits(r.epoch, 32) + ToBits(r.timestamp, 32);
    assert Encode(r) == head + k + o;
    if image == Kernel {
      assert Encode(WithHealthy(r, image)) == head + k' + o;
    } else {
      assert Encode(WithHealthy(r, image)) == head + k + o';
    }
  }

  /** The page with one flag bit cleared reads as the record with that flag cleared. */
  lemma DecodeCleared(page: Bits, image: Image)
    requires RECORD_BITS <= |page|
    ensures Decode(page[FlagBit(image) := false]) == WithHealthy(Decode(page), image)
  {
    var r := WithHealthy(Decode(page), image);
    PatternRoundTrip(page);
    EncodeWithHealthy(Decode(page), image);
    assert page[FlagBit(image) := false] == Encode(r) + page[RECORD_BITS..];
    RecordRoundTrip(r, page[RECORD_BITS..]);
  }

  /** The update is legal on NAND: over the page that the record was read from, whatever
      follows the record there, the padded record with the flag cleared clears that one bit
      and keeps all others; over a page bootconfig wrote, it stores the intended page. */
  lemma ClearFlagInPlace(page: Bits, ioBytes: nat, image: Image)
    requires RECORD_BYTES <= ioBytes && |page| == 8 * ioBytes
    ensures And(page, PageImage(WithHealthy(Decode(page), image), ioBytes)) == page[FlagBit(image) := false]
    ensures forall r :: page == PageImage(r, ioBytes) ==>
              page[FlagBit(image) := false] == PageImage(WithHealthy(r, image), ioBytes)
  {
    hide Encode, Decode;
    var r := Decode(page);
    PatternRoundTrip(page);
    EncodeWithHealthy(r, image);
    forall q | page == PageImage(q, ioBytes)
      ensures page[FlagBit(image) := false] == PageImage(WithHealthy(q, image), ioBytes)
    {
      EncodeWithHealthy(q, image);
    }
  }

  /** The same under faults: a program call that fails, however torn, leaves the page as it
      was or with just the flag cleared. */
  lemma ClearFlagCannotTear(b: EraseBlock, ioBytes: nat, image: Image, reply: Reply)
    requires RECORD_BYTES <= ioBytes && |b.page| == 8 * ioBytes
    ensures var page := b.AfterProgram(PageImage(WithHealthy(Decode(b.page), image), ioBytes), reply).page;
            && (page == b.page || page == b.page[FlagBit(image) := false])
            && (reply.code >= 0 ==> page == b.page[FlagBit(image) := false])
  {
    var data := PageImage(WithHealthy(Decode(b.page), image), ioBytes);
    ClearFlagInPlace(b.page, ioBytes, image);
    var page := b.AfterProgram(data, reply).page;
    var bit := FlagBit(image);
    forall i | 0 <= i < |page| && i != bit ensures page[i] == b.page[i] {
      assert And(b.page, data)[i] == b.page[i];
    }
    assert !And(b.page, data)[bit];
    if page[bit] != b.page[bit] {
      assert page == b.page[bit := false];
    } else {
      assert page == b.page;
    }
  }

  /** What clearing a flag does to a block whose RAM record is the device's, under every
      pattern of faults: nothing if the flag is clear already; otherwise RAM has it
      cleared, and the page has it cleared too or is as it was, the latter only if the
      call failed. Nothing is erased and no other block is touched. */
  lemma SetHealthyEffect(cfg: Config, s: Store, image: Image, k: nat)
    requires Valid(cfg, s) && k < |s.flash| && s.ram[k] == Decode(s.flash[k].page)
    ensures var r := SetHealthy(cfg, s, image, k);
            && (HealthFlag(s.ram[k], image) != 1 ==> r.store == s && r.code == 0)
            && r.store.ram == s.ram[k := WithHealthy(s.ram[k], image)]
            && (r.store.flash[k].page == s.flash[k].page
                || r.store.flash[k].page == s.flash[k].page[FlagBit(image) := false])
            && (r.code == 0 ==> && r.store.flash[k].page == s.flash[k].page[FlagBit(image) := false]
                                && Decode(r.store.flash[k].page) == r.store.ram[k])
            && r.store.flash[k].erases == s.flash[k].erases
            && (forall j :: 0 <= j < |s.flash| && j != k ==> r.store.flash[j] == s.flash[j])
  {
    hide Decode, PageImage;
    var b := s.flash[k];
    DecodeCleared(b.page, image);
    ClearFlagCannotTear(b, cfg.ioBytes, image, cfg.faults(Program, k, b.calls));
    if HealthFlag(s.ram[k], image) != 1 {
      PatternRoundTrip(b.page);
      EncodeWithHealthy(s.ram[k], image);
      assert !b.page[..RECORD_BITS][FlagBit(image)];
      assert b.page[FlagBit(image) := false] == b.page;
      assert WithHealthy(s.ram[k], image) == s.ram[k];
    }
  }

  /** The same in bits of the page, with every result code: the kernel's flag is bit 111, that of the root
      file system bit 127. */
  lemma SetHealthyBits(cfg: Config, s: Store, image: Image, k: nat)
    requires Valid(cfg, s) && k < |s.flash| && s.ram[k] == Decode(s.flash[k].page)
    ensures var b, r := s.flash[k], SetHealthy(cfg, s, image, k);
            var bit := if image == Kernel then 111 else 127;
            && r.code == (if !b.page[bit] then 0
                          else if cfg.faults(Alloc, k, b.calls).code < 0 then -1
                          else if cfg.faults(Program, k, b.calls).code < 0 then 1 else 0)
            && (r.code == 0 ==> r.store.flash[k].page == b.page[bit := false])
            && (r.code == -1 ==> r.store.flash[k].page == b.page)
            && r.store.ram[k] == if image == Kernel then s.ram[k].(kernel := s.ram[k].kernel.(nHealthy := 0))
                                 else s.ram[k].(rootfs := s.ram[k].rootfs.(nHealthy := 0))
  {
    hide Decode, PageImage;
    SetHealthyEffect(cfg, s, image, k);
    RecordFlags(s.flash[k].page);
  }

  /** The second of two updates makes up for the first, if that did not reach the page. */
  lemma ClearBothInPlace(page: Bits, halfway: Bits, ioBytes: nat, a: Image, b: Image)
    requires RECORD_BYTES <= ioBytes && |page| == 8 * ioBytes
    requires halfway == page || halfway == page[FlagBit(a) := false]
    ensures And(halfway, PageImage(WithHealthy(WithHealthy(Decode(page), a), b), ioBytes))
         == page[FlagBit(a) := false][FlagBit(b) := false]
  {
    hide Encode, Decode, WithHealthy;
    var r := WithHealthy(Decode(page), a);
    PatternRoundTrip(page);
    EncodeWithHealthy(Decode(page), a);
    EncodeWithHealthy(r, b);
  }

  /** What two calls leave on the page if the first finds its flag up. */
  lemma SecondCall(cfg: Config, s: Store, k: nat, a: Image, b: Image)
    requires Valid(cfg, s) && k < |s.flash| && s.ram[k] == Decode(s.flash[k].page) && a != b
    requires HealthFlag(s.ram[k], a) == 1 && HealthFlag(s.ram[k], b) == 1
    ensures var r := SetHealthy(cfg, SetHealthy(cfg, s, a, k).store, b, k);
            r.code == 0 ==> r.store.flash[k].page == s.flash[k].page[FlagBit(a) := false][FlagBit(b) := false]
  {
    hide Decode, PageImage;
    SetHealthyEffect(cfg, s, a, k);
    var t := SetHealthy(cfg, s, a, k).store;
    var r := SetHealthy(cfg, t, b, k);
    var data := PageImage(WithHealthy(t.ram[k], b), cfg.ioBytes);
    ClearBothInPlace(s.flash[k].page, t.flash[k].page, cfg.ioBytes, a, b);
    if r.code == 0 {
      assert r.store.flash[k].page == And(t.flash[k].page, data);
    }
  }

  /** The two flags can be cleared in either order: RAM is the same in the end, and so is the page
      if the last call of each order succeeds, whether or not the first did. Clearing a flag
      again writes nothing, whatever became of the first attempt. */
  lemma FlagsCommute(cfg: Config, s: Store, k: nat)
    requires Valid(cfg, s) && k < |s.flash| && s.ram[k] == Decode(s.flash[k].page)
    ensures var a := SetHealthy(cfg, s, Kernel, k); var ab := SetHealthy(cfg, a.store, Rootfs, k);
            var b := SetHealthy(cfg, s, Rootfs, k); var ba := SetHealthy(cfg, b.store, Kernel, k);
            && ab.store.ram == ba.store.ram
            && (ab.code == 0 && ba.code == 0 ==> ab.store.flash[k].page == ba.store.flash[k].page)
            && SetHealthy(cfg, a.store, Kernel, k).store == a.store
            && SetHealthy(cfg, b.store, Rootfs, k).store == b.store
            && SetHealthy(cfg, ab.store, Kernel, k).store == ab.store
            && SetHealthy(cfg, ba.store, Rootfs, k).store == ba.store
  {
    hide Decode, PageImage;
    FlagsInRam(cfg, s, Kernel, Rootfs, k);
    FlagsInRam(cfg, s, Rootfs, Kernel, k);
    if HealthFlag(s.ram[k], Kernel) == 1 && HealthFlag(s.ram[k], Rootfs) == 1 {
      SecondCall(cfg, s, k, Kernel, Rootfs);
      SecondCall(cfg, s, k, Rootfs, Kernel);
      var i, j := FlagBit(Kernel), FlagBit(Rootfs);
      var page := s.flash[k].page;
      assert page[i := false][j := false] == page[j := false][i := false];
    }
  }

  lemma FlagsInRam(cfg: Config, s: Store, a: Image, b: Image, k: nat)
    requires Valid(cfg, s) && k < |s.flash| && a != b
    ensures var r := SetHealthy(cfg, s, a, k); var t := SetHealthy(cfg, r.store, b, k);
            && r.store.ram == s.ram[k := WithHealthy(s.ram[k], a)]
            && t.store.ram == s.ram[k := WithHealthy(WithHealthy(s.ram[k], a), b)]
            && (HealthFlag(s.ram[k], a) != 1 ==> r.store == s)
            && (HealthFlag(s.ram[k], b) != 1 ==> t.store == r.store)
            && SetHealthy(cfg, r.store, a, k).store == r.store
            && SetHealthy(cfg, t.store, a, k).store == t.store
  {
    hide PageImage;
  }
}
