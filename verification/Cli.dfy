/** The bootconfig command line (main.c): partitions are named by MTD number, and every
    command ends by showing what boots now. */
module Cli {
  import opened Wrappers
  import opened Layout
  import opened Flash
  import opened BootStore
  import opened Reading
  import opened RingSearch
  import opened TornCalls
  import opened PowerCut
  import opened CrashRuns
  import opened LogRuns
  import opened NewRecord
  import opened WrittenRecord
  import opened BootConfig

  const KERNEL_START_PARTITION: Word := 2
  const ROOTFS_START_PARTITION: Word := 4

  function StartPartition(image: Image): Word {
    if image == Kernel then KERNEL_START_PARTITION else ROOTFS_START_PARTITION
  }

  /** part + part_mod, where part is unsigned and part_mod is minus the start partition. */
  function PartitionOf(mtd: Word, image: Image): Word {
    (mtd + (0x1_0000_0000 - StartPartition(image))) % 0x1_0000_0000
  }

  /** The MTD number that is printed for an image. */
  function ShownMtd(c: Choice, image: Image): nat {
    (if image == Kernel then c.kernel.partition else c.rootfs.partition) + StartPartition(image)
  }

  /** Exactly the two MTD numbers of an image are accepted, mtd2 and mtd3 for the kernel, mtd4 and mtd5
      for the root file system, the first for partition 0 and the second for partition 1; and the
      number that is printed for the partition stored is the number given. */
  lemma MtdRoundTrip(mtd: Word, image: Image)
    ensures PartitionOf(mtd, Kernel) <= 1 <==> mtd == 2 || mtd == 3
    ensures PartitionOf(mtd, Rootfs) <= 1 <==> mtd == 4 || mtd == 5
    ensures PartitionOf(2, Kernel) == PartitionOf(4, Rootfs) == 0
    ensures PartitionOf(3, Kernel) == PartitionOf(5, Rootfs) == 1
    ensures PartitionOf(mtd, image) <= 1 ==>
              forall c, now :: ShownMtd(Apply(c, Request(image, PartitionOf(mtd, image), now)), image) == mtd
  {
  }

  datatype Result = Illegal | Shown(current: Option<Btblock>)

  /** `bootconfig set-kernel` and `bootconfig set-rootfs`, with the MTD number already scanned. */
  method Set(bc: BootConfig, mtd: Word, image: Image, now: nat -> Word) returns (r: Result)
    requires bc.IsValid() && bc.initialised
    modifies bc.nand, bc.blocks
    ensures bc.IsValid()
    ensures r == Illegal <==> if image == Kernel then mtd != 2 && mtd != 3 else mtd != 4 && mtd != 5
    ensures r == Illegal ==> bc.Abs() == old(bc.Abs())
    ensures r != Illegal ==>
              && PartitionOf(mtd, image) <= 1
              && bc.Abs() == AfterSet(bc.Cfg(), old(bc.Abs()), Request(image, PartitionOf(mtd, image), now))
              && r == Shown(CurrentRecord(bc.Abs()))
  {
    hide BootStore.SetPartition, BootStore.Reread;
    var part := (mtd + (0x1_0000_0000 - StartPartition(image))) % 0x1_0000_0000;
    if part > 1 {
      return Illegal;
    }
    var _ := bc.SetPartition(image, part, now);
    var _ := bc.Reread();
    var _, c := bc.GetCurrent();
    return Shown(if c.Some? then Some(bc.blocks[c.value]) else None);
  }

  /** `bootconfig set-kernel-healthy` and `bootconfig set-rootfs-healthy` */
  method SetFlag(bc: BootConfig, image: Image) returns (r: Result)
    requires bc.IsValid() && bc.initialised
    modifies bc.nand, bc.blocks
    ensures bc.IsValid()
    ensures bc.Abs() == Execute(bc.Cfg(), old(bc.Abs()), Command.SetFlag(image))
    ensures r == Shown(CurrentRecord(bc.Abs()))
  {
    var _, c := bc.GetCurrent();
    if c.Some? && HealthFlag(bc.blocks[c.value], image) == 1 {
      var _ := bc.SetHealthy(image, c.value);
    }
    var _, shown := bc.GetCurrent();
    return Shown(if shown.Some? then Some(bc.blocks[shown.value]) else None);
  }

  ghost function CurrentRecord(s: Store): Option<Btblock> {
    if Current(s.ram).Some? then Some(s.ram[Current(s.ram).value]) else None
  }

  /** The store after `_set`: the request, then another reread, whatever came of the request. */
  ghost function AfterSet(cfg: Config, s: Store, req: Request): (t: Store)
    requires Valid(cfg, s)
    ensures Valid(cfg, t) && |t.flash| == |s.flash|
  {
    Reread(cfg, SetPartition(cfg, s, req).store).store
  }

  /** End to end: let every block that is not reported bad be readable in the last reread, none of them
      unread before, and the block that was current among them. Then whatever else fails, what
      `bootconfig set-...` shows in the end is what booted before or what was requested. If the
      request was reported done, the block it wrote can be read and the epoch was not the last,
      it is what was requested: the MTD number shown for the image is the one given and the
      other image is as before. */
  lemma SetShowsTheTruth(cfg: Config, s: Store, seen: set<nat>, mtd: Word, image: Image, now: nat -> Word)
    requires Valid(cfg, s) && TameFaults(cfg.faults) && Mirrors(s, seen) && PartitionOf(mtd, image) <= 1
    requires var f := SetPartition(cfg, s, Request(image, PartitionOf(mtd, image), now)).store.flash;
             ReadsAll(cfg, f) && Endures(s, seen, ReadableSet(cfg, f))
    ensures var req := Request(image, PartitionOf(mtd, image), now); var t := AfterSet(cfg, s, req);
            var readable := ReadableSet(cfg, SetPartition(cfg, s, req).store.flash);
            var after := Some(Apply(Booted(s.ram), req));
            && Mirrors(t, readable)
            && (Booted(t.ram) == Booted(s.ram) || Booted(t.ram) == after)
            && (&& SetPartition(cfg, s, req).code == 0 && SearchFor(cfg, s, req).code in readable
                && EpochBefore(s) < MAX_EPOCH ==>
                  && Booted(t.ram) == after && ShownMtd(after.value, image) == mtd
                  && DoesRequest(Booted(s.ram), after.value, req))
  {
    hide Decode, Apply, View, SetPartition, Reread, SearchFor, Underway, Booted, Mirrors;
    var req := Request(image, PartitionOf(mtd, image), now);
    var u, r := SearchFor(cfg, s, req).store, SetPartition(cfg, s, req);
    var readable := ReadableSet(cfg, r.store.flash);
    RereadMirrors(cfg, r.store);
    SetPartitionUnderway(cfg, s, req);
    ScanUnderway(cfg, s, req, seen, readable, r.store.flash);
    if r.code == 0 && SearchFor(cfg, s, req).code in readable && EpochBefore(s) < MAX_EPOCH {
      SetPartitionSucceeds(cfg, s, req);
      SetPartitionAfterSearch(cfg, s, req);
      UnderwayIsValid(cfg, s, req, u.flash);
      SameView(u.flash, r.store.flash, readable);
      MirrorsDoNotOutrank(cfg, s, seen, readable);
      SuccessfulScan(cfg, s, req, readable);
    }
    ShownIsGiven(Booted(s.ram), mtd, image, now);
    EffectDoesCommand(Booted(s.ram), Command.Set(req));
  }

  lemma ShownIsGiven(c: Option<Choice>, mtd: Word, image: Image, now: nat -> Word)
    requires PartitionOf(mtd, image) <= 1
    ensures ShownMtd(Apply(c, Request(image, PartitionOf(mtd, image), now)), image) == mtd
  {
    MtdRoundTrip(mtd, image);
  }
}
