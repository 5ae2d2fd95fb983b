/** What a request writes, field by field and bit by bit, and what that makes of what boots. */
module WrittenRecord {
  import opened Wrappers
  import opened Layout
  import opened Flash
  import opened BootStore
  import opened Reading
  import opened RingSearch
  import opened TornCalls
  import opened PowerCut
  import opened LogRuns
  import opened NewRecord
  import opened CrashRuns

  function InfoOf(c: Choice, image: Image): Btinfo {
    if image == Kernel then c.kernel else c.rootfs
  }

  function OtherImage(image: Image): Image {
    if image == Kernel then Rootfs else Kernel
  }

  /** What a request is for: its image is on the requested partition, neither booted nor healthy yet, as
      both flags are inverted, with its reserved bits kept; the other image is as it was. If nothing
      booted before, the other image is on partition 0, neither booted nor healthy. */
  predicate DoesRequest(before: Option<Choice>, after: Choice, req: Request) {
    var mine, other := InfoOf(after, req.image), InfoOf(after, OtherImage(req.image));
    && mine.partition == req.partition && mine.nBooted == 1 && mine.nHealthy == 1
    && mine.reserved == (if before.Some? then InfoOf(before.value, req.image).reserved else 0)
    && other == (if before.Some? then InfoOf(before.value, OtherImage(req.image)) else Btinfo(0, 0, 1, 1))
  }

  /** What clearing a flag is for. */
  predicate DoesFlag(before: Choice, after: Choice, image: Image) {
    var was, mine := InfoOf(before, image), InfoOf(after, image);
    && mine.nHealthy == 0 && mine.nBooted == was.nBooted
    && mine.partition == was.partition && mine.reserved == was.reserved
    && InfoOf(after, OtherImage(image)) == InfoOf(before, OtherImage(image))
  }

  predicate DoesCommand(before: Option<Choice>, after: Option<Choice>, c: Command) {
    match c
    case Set(req) => after.Some? && DoesRequest(before, after.value, req)
    case SetFlag(image) =>
      before.Some? == after.Some? && (before.Some? ==> DoesFlag(before.value, after.value, image))
    case Restart => after == before
  }

  /** The effect that runs with power cuts are about is that of the commands. */
  lemma EffectDoesCommand(before: Option<Choice>, c: Command)
    ensures DoesCommand(before, Effect(before, c), c)
  {
  }

  // ---- On flash ----

  /** The same in bits of the page: the kernel's flags are bits 109 to 111, those of the root file
      system are bits 125 to 127. */
  predicate PageDoesRequest(before: Option<Choice>, page: Bits, req: Request)
    requires RECORD_BITS <= |page|
  {
    && (req.image == Kernel ==>
          && page[109] == (req.partition == 1) && page[110] && page[111]
          && page[125] == (before.Some? && before.value.rootfs.partition == 1)
          && page[126] == (before.Some? ==> before.value.rootfs.nBooted == 1)
          && page[127] == (before.Some? ==> before.value.rootfs.nHealthy == 1))
    && (req.image == Rootfs ==>
          && page[125] == (req.partition == 1) && page[126] && page[127]
          && page[109] == (before.Some? && before.value.kernel.partition == 1)
          && page[110] == (before.Some? ==> before.value.kernel.nBooted == 1)
          && page[111] == (before.Some? ==> before.value.kernel.nHealthy == 1))
  }

  /** The record that a request is to write on block k: "Boot", the epoch after that of the current
      record or 1 if there is none, the time, and the choice. */
  ghost predicate IsRequested(s: Store, req: Request, k: nat, r: Btblock)
    requires 0 < |s.flash| == |s.ram|
  {
    && r.magic == ['B' as int, 'o' as int, 'o' as int, 't' as int]
    && r.epoch == (if Current(s.ram).Some? then (s.ram[Current(s.ram).value].epoch + 1) % 0x1_0000_0000 else 1)
    && r.timestamp == req.now(k)
    && DoesRequest(Booted(s.ram), ChoiceOf(r), req)
  }

  lemma RequestedIs(s: Store, req: Request, k: nat)
    requires 0 < |s.flash| == |s.ram|
    ensures IsRequested(s, req, k, Requested(s, req, k))
  {
  }

  lemma PageFlags(before: Option<Choice>, page: Bits, req: Request)
    requires RECORD_BITS <= |page| && DoesRequest(before, ChoiceOf(Decode(page)), req)
    ensures PageDoesRequest(before, page, req)
  {
    hide Decode, ByteAt;
    RecordFlags(page);
  }

  /** Whatever fails: if bc_ll_set_partition stops at a block, the page there holds the requested
      record, in every field and in every flag bit, and 0xFF behind it. */
  lemma WrittenPage(cfg: Config, s: Store, req: Request, stop: nat)
    requires Valid(cfg, s) && FirstToPass(cfg, s, Anchor(s), stop)
    ensures var page := SetPartition(cfg, s, req).store.flash[stop].page;
            && SetPartition(cfg, s, req).code == 0
            && IsRequested(s, req, stop, Decode(page)) && PageDoesRequest(Booted(s.ram), page, req)
            && forall i :: 128 <= i < |page| ==> page[i]
  {
    hide Decode, Encode, SetPartition, FirstToPass, IsRequested, DoesRequest, Requested;
    StopIsFirst(cfg, s, req, stop);
    SetPartitionOnFlash(cfg, s, req, stop);
    DecodePageImage(Requested(s, req, stop), cfg.ioBytes);
    RequestedIs(s, req, stop);
    var page := SetPartition(cfg, s, req).store.flash[stop].page;
    ChoiceRequested(s, req, stop, Decode(page));
    PageFlags(Booted(s.ram), page, req);
  }

  lemma ChoiceRequested(s: Store, req: Request, k: nat, r: Btblock)
    requires 0 < |s.flash| == |s.ram| && IsRequested(s, req, k, r)
    ensures DoesRequest(Booted(s.ram), ChoiceOf(r), req)
  {
  }

  // ---- What boots then ----

  /** In RAM, under what SuccessBootsRequest assumes: the record at the block written is the requested one,
      and what boots does what was requested if the epoch was not the last. */
  lemma SuccessDoesRequest(cfg: Config, s: Store, req: Request)
    requires Valid(cfg, s) && TameFaults(cfg.faults) && SetPartition(cfg, s, req).code == 0
    requires ReadsAll(cfg, SearchFor(cfg, s, req).store.flash)
    requires var u := SearchFor(cfg, s, req); var readable := ReadableSet(cfg, u.store.flash);
             NoneOutranks(cfg, s, readable) && u.code in readable
    ensures var ram, stop := SetPartition(cfg, s, req).store.ram, SearchFor(cfg, s, req).code;
            && IsRequested(s, req, stop, ram[stop])
            && (Current(s.ram).None? || s.ram[Current(s.ram).value].epoch < 0xFFFF_FFFF ==>
                  DoesCommand(Booted(s.ram), Booted(ram), Set(req)))
  {
    hide Decode, SetPartition, SearchFor, IsRequested, DoesRequest, NoneOutranks, TameFaults, ReadsAll, Apply, Booted;
    SuccessBootsRequest(cfg, s, req);
    RequestedIs(s, req, SearchFor(cfg, s, req).code);
    EffectDoesCommand(Booted(s.ram), Set(req));
  }

  /** Over whole runs without faults: after any commands, up to the last epoch, the next one makes of what
      boots just what it is for, and so it is the last entry of the log. */
  lemma RunDoesCommand(cfg: Config, bad: set<nat>, s: Store, cs: seq<Command>, c: Command)
    requires Unused(cfg, bad, s) && FaultFree(cfg.faults, bad) && SetCount(cs + [c]) <= 0xFFFF_FFFF
    ensures var before, after := Booted(Run(cfg, s, cs).ram), Booted(Run(cfg, s, cs + [c]).ram);
            DoesCommand(before, after, c) && after == Last(LogOf([], cs + [c]))
  {
    hide Booted, Run, Unused, FaultFree, DoesCommand, Good, OnItsBlock, NothingOn, Effect;
    SetCountOfLast(cs, c);
    LogRefinement(cfg, bad, s, cs);
    LogRefinement(cfg, bad, s, cs + [c]);
    LogOfLast([], cs, c);
    LoggedIsEffect(LogOf([], cs), c);
    EffectDoesCommand(Last(LogOf([], cs)), c);
  }

  lemma LoggedIsEffect(log: seq<Choice>, c: Command)
    ensures Last(Logged(log, c)) == Effect(Last(log), c)
  {
  }

  lemma {:induction false} LogOfLast(log: seq<Choice>, cs: seq<Command>, c: Command)
    ensures LogOf(log, cs + [c]) == Logged(LogOf(log, cs), c)
    decreases |cs|
  {
    hide Logged;
    if cs == [] {
      assert LogOf(Logged(log, c), ([] + [c])[1..]) == Logged(log, c);
    } else {
      assert (cs + [c])[1..] == cs[1..] + [c];
      LogOfLast(Logged(log, cs[0]), cs[1..], c);
    }
  }

  lemma {:induction false} SetCountOfLast(cs: seq<Command>, c: Command)
    ensures SetCount(cs + [c]) == SetCount(cs) + if c.Set? then 1 else 0
    decreases |cs|
  {
    if cs == [] {
      assert [] + [c] == [c] && SetCount([c][1..]) == 0;
    } else {
      assert (cs + [c])[1..] == cs[1..] + [c];
      SetCountOfLast(cs[1..], c);
    }
  }
}
