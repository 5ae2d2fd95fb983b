/** Whole runs in which power fails during every command, at any point, between whatever failed
    erases and writes. */
module CrashRuns {
  import opened Wrappers
  import opened Layout
  import opened Flash
  import opened BootStore
  import opened Reading
  import opened RingSearch
  import opened TornCalls
  import opened PowerCut
  import opened Healthy
  import opened LogRuns

  /** A command and the device call after which power fails; at its end if it makes fewer. A call that
      is itself cut halfway is one that the fault script lets fail. */
  datatype Cut = Cut(command: Command, calls: nat)

  /** What a command is meant to make of the choice in force. */
  function Effect(c: Option<Choice>, command: Command): Option<Choice> {
    match command
    case Set(req) => Some(Apply(c, req))
    case SetFlag(image) => if c.None? then None else Some(Clear(c.value, image))
    case Restart => c
  }

  /** The flash that the power cut leaves behind. */
  ghost function FlashAfterCut(cfg: Config, s: Store, c: Cut): (f: seq<EraseBlock>)
    requires Valid(cfg, s)
  {
    var t, i := Execute(cfg, s, c.command), |s.trace| + c.calls - 1;
    if c.calls == 0 then s.flash else if i < |t.trace| then t.trace[i] else t.flash
  }

  ghost predicate SameSize(cfg: Config, s: Store, f: seq<EraseBlock>) {
    |f| == |s.flash| && ValidFlash(cfg, f)
  }

  /** A scan of these blocks finds what s boots or what the command makes of it. */
  ghost predicate OldOrNew(cfg: Config, s: Store, readable: set<nat>, command: Command, f: seq<EraseBlock>)
    requires ValidConfig(cfg) && SameSize(cfg, s, f)
  {
    || Booted(View(f, readable)) == Booted(s.ram)
    || Booted(View(f, readable)) == Effect(Booted(s.ram), command)
  }

  /** These blocks can be read after a power cut: none that could not be read before, and the current
      one among them. Others may go bad, or fail to be read, at any time. */
  ghost predicate Endures(s: Store, seen: set<nat>, readable: set<nat>) {
    readable <= seen && (Current(s.ram).Some? ==> Current(s.ram).value in readable)
  }

  // ---- One power cut ----

  /** What is current stays current while its rank and that of the other boot records stay. */
  lemma SameRanking(before: seq<Btblock>, after: seq<Btblock>)
    requires |before| == |after|
    requires forall k :: 0 <= k < |after| && Boots(after[k]) ==> SameRank(after[k], before[k])
    requires Current(before).Some? ==> SameRank(after[Current(before).value], before[Current(before).value])
    ensures Current(after) == Current(before)
  {
    if Current(before).Some? {
      CurrentIs(after, Current(before).value);
    } else if Current(after).Some? {
      CurrentExists(before, Current(after).value);
    }
  }

  lemma CutUnchanged(cfg: Config, s: Store, seen: set<nat>, readable: set<nat>, command: Command, f: seq<EraseBlock>)
    requires Valid(cfg, s) && Mirrors(s, seen) && Endures(s, seen, readable) && SameFlash(s.flash, f)
    ensures SameSize(cfg, s, f) && OldOrNew(cfg, s, readable, command, f)
  {
    hide Decode, Current;
    var v := View(s.flash, readable);
    SameView(s.flash, f, readable);
    forall k | 0 <= k < |f| ensures |f[k].page| == 8 * cfg.ioBytes {
      assert SameContents(s.flash[k], f[k]);
    }
    SameRanking(s.ram, v);
  }

  lemma CutInSet(cfg: Config, s: Store, seen: set<nat>, readable: set<nat>, req: Request, calls: nat)
    requires Valid(cfg, s) && TameFaults(cfg.faults) && Mirrors(s, seen) && Endures(s, seen, readable) && calls > 0
    ensures var f := FlashAfterCut(cfg, s, Cut(Set(req), calls));
            SameSize(cfg, s, f) && OldOrNew(cfg, s, readable, Set(req), f)
  {
    hide Decode, View, Booted, Apply, SetPartition, Underway;
    var t, i := SetPartition(cfg, s, req).store, |s.trace| + calls - 1;
    SetPartitionUnderway(cfg, s, req);
    var f := if i < |t.trace| then t.trace[i] else t.flash;
    UnderwayIsValid(cfg, s, req, f);
    ScanUnderway(cfg, s, req, seen, readable, f);
  }

  lemma WithHealthyIs(r: Btblock, image: Image)
    ensures var c := WithHealthy(r, image); SameRank(c, r) && ChoiceOf(c) == Clear(ChoiceOf(r), image)
  {
  }

  /** A flash on which only the flag in the current record was cleared. */
  lemma FlagScan(cfg: Config, s: Store, seen: set<nat>, readable: set<nat>, image: Image, f: seq<EraseBlock>, cur: nat)
    requires Valid(cfg, s) && Mirrors(s, seen) && Endures(s, seen, readable) && Current(s.ram) == Some(cur)
    requires |f| == |s.flash| && forall k :: 0 <= k < |f| && k != cur ==> f[k] == s.flash[k]
    requires f[cur].page == s.flash[cur].page[FlagBit(image) := false]
    ensures SameSize(cfg, s, f) && OldOrNew(cfg, s, readable, SetFlag(image), f)
  {
    hide Decode, WithHealthy, Clear, Encode;
    DecodeCleared(s.flash[cur].page, image);
    WithHealthyIs(s.ram[cur], image);
    forall k | 0 <= k < |f| ensures |f[k].page| == 8 * cfg.ioBytes {
      assert k != cur ==> f[k] == s.flash[k];
    }
    var v := View(f, readable);
    assert v[cur] == WithHealthy(s.ram[cur], image);
    forall k | 0 <= k < |v| && Boots(v[k]) ensures SameRank(v[k], s.ram[k]) {
      assert k != cur ==> f[k] == s.flash[k];
    }
    SameRanking(s.ram, v);
  }

  lemma CutInSetFlag(cfg: Config, s: Store, seen: set<nat>, readable: set<nat>, image: Image, calls: nat)
    requires Valid(cfg, s) && Mirrors(s, seen) && Endures(s, seen, readable) && calls > 0
    ensures var f := FlashAfterCut(cfg, s, Cut(SetFlag(image), calls));
            SameSize(cfg, s, f) && OldOrNew(cfg, s, readable, SetFlag(image), f)
  {
    hide Decode, View, Booted, WithHealthy, PageImage, SetHealthy;
    var c, f := Current(s.ram), FlashAfterCut(cfg, s, Cut(SetFlag(image), calls));
    if c.None? {
      CutUnchanged(cfg, s, seen, readable, SetFlag(image), f);
    } else {
      CutFlag(cfg, s, image, c.value, calls);
      if f[c.value].page == s.flash[c.value].page {
        CutUnchanged(cfg, s, seen, readable, SetFlag(image), f);
      } else {
        FlagScan(cfg, s, seen, readable, image, f, c.value);
      }
    }
  }

  lemma CutFlag(cfg: Config, s: Store, image: Image, cur: nat, calls: nat)
    requires Valid(cfg, s) && Current(s.ram) == Some(cur) && s.ram[cur] == Decode(s.flash[cur].page) && calls > 0
    ensures var f := FlashAfterCut(cfg, s, Cut(SetFlag(image), calls));
            && |f| == |s.flash| && (forall k :: 0 <= k < |f| && k != cur ==> f[k] == s.flash[k])
            && (f[cur].page == s.flash[cur].page || f[cur].page == s.flash[cur].page[FlagBit(image) := false])
            && f[cur].erases == s.flash[cur].erases
  {
    hide Decode, WithHealthy, PageImage;
    SetHealthyEffect(cfg, s, image, cur);
    assert FlashAfterCut(cfg, s, Cut(SetFlag(image), calls)) == SetHealthy(cfg, s, image, cur).store.flash;
  }

  /** What PowerCutAtomicity says of a request holds of every command: the flash after a power cut holds
      the old choice or what the command makes of it. */
  lemma CutScan(cfg: Config, s: Store, seen: set<nat>, readable: set<nat>, c: Cut)
    requires Valid(cfg, s) && TameFaults(cfg.faults) && Mirrors(s, seen) && Endures(s, seen, readable)
    ensures var f := FlashAfterCut(cfg, s, c);
            SameSize(cfg, s, f) && OldOrNew(cfg, s, readable, c.command, f)
  {
    hide Decode, OldOrNew, SetPartition, SetHealthy, Init, Endures, Mirrors;
    if c.calls == 0 {
      SameFlashAs(s.flash);
      CutUnchanged(cfg, s, seen, readable, c.command, s.flash);
    } else {
      match c.command {
        case Set(req) => CutInSet(cfg, s, seen, readable, req, c.calls);
        case SetFlag(image) => CutInSetFlag(cfg, s, seen, readable, image, c.calls);
        case Restart =>
          InitEffect(cfg, s);
          CutUnchanged(cfg, s, seen, readable, c.command, FlashAfterCut(cfg, s, c));
      }
    }
  }

  lemma SameFlashAs(f: seq<EraseBlock>)
    ensures SameFlash(f, f)
  {
  }

  // ---- Whole runs ----

  /** Power comes back: a fresh process reads what is there. */
  ghost function Crash(cfg: Config, s: Store, c: Cut): (t: Store)
    requires Valid(cfg, s) && SameSize(cfg, s, FlashAfterCut(cfg, s, c))
    ensures Valid(cfg, t) && |t.flash| == |s.flash|
  {
    Init(cfg, Store(FlashAfterCut(cfg, s, c), [], [])).store
  }

  /** The blocks that can be read after the power cut. */
  ghost function ReadableAfter(cfg: Config, s: Store, c: Cut): set<nat>
    requires Valid(cfg, s)
  {
    ReadableSet(cfg, FlashAfterCut(cfg, s, c))
  }

  /** One power cut and reboot, from a store that RAM mirrors to a store that RAM mirrors. */
  lemma CrashStep(cfg: Config, s: Store, seen: set<nat>, c: Cut)
    requires Valid(cfg, s) && TameFaults(cfg.faults) && Mirrors(s, seen) && Endures(s, seen, ReadableAfter(cfg, s, c))
    ensures SameSize(cfg, s, FlashAfterCut(cfg, s, c))
    ensures var t := Crash(cfg, s, c);
            && Mirrors(t, ReadableAfter(cfg, s, c))
            && (Booted(t.ram) == Booted(s.ram) || Booted(t.ram) == Effect(Booted(s.ram), c.command))
  {
    hide Decode, Booted, Effect, FlashAfterCut, Init, Mirrors, Endures, ReadableSet;
    CutScan(cfg, s, seen, ReadableAfter(cfg, s, c), c);
    InitMirrors(cfg, Store(FlashAfterCut(cfg, s, c), [], []));
  }

  /** Where a run stands: the store, and how many of its commands have been cut short. */
  datatype Stand = Stand(store: Store, count: nat)

  /** The run of commands that are cut short one after the other; it ends early if a reboot can read a
      block that could not be read before, or cannot read the current one. */
  ghost function CrashRun(cfg: Config, s: Store, seen: set<nat>, cuts: seq<Cut>): (r: Stand)
    requires Valid(cfg, s) && TameFaults(cfg.faults) && Mirrors(s, seen)
    ensures r.count <= |cuts|
    decreases |cuts|
  {
    if cuts == [] || !Endures(s, seen, ReadableAfter(cfg, s, cuts[0])) then Stand(s, 0)
    else
      hide *;
      CrashStep(cfg, s, seen, cuts[0]);
      var r := CrashRun(cfg, Crash(cfg, s, cuts[0]), ReadableAfter(cfg, s, cuts[0]), cuts[1..]);
      r.(count := r.count + 1)
  }

  /** A machine that booted `before` may boot `after` once the commands in `cuts` were cut short
      one after the other: each left the choice alone or did to it what it is for. */
  ghost predicate Explains(before: Option<Choice>, cuts: seq<Cut>, after: Option<Choice>)
    decreases |cuts|
  {
    if cuts == [] then after == before
    else Explains(before, cuts[1..], after) || Explains(Effect(before, cuts[0].command), cuts[1..], after)
  }

  /** Safety over whole runs: however often power fails, at whatever points and between
      whatever failed erases and writes, every reboot finds the choice it found last time
      or what the command since then was to make of it. */
  lemma {:induction false} CrashRunExplained(cfg: Config, s: Store, seen: set<nat>, cuts: seq<Cut>)
    requires Valid(cfg, s) && TameFaults(cfg.faults) && Mirrors(s, seen)
    ensures var r := CrashRun(cfg, s, seen, cuts); Explains(Booted(s.ram), cuts[..r.count], Booted(r.store.ram))
    decreases |cuts|
  {
    hide Booted, Effect, Crash, FlashAfterCut, Mirrors, Endures, ReadableAfter, TameFaults;
    if cuts != [] && Endures(s, seen, ReadableAfter(cfg, s, cuts[0])) {
      CrashStep(cfg, s, seen, cuts[0]);
      var t, after := Crash(cfg, s, cuts[0]), ReadableAfter(cfg, s, cuts[0]);
      CrashRunExplained(cfg, t, after, cuts[1..]);
      var n := CrashRun(cfg, t, after, cuts[1..]).count;
      assert cuts[..n + 1][1..] == cuts[1..][..n];
    }
  }

  /** No run ends early if checks and reads never fail on a fixed set of good blocks. */
  lemma {:induction false} ReliableRuns(cfg: Config, s: Store, bad: set<nat>, cuts: seq<Cut>)
    requires Valid(cfg, s) && TameFaults(cfg.faults) && ReliableReads(cfg.faults, bad)
    requires Mirrors(s, GoodBlocks(|s.flash|, bad))
    ensures CrashRun(cfg, s, GoodBlocks(|s.flash|, bad), cuts).count == |cuts|
    decreases |cuts|
  {
    hide Decode, Booted, Effect, Crash, ReliableReads, GoodBlocks;
    if cuts != [] {
      ReliableStep(cfg, s, bad, cuts[0]);
      CrashStep(cfg, s, GoodBlocks(|s.flash|, bad), cuts[0]);
      ReliableRuns(cfg, Crash(cfg, s, cuts[0]), bad, cuts[1..]);
    }
  }

  lemma ReliableStep(cfg: Config, s: Store, bad: set<nat>, c: Cut)
    requires Valid(cfg, s) && TameFaults(cfg.faults) && ReliableReads(cfg.faults, bad)
    requires Mirrors(s, GoodBlocks(|s.flash|, bad))
    ensures ReadableAfter(cfg, s, c) == GoodBlocks(|s.flash|, bad)
    ensures Endures(s, GoodBlocks(|s.flash|, bad), ReadableAfter(cfg, s, c))
  {
    hide Decode, FlashAfterCut, ReadableSet, ReliableReads, GoodBlocks;
    var good := GoodBlocks(|s.flash|, bad);
    MirroredChoice(s, good);
    CutScan(cfg, s, good, good, c);
    GoodIsReadable(cfg, FlashAfterCut(cfg, s, c), bad);
  }
}
