/** Over whole runs without faults, the ring of boot records is an append-only log of
    choices, of which the good blocks hold the latest entries; and it wears them evenly. */
module LogRuns {
  import opened Wrappers
  import opened Layout
  import opened Flash
  import opened BootStore
  import opened Reading
  import opened RingSearch
  import opened PowerCut
  import opened Healthy

  // ---- The log ----

  function Last(log: seq<Choice>): Option<Choice> {
    if log == [] then None else Some(log[|log| - 1])
  }

  function Clear(c: Choice, image: Image): Choice {
    if image == Kernel then c.(kernel := c.kernel.(nHealthy := 0)) else c.(rootfs := c.rootfs.(nHealthy := 0))
  }

  function Logged(log: seq<Choice>, c: Command): seq<Choice> {
    match c
    case Set(req) => log + [Apply(Last(log), req)]
    case SetFlag(image) => if log == [] then log else log[|log| - 1 := Clear(log[|log| - 1], image)]
    case Restart => log
  }

  function LogOf(log: seq<Choice>, cs: seq<Command>): seq<Choice>
    decreases |cs|
  {
    if cs == [] then log else LogOf(Logged(log, cs[0]), cs[1..])
  }

  // ---- How the flash represents it ----

  /** Checks and reads never fail: exactly the blocks in `bad` are bad. */
  ghost predicate ReliableReads(faults: Faults, bad: set<nat>) {
    && (forall k, n :: if k in bad then faults(IsBad, k, n).code > 0 else faults(IsBad, k, n).code == 0)
    && (forall k, n :: k !in bad ==> faults(Read, k, n).code == 0 || faults(Read, k, n).code == -EUCLEAN)
  }

  function GoodBlocks(n: nat, bad: set<nat>): set<nat> {
    set k | 0 <= k < n && k !in bad
  }

  lemma GoodIsReadable(cfg: Config, f: seq<EraseBlock>, bad: set<nat>)
    requires ReliableReads(cfg.faults, bad)
    ensures ReadsAll(cfg, f) && ReadableSet(cfg, f) == GoodBlocks(|f|, bad)
  {
  }

  ghost predicate FaultFree(faults: Faults, bad: set<nat>) {
    && ReliableReads(faults, bad)
    && forall k, n :: k !in bad ==>
         faults(Erase, k, n).code >= 0 && faults(Alloc, k, n).code >= 0 && faults(Program, k, n).code >= 0
  }

  /** A device on which everything works, and just these blocks are bad. */
  lemma SoundDevice(bad: set<nat>)
    ensures FaultFree((op, k, n) => Reply(if op == IsBad && k in bad then 1 else 0, i => false), bad)
  {
  }

  /** The good blocks in ring order. */
  function Good(n: nat, bad: set<nat>): (g: seq<nat>)
    ensures forall i, j :: 0 <= i < j < |g| ==> g[i] < g[j]
    ensures forall k: nat :: k in g <==> k < n && k !in bad
  {
    if n == 0 then []
    else
      var g := Good(n - 1, bad);
      assert forall i :: 0 <= i < |g| ==> g[i] in g;
      if n - 1 in bad then g else g + [n - 1]
  }

  /** The page records entry i of the log. */
  ghost predicate Holds(page: Bits, log: seq<Choice>, i: nat) {
    && RECORD_BITS <= |page| && i < |log|
    && var r := Decode(page); Boots(r) && r.epoch == i + 1 && ChoiceOf(r) == log[i]
  }

  /** The page was never written by bootconfig, nor does it look as if it were marked bad. */
  predicate Blank(page: Bits) {
    RECORD_BITS <= |page| && Decode(page).magic != BOOT && Decode(page).magic != BAD
  }

  /** Where the log stands on m good blocks: it went around `rounds` times, which took `base`
      entries, and then wrote `pos` more. */
  datatype Standing = Standing(rounds: nat, base: nat, pos: nat)

  function Advance(d: Standing, m: nat): Standing {
    if d.pos + 1 == m then Standing(d.rounds + 1, d.base + m, 0) else d.(pos := d.pos + 1)
  }

  /** The good block number j of m, which was `was` when the run began. */
  ghost predicate SlotOk(was: EraseBlock, b: EraseBlock, log: seq<Choice>, d: Standing, j: nat, m: nat)
    requires j < m
  {
    if j < d.pos then Holds(b.page, log, d.base + j) && b.erases == was.erases + d.rounds + 1
    else if d.rounds == 0 then Blank(b.page) && b.erases == was.erases
    else d.base >= m && Holds(b.page, log, d.base - m + j) && b.erases == was.erases + d.rounds
  }

  ghost predicate Represents(cfg: Config, bad: set<nat>, start: seq<EraseBlock>, s: Store, log: seq<Choice>,
                             d: Standing)
  {
    var n := |s.flash|; var g := Good(n, bad); var m := |g|;
    && Valid(cfg, s) && |start| == n && m >= 2
    && Mirrors(s, GoodBlocks(n, bad))
    && d.base == d.rounds * m && (d.rounds == 0 ==> d.base == 0)
    && d.pos < m && |log| == d.base + d.pos <= MAX_EPOCH
    && (forall j :: 0 <= j < m ==> GoodBlock(n, bad, g[j]) && SlotOk(start[g[j]], s.flash[g[j]], log, d, j, m))
    && (forall k :: 0 <= k < n && k in bad ==> s.flash[k].erases == start[k].erases)
  }

  predicate GoodBlock(n: nat, bad: set<nat>, k: nat) {
    k < n && k !in bad
  }

  function Before(pos: nat, m: nat): (p: nat)
    requires pos < m
    ensures p < m
  {
    if pos == 0 then m - 1 else pos - 1
  }

  /** No slot has an epoch beyond the log's length, and only the last written one reaches it. */
  lemma SlotEpoch(was: EraseBlock, b: EraseBlock, log: seq<Choice>, d: Standing, j: nat, m: nat)
    requires j < m && SlotOk(was, b, log, d, j, m)
    requires d.pos < m && |log| == d.base + d.pos && (d.rounds == 0 ==> d.base == 0)
    ensures Boots(Decode(b.page)) ==>
              && 0 < Decode(b.page).epoch <= |log|
              && (Decode(b.page).epoch == |log| ==> j == Before(d.pos, m))
    ensures log != [] && j == Before(d.pos, m) ==> Holds(b.page, log, |log| - 1)
  {
    hide Decode;
  }

  lemma BlockEpoch(cfg: Config, bad: set<nat>, start: seq<EraseBlock>, s: Store, log: seq<Choice>, d: Standing, k: nat)
    requires Represents(cfg, bad, start, s, log, d) && k < |s.flash| && Boots(s.ram[k])
    ensures 0 < s.ram[k].epoch <= |log|
    ensures var g := Good(|s.flash|, bad); s.ram[k].epoch == |log| ==> k == g[Before(d.pos, |g|)]
  {
    hide Decode, SlotOk;
    var g := Good(|s.flash|, bad);
    assert k in g;
    var j :| 0 <= j < |g| && g[j] == k;
    SlotEpoch(start[g[j]], s.flash[g[j]], log, d, j, |g|);
  }

  /** The current record is the last entry, in the block written last. */
  lemma CurrentOfLog(cfg: Config, bad: set<nat>, start: seq<EraseBlock>, s: Store, log: seq<Choice>, d: Standing)
    requires Represents(cfg, bad, start, s, log, d)
    ensures var g := Good(|s.flash|, bad); var last := g[Before(d.pos, |g|)];
            && (log == [] ==> Current(s.ram).None?)
            && (log != [] ==> Current(s.ram) == Some(last) && Holds(s.flash[last].page, log, |log| - 1))
            && Booted(s.ram) == Last(log)
  {
    hide Decode, SlotOk;
    var g := Good(|s.flash|, bad);
    var j := Before(d.pos, |g|);
    var last := g[j];
    forall k | 0 <= k < |s.ram| && Boots(s.ram[k])
      ensures 0 < s.ram[k].epoch <= |log| && (s.ram[k].epoch == |log| ==> k == last)
    {
      BlockEpoch(cfg, bad, start, s, log, d, k);
    }
    if log != [] {
      assert SlotOk(start[g[j]], s.flash[g[j]], log, d, j, |g|);
      SlotEpoch(start[g[j]], s.flash[g[j]], log, d, j, |g|);
      assert s.ram[last] == Decode(s.flash[last].page);
      CurrentIs(s.ram, last);
    }
  }

  // ---- Each command keeps the representation ----

  /** Between one good block and the next there are only bad ones. */
  lemma BetweenGoodBlocks(n: nat, bad: set<nat>, pos: nat, cur: nat, k: nat)
    requires pos < |Good(n, bad)| && |Good(n, bad)| >= 2 && cur < n && k < n
    requires cur == Good(n, bad)[Before(pos, |Good(n, bad)|)] || (pos == 0 && cur == n - 1)
    ensures var next := Good(n, bad)[pos];
            next in Good(n, bad) && next != cur && (Ahead(Next(cur, n), k, next, n) ==> k in bad)
  {
    hide Good;
    var g := Good(n, bad);
    assert g[pos] in g && g[Before(pos, |g|)] in g && g[0] in g && g[1] in g && g[|g| - 1] in g;
    if k !in bad {
      assert k in g;
      var j :| 0 <= j < |g| && g[j] == k;
      assert j < pos ==> j <= Before(pos, |g|);
    }
  }

  /** The next block to be written is the next good one around the ring. */
  lemma NextGoodBlock(cfg: Config, bad: set<nat>, start: seq<EraseBlock>, s: Store, log: seq<Choice>, d: Standing)
    requires Represents(cfg, bad, start, s, log, d) && FaultFree(cfg.faults, bad)
    ensures FirstToPass(cfg, s, Anchor(s), Good(|s.flash|, bad)[d.pos])
  {
    hide Decode, SlotOk, Ahead, Good;
    var n := |s.flash|;
    var cur, next := Anchor(s), Good(n, bad)[d.pos];
    CurrentOfLog(cfg, bad, start, s, log, d);
    GoodBlocksPass(cfg, bad, start, s, log, d, d.pos);
    forall k | 0 <= k < n && Ahead(Next(cur, n), k, next, n) ensures !Passes(cfg, s, k) {
      BetweenGoodBlocks(n, bad, d.pos, cur, k);
    }
    BetweenGoodBlocks(n, bad, d.pos, cur, cur);
  }

  lemma GoodBlocksPass(cfg: Config, bad: set<nat>, start: seq<EraseBlock>, s: Store, log: seq<Choice>, d: Standing,
                       j: nat)
    requires Represents(cfg, bad, start, s, log, d) && FaultFree(cfg.faults, bad) && j < |Good(|s.flash|, bad)|
    ensures Passes(cfg, s, Good(|s.flash|, bad)[j])
  {
    hide Decode;
    var g := Good(|s.flash|, bad);
    assert SlotOk(start[g[j]], s.flash[g[j]], log, d, j, |g|);
    assert s.ram[g[j]] == Decode(s.flash[g[j]].page);
  }

  /** After any successful bc_ll_set_partition, RAM mirrors the flash again. */
  lemma SetMirrors(cfg: Config, bad: set<nat>, s: Store, req: Request)
    requires Valid(cfg, s) && ReliableReads(cfg.faults, bad) && SetPartition(cfg, s, req).code == 0
    ensures Mirrors(SetPartition(cfg, s, req).store, GoodBlocks(|s.flash|, bad))
  {
    hide Decode, Reread, Mirrors, View, Booted;
    var u := SearchFor(cfg, s, req).store;
    GoodIsReadable(cfg, u.flash, bad);
    RereadMirrors(cfg, u);
  }

  /** A request leaves its entry on the next good block, ... */
  lemma SetOnNextSlot(cfg: Config, bad: set<nat>, start: seq<EraseBlock>, s: Store, log: seq<Choice>, d: Standing,
                      req: Request)
    requires Represents(cfg, bad, start, s, log, d) && FaultFree(cfg.faults, bad) && |log| < MAX_EPOCH
    ensures var k := Good(|s.flash|, bad)[d.pos];
            var b, a := s.flash[k], SetPartition(cfg, s, req).store.flash[k];
            Holds(a.page, Logged(log, Set(req)), |log|) && a.erases == b.erases + 1
  {
    hide Decode, SlotOk, Good, Mirrors, PageImage, SetPartition, FirstToPass;
    var next := Good(|s.flash|, bad)[d.pos];
    CurrentOfLog(cfg, bad, start, s, log, d);
    NextGoodBlock(cfg, bad, start, s, log, d);
    SetPartitionOnFlash(cfg, s, req, next);
    DecodePageImage(Requested(s, req, next), cfg.ioBytes);
    RequestedIsApplied(s, req, next);
    CurrentEpoch(cfg, bad, start, s, log, d);
  }

  /** ... and nothing on any other. */
  lemma SetOnOtherSlot(cfg: Config, bad: set<nat>, start: seq<EraseBlock>, s: Store, log: seq<Choice>, d: Standing,
                       req: Request, j: nat)
    requires Represents(cfg, bad, start, s, log, d) && FaultFree(cfg.faults, bad)
    requires j < |Good(|s.flash|, bad)| && j != d.pos
    ensures var k := Good(|s.flash|, bad)[j]; SameContents(SetPartition(cfg, s, req).store.flash[k], s.flash[k])
  {
    hide Decode, SlotOk, Good, Mirrors, SetPartition;
    var n := |s.flash|;
    var g := Good(n, bad);
    var cur, next := Anchor(s), g[d.pos];
    CurrentOfLog(cfg, bad, start, s, log, d);
    NextGoodBlock(cfg, bad, start, s, log, d);
    assert GoodBlock(n, bad, g[j]) && g[j] != next;
    SetPartitionOnFlash(cfg, s, req, g[j]);
    if g[j] != cur {
      BetweenGoodBlocks(n, bad, d.pos, cur, g[j]);
      FurtherOrEqual(Next(cur, n), g[j], next, n);
    }
  }

  lemma FurtherOrEqual(k: nat, j: nat, stop: nat, n: nat)
    requires k < n && j < n && stop < n && j != stop
    ensures Ahead(k, j, stop, n) || Ahead(k, stop, j, n)
  {
  }

  lemma CurrentEpoch(cfg: Config, bad: set<nat>, start: seq<EraseBlock>, s: Store, log: seq<Choice>, d: Standing)
    requires Represents(cfg, bad, start, s, log, d)
    ensures Anchored(s).ram[Anchor(s)].epoch == |log|
  {
    hide Decode, SlotOk;
    CurrentOfLog(cfg, bad, start, s, log, d);
    if log != [] {
      var g := Good(|s.flash|, bad);
      assert GoodBlock(|s.flash|, bad, g[Before(d.pos, |g|)]);
    }
  }

  lemma SlotAdvances(was: EraseBlock, b: EraseBlock, a: EraseBlock, log: seq<Choice>, c: Choice,
                     d: Standing, j: nat, m: nat)
    requires j < m && d.pos < m && |log| == d.base + d.pos && SlotOk(was, b, log, d, j, m)
    requires d.rounds == 0 ==> d.base == 0
    requires if j == d.pos then Holds(a.page, log + [c], |log|) && a.erases == b.erases + 1 else SameContents(a, b)
    ensures SlotOk(was, a, log + [c], Advance(d, m), j, m)
  {
    hide Decode;
  }

  lemma SetKeeps(cfg: Config, bad: set<nat>, start: seq<EraseBlock>, s: Store, log: seq<Choice>, d: Standing,
                 req: Request)
    requires Represents(cfg, bad, start, s, log, d) && FaultFree(cfg.faults, bad) && |log| < MAX_EPOCH
    ensures var r := SetPartition(cfg, s, req);
            && r.code == 0
            && Represents(cfg, bad, start, r.store, Logged(log, Set(req)), Advance(d, |Good(|s.flash|, bad)|))
  {
    hide Decode, SlotOk, Good, Mirrors, SetPartition, FaultFree, Advance, Apply;
    var n, t := |s.flash|, SetPartition(cfg, s, req).store;
    var m := |Good(n, bad)|;
    RequestSucceeds(cfg, bad, start, s, log, d, req);
    SetMirrorsGood(cfg, bad, s, req);
    AdvanceCounts(d, m);
    forall j | 0 <= j < m
      ensures var k := Good(n, bad)[j];
              GoodBlock(n, bad, k) && SlotOk(start[k], t.flash[k], Logged(log, Set(req)), Advance(d, m), j, m)
    {
      SlotAfterSet(cfg, bad, start, s, log, d, req, j);
    }
    forall k | 0 <= k < n && k in bad ensures t.flash[k].erases == start[k].erases {
      BadAfterSet(cfg, bad, s, req, k);
    }
  }

  lemma AdvanceCounts(d: Standing, m: nat)
    requires d.base == d.rounds * m && d.pos < m && (d.rounds == 0 ==> d.base == 0)
    ensures var e := Advance(d, m);
            && e.base == e.rounds * m && e.pos < m && (e.rounds == 0 ==> e.base == 0)
            && e.base + e.pos == d.base + d.pos + 1
  {
    assert (d.rounds + 1) * m == d.base + m;
  }

  lemma RequestSucceeds(cfg: Config, bad: set<nat>, start: seq<EraseBlock>, s: Store, log: seq<Choice>, d: Standing,
                        req: Request)
    requires Represents(cfg, bad, start, s, log, d) && FaultFree(cfg.faults, bad)
    ensures SetPartition(cfg, s, req).code == 0
  {
    hide Decode, SlotOk, Good, Mirrors, SetPartition, Passes, FaultFree;
    NextGoodBlock(cfg, bad, start, s, log, d);
    SetPartitionSucceeds(cfg, s, req);
  }

  lemma SetMirrorsGood(cfg: Config, bad: set<nat>, s: Store, req: Request)
    requires Valid(cfg, s) && FaultFree(cfg.faults, bad) && SetPartition(cfg, s, req).code == 0
    ensures Mirrors(SetPartition(cfg, s, req).store, GoodBlocks(|s.flash|, bad))
  {
    hide SetPartition, Mirrors;
    SetMirrors(cfg, bad, s, req);
  }

  lemma BadAfterSet(cfg: Config, bad: set<nat>, s: Store, req: Request, k: nat)
    requires Valid(cfg, s) && FaultFree(cfg.faults, bad) && k < |s.flash| && k in bad
    ensures SetPartition(cfg, s, req).store.flash[k].erases == s.flash[k].erases
  {
    hide SetPartition;
    BadBlocksAreLeftAlone(cfg, s, req, k);
  }

  lemma SlotAfterSet(cfg: Config, bad: set<nat>, start: seq<EraseBlock>, s: Store, log: seq<Choice>, d: Standing,
                     req: Request, j: nat)
    requires Represents(cfg, bad, start, s, log, d) && FaultFree(cfg.faults, bad) && |log| < MAX_EPOCH
    requires j < |Good(|s.flash|, bad)|
    ensures var k, m := Good(|s.flash|, bad)[j], |Good(|s.flash|, bad)|;
            && GoodBlock(|s.flash|, bad, k)
            && SlotOk(start[k], SetPartition(cfg, s, req).store.flash[k], Logged(log, Set(req)), Advance(d, m), j, m)
  {
    hide Decode, SlotOk, Good, Mirrors, SetPartition, FaultFree, Apply, Holds;
    var g, c := Good(|s.flash|, bad), Apply(Last(log), req);
    assert GoodBlock(|s.flash|, bad, g[j]);
    if j == d.pos {
      SetOnNextSlot(cfg, bad, start, s, log, d, req);
    } else {
      SetOnOtherSlot(cfg, bad, start, s, log, d, req, j);
    }
    SlotAdvances(start[g[j]], s.flash[g[j]], SetPartition(cfg, s, req).store.flash[g[j]], log, c, d, j, |g|);
  }

  lemma RestartKeeps(cfg: Config, bad: set<nat>, start: seq<EraseBlock>, s: Store, log: seq<Choice>, d: Standing)
    requires Represents(cfg, bad, start, s, log, d) && FaultFree(cfg.faults, bad)
    ensures Represents(cfg, bad, start, Init(cfg, s).store, log, d)
  {
    hide Decode, SlotOk, Good, Mirrors, Init, View, Booted;
    var n, t := |s.flash|, Init(cfg, s).store;
    var g := Good(n, bad);
    InitMirrors(cfg, s);
    GoodIsReadable(cfg, s.flash, bad);
    forall j | 0 <= j < |g| ensures SlotOk(start[g[j]], t.flash[g[j]], log, d, j, |g|) {
      assert GoodBlock(n, bad, g[j]) && SameContents(s.flash[g[j]], t.flash[g[j]]);
      SlotSame(start[g[j]], s.flash[g[j]], t.flash[g[j]], log, d, j, |g|);
    }
    forall k | 0 <= k < n && k in bad ensures t.flash[k].erases == start[k].erases {
      assert SameContents(s.flash[k], t.flash[k]);
    }
  }

  lemma SlotSame(was: EraseBlock, b: EraseBlock, a: EraseBlock, log: seq<Choice>, d: Standing, j: nat, m: nat)
    requires j < m && SlotOk(was, b, log, d, j, m) && SameContents(b, a)
    ensures SlotOk(was, a, log, d, j, m)
  {
  }

  /** Clearing a flag of the last entry: in its slot the record changes with it. */
  lemma SlotCleared(was: EraseBlock, b: EraseBlock, a: EraseBlock, log: seq<Choice>, image: Image,
                    d: Standing, j: nat, m: nat)
    requires j < m && d.pos < m && |log| == d.base + d.pos && log != [] && SlotOk(was, b, log, d, j, m)
    requires d.rounds == 0 ==> d.base == 0
    requires if j == Before(d.pos, m)
             then |a.page| == |b.page| && Decode(a.page) == WithHealthy(Decode(b.page), image) && a.erases == b.erases
             else SameContents(a, b)
    ensures SlotOk(was, a, Logged(log, SetFlag(image)), d, j, m)
  {
    hide Decode;
    var log' := Logged(log, SetFlag(image));
    if j == Before(d.pos, m) {
      SlotEpoch(was, b, log, d, j, m);
      assert Holds(a.page, log', |log| - 1);
    }
  }

  lemma FlagKeeps(cfg: Config, bad: set<nat>, start: seq<EraseBlock>, s: Store, log: seq<Choice>, d: Standing,
                  image: Image)
    requires Represents(cfg, bad, start, s, log, d) && FaultFree(cfg.faults, bad)
    ensures Represents(cfg, bad, start, Execute(cfg, s, SetFlag(image)), Logged(log, SetFlag(image)), d)
  {
    hide Decode, SlotOk, Good, SetHealthy, WithHealthy;
    CurrentOfLog(cfg, bad, start, s, log, d);
    if log != [] {
      var n, t := |s.flash|, Execute(cfg, s, SetFlag(image));
      var g := Good(n, bad);
      var last := Before(d.pos, |g|);
      var cur := g[last];
      assert GoodBlock(n, bad, cur);
      SetHealthyWorks(cfg, bad, s, image, cur);
      forall j | 0 <= j < |g|
        ensures SlotOk(start[g[j]], t.flash[g[j]], Logged(log, SetFlag(image)), d, j, |g|)
      {
        assert GoodBlock(n, bad, g[j]);
        assert j != last ==> g[j] != cur;
        SlotCleared(start[g[j]], s.flash[g[j]], t.flash[g[j]], log, image, d, j, |g|);
      }
    }
  }

  lemma SetHealthyWorks(cfg: Config, bad: set<nat>, s: Store, image: Image, k: nat)
    requires Valid(cfg, s) && FaultFree(cfg.faults, bad) && k < |s.flash| && k !in bad
    requires s.ram[k] == Decode(s.flash[k].page)
    ensures var r := SetHealthy(cfg, s, image, k);
            && r.code == 0 && r.store.ram == s.ram[k := WithHealthy(s.ram[k], image)]
            && Decode(r.store.flash[k].page) == r.store.ram[k]
            && r.store.flash[k].erases == s.flash[k].erases
            && (forall j :: 0 <= j < |s.flash| && j != k ==> r.store.flash[j] == s.flash[j])
  {
    hide Decode, PageImage;
    SetHealthyEffect(cfg, s, image, k);
  }

  // ---- Whole runs ----

  function SetCount(cs: seq<Command>): nat
    decreases |cs|
  {
    if cs == [] then 0 else (if cs[0].Set? then 1 else 0) + SetCount(cs[1..])
  }

  /** Where the log stands after a command. */
  function Moved(d: Standing, m: nat, c: Command): Standing {
    if c.Set? then Advance(d, m) else d
  }

  lemma CommandKeeps(cfg: Config, bad: set<nat>, start: seq<EraseBlock>, s: Store, log: seq<Choice>, d: Standing,
                     c: Command)
    requires Represents(cfg, bad, start, s, log, d) && FaultFree(cfg.faults, bad)
    requires c.Set? ==> |log| < MAX_EPOCH
    ensures Represents(cfg, bad, start, Execute(cfg, s, c), Logged(log, c), Moved(d, |Good(|s.flash|, bad)|, c))
  {
    match c {
      case Set(req) => SetKeeps(cfg, bad, start, s, log, d, req);
      case SetFlag(image) => FlagKeeps(cfg, bad, start, s, log, d, image);
      case Restart => RestartKeeps(cfg, bad, start, s, log, d);
    }
  }

  function MovedBy(d: Standing, m: nat, cs: seq<Command>): Standing
    decreases |cs|
  {
    if cs == [] then d else MovedBy(Moved(d, m, cs[0]), m, cs[1..])
  }

  lemma {:induction false} RunRepresents(cfg: Config, bad: set<nat>, start: seq<EraseBlock>, s: Store,
                                         log: seq<Choice>, d: Standing, cs: seq<Command>)
    requires Valid(cfg, s) && Represents(cfg, bad, start, s, log, d) && FaultFree(cfg.faults, bad)
    requires |log| + SetCount(cs) <= MAX_EPOCH
    ensures |LogOf(log, cs)| == |log| + SetCount(cs)
    ensures Represents(cfg, bad, start, Run(cfg, s, cs), LogOf(log, cs), MovedBy(d, |Good(|s.flash|, bad)|, cs))
    decreases |cs|
  {
    if cs != [] {
      hide Represents, Good, Execute, Apply, Moved;
      CommandKeeps(cfg, bad, start, s, log, d, cs[0]);
      RunRepresents(cfg, bad, start, Execute(cfg, s, cs[0]), Logged(log, cs[0]),
                    Moved(d, |Good(|s.flash|, bad)|, cs[0]), cs[1..]);
    }
  }

  /** A store in which no boot record has been written yet. */
  ghost predicate Unused(cfg: Config, bad: set<nat>, s: Store) {
    && Valid(cfg, s) && |Good(|s.flash|, bad)| >= 2 && Mirrors(s, GoodBlocks(|s.flash|, bad))
    && forall k :: 0 <= k < |s.flash| && k !in bad ==> Blank(s.flash[k].page)
  }

  /** Entry i of the log is on its block: the good blocks take turns. */
  ghost predicate OnItsBlock(t: Store, g: seq<nat>, log: seq<Choice>, i: nat) {
    0 < |g| && g[i % |g|] < |t.flash| && Holds(t.flash[g[i % |g|]].page, log, i)
  }

  /** What it means for a store to hold a log: what boots is the last entry; its record is the
      current one; and every good block holds the latest entry whose turn it had, or nothing to
      boot if it had none, so that together they hold exactly the last entries, as many as
      there are good blocks. */
  ghost predicate Refines(t: Store, g: seq<nat>, log: seq<Choice>) {
    && 0 < |g|
    && Booted(t.ram) == Last(log)
    && (log != [] ==> Current(t.ram) == Some(g[(|log| - 1) % |g|]))
    && (forall i :: 0 <= i < |log| && |log| - |g| <= i ==> OnItsBlock(t, g, log, i))
    && (forall j :: |log| <= j < |g| ==> NothingOn(t, g[j]))
  }

  predicate NothingOn(t: Store, k: nat) {
    k < |t.flash| && RECORD_BITS <= |t.flash[k].page| && !Boots(Decode(t.flash[k].page))
  }

  lemma LargeMultiple(x: int, m: int)
    requires x != 0 && m > 0
    ensures x * m >= m || x * m <= -m
  {
    if x > 0 {
      assert (x - 1) * m >= 0;
    } else {
      assert (-x - 1) * m >= 0;
    }
  }

  lemma DivideTurns(q: nat, m: nat, j: nat)
    requires j < m
    ensures (q * m + j) / m == q && (q * m + j) % m == j
  {
    var x := q * m + j;
    var a, r := x / m, x % m;
    assert (a - q) * m == j - r;
    if a != q {
      LargeMultiple(a - q, m);
      assert false;
    }
  }

  lemma SlotTurn(d: Standing, m: nat, i: nat, j: nat)
    requires d.base == d.rounds * m && j < m
    requires i == d.base + j || (d.rounds > 0 && i == d.base - m + j)
    ensures i % m == j
  {
    if i == d.base + j {
      DivideTurns(d.rounds, m, j);
    } else {
      assert (d.rounds - 1) * m == d.base - m;
      DivideTurns(d.rounds - 1, m, j);
    }
  }

  lemma SlotsOfLog(cfg: Config, bad: set<nat>, start: seq<EraseBlock>, s: Store, log: seq<Choice>, d: Standing, i: nat)
    requires Represents(cfg, bad, start, s, log, d)
    requires |log| - |Good(|s.flash|, bad)| <= i < |log|
    ensures OnItsBlock(s, Good(|s.flash|, bad), log, i)
  {
    hide Decode, Good, Mirrors;
    var g := Good(|s.flash|, bad);
    var m := |g|;
    var j := if i >= d.base then i - d.base else i - d.base + m;
    assert SlotOk(start[g[j]], s.flash[g[j]], log, d, j, m);
    SlotTurn(d, m, i, j);
  }

  lemma WearOfLog(cfg: Config, bad: set<nat>, start: seq<EraseBlock>, s: Store, log: seq<Choice>, d: Standing, k: nat)
    requires Represents(cfg, bad, start, s, log, d) && k < |s.flash|
    ensures var turns, wear := |log| / |Good(|s.flash|, bad)|, s.flash[k].erases - start[k].erases;
            if k in bad then wear == 0 else turns <= wear <= turns + 1
  {
    hide Decode, Good, Mirrors;
    var g := Good(|s.flash|, bad);
    DivideTurns(d.rounds, |g|, d.pos);
    if k !in bad {
      assert k in g;
      var j :| 0 <= j < |g| && g[j] == k;
      assert SlotOk(start[g[j]], s.flash[g[j]], log, d, j, |g|);
    }
  }

  lemma RepresentsRefines(cfg: Config, bad: set<nat>, start: seq<EraseBlock>, s: Store, log: seq<Choice>, d: Standing)
    requires Represents(cfg, bad, start, s, log, d)
    ensures Refines(s, Good(|s.flash|, bad), log)
  {
    hide Decode, Good, Mirrors, SlotOk, OnItsBlock, NothingOn;
    CurrentOfLog(cfg, bad, start, s, log, d);
    if log != [] {
      LastTurn(cfg, bad, start, s, log, d);
    }
    var g := Good(|s.flash|, bad);
    forall i | 0 <= i < |log| && |log| - |g| <= i ensures OnItsBlock(s, g, log, i) {
      SlotsOfLog(cfg, bad, start, s, log, d, i);
    }
    forall j | |log| <= j < |g| ensures NothingOn(s, g[j]) {
      UnusedSlot(cfg, bad, start, s, log, d, j);
    }
  }

  /** A good block whose turn never came. */
  lemma UnusedSlot(cfg: Config, bad: set<nat>, start: seq<EraseBlock>, s: Store, log: seq<Choice>, d: Standing, j: nat)
    requires Represents(cfg, bad, start, s, log, d) && |log| <= j < |Good(|s.flash|, bad)|
    ensures NothingOn(s, Good(|s.flash|, bad)[j])
  {
    hide Decode, Good, Mirrors;
    var g := Good(|s.flash|, bad);
    if d.rounds > 0 {
      LargeMultiple(d.rounds, |g|);
    }
    assert GoodBlock(|s.flash|, bad, g[j]) && SlotOk(start[g[j]], s.flash[g[j]], log, d, j, |g|);
  }

  lemma {:induction false} LogLength(log: seq<Choice>, cs: seq<Command>)
    ensures |LogOf(log, cs)| == |log| + SetCount(cs)
    decreases |cs|
  {
    if cs != [] {
      LogLength(Logged(log, cs[0]), cs[1..]);
    }
  }

  /** The refinement: whatever commands a user gives to an unused store, it holds the log that
      they write if and only if at most 2^32 - 1 of them set a partition. */
  lemma LogRefinement(cfg: Config, bad: set<nat>, s: Store, cs: seq<Command>)
    requires Unused(cfg, bad, s) && FaultFree(cfg.faults, bad)
    ensures |LogOf([], cs)| == SetCount(cs)
    ensures Refines(Run(cfg, s, cs), Good(|s.flash|, bad), LogOf([], cs)) <==> SetCount(cs) <= MAX_EPOCH
  {
    hide Represents, Run;
    var t, log, g := Run(cfg, s, cs), LogOf([], cs), Good(|s.flash|, bad);
    LogLength([], cs);
    if SetCount(cs) <= MAX_EPOCH {
      UnusedRepresents(cfg, bad, s);
      RunRepresents(cfg, bad, s.flash, s, [], Standing(0, 0, 0), cs);
      RepresentsRefines(cfg, bad, s.flash, t, log, MovedBy(Standing(0, 0, 0), |g|, cs));
    } else {
      assert !OnItsBlock(t, g, log, |log| - 1);
    }
  }

  /** Wear levelling: in such a run every good block is erased equally often, give or take one,
      and no bad block is erased at all. */
  lemma WearLevelling(cfg: Config, bad: set<nat>, s: Store, cs: seq<Command>, j: nat, k: nat)
    requires Unused(cfg, bad, s) && FaultFree(cfg.faults, bad) && SetCount(cs) <= MAX_EPOCH
    requires j < |s.flash| && k < |s.flash|
    ensures var t := Run(cfg, s, cs);
            var a, b := t.flash[j].erases - s.flash[j].erases, t.flash[k].erases - s.flash[k].erases;
            && (j in bad ==> a == 0)
            && (j !in bad && k !in bad ==> -1 <= a - b <= 1)
            && (j !in bad ==> var turns := SetCount(cs) / |Good(|s.flash|, bad)|; turns <= a <= turns + 1)
  {
    hide Represents, Run;
    var t, log := Run(cfg, s, cs), LogOf([], cs);
    UnusedRepresents(cfg, bad, s);
    RunRepresents(cfg, bad, s.flash, s, [], Standing(0, 0, 0), cs);
    var d := MovedBy(Standing(0, 0, 0), |Good(|s.flash|, bad)|, cs);
    WearOfLog(cfg, bad, s.flash, t, log, d, j);
    WearOfLog(cfg, bad, s.flash, t, log, d, k);
  }

  lemma UnusedRepresents(cfg: Config, bad: set<nat>, s: Store)
    requires Unused(cfg, bad, s)
    ensures Represents(cfg, bad, s.flash, s, [], Standing(0, 0, 0))
  {
    hide Decode;
    var g := Good(|s.flash|, bad);
    forall j | 0 <= j < |g| ensures GoodBlock(|s.flash|, bad, g[j]) {
      assert g[j] in g;
    }
  }

  /** Where runs begin: a fresh process on a device whose good blocks were never written by
      bootconfig, and at least two of which are good, finds an unused store. */
  lemma FreshStart(cfg: Config, bad: set<nat>, s: Store)
    requires ValidConfig(cfg) && 0 < |s.flash| && ValidFlash(cfg, s.flash) && ReliableReads(cfg.faults, bad)
    requires |Good(|s.flash|, bad)| >= 2 && forall k :: 0 <= k < |s.flash| && k !in bad ==> Blank(s.flash[k].page)
    ensures Unused(cfg, bad, Init(cfg, s).store)
  {
    hide Decode, Mirrors, Good, View, Booted, Init;
    var t := Init(cfg, s).store;
    InitMirrors(cfg, s);
    GoodIsReadable(cfg, s.flash, bad);
    forall k | 0 <= k < |t.flash| && k !in bad ensures Blank(t.flash[k].page) {
      assert SameContents(s.flash[k], t.flash[k]);
    }
  }

  lemma LastTurn(cfg: Config, bad: set<nat>, start: seq<EraseBlock>, s: Store, log: seq<Choice>, d: Standing)
    requires Represents(cfg, bad, start, s, log, d) && log != []
    ensures var m := |Good(|s.flash|, bad)|; Before(d.pos, m) == (|log| - 1) % m
  {
    hide Decode, Mirrors, SlotOk, Good;
    var m := |Good(|s.flash|, bad)|;
    SlotTurn(d, m, |log| - 1, Before(d.pos, m));
  }
}
