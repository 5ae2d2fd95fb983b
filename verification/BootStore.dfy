/** What the functions of lowlevel.c compute, on values: the flash, bootconfig's copy of
    it in RAM, and a trace of the flash after every device call. */
module BootStore {
  import opened Wrappers
  import opened Layout
  import opened Flash

  /** `trace` gains the whole flash after every device call, so that a power cut between
      two calls leaves exactly one of its elements behind. */
  datatype Store = Store(flash: seq<EraseBlock>, ram: seq<Btblock>, trace: seq<seq<EraseBlock>>)

  datatype Config = Config(faults: Faults, ioBytes: nat, pointerBytes: nat)

  datatype Step = Step(store: Store, code: int)

  /** What one block goes through: its new state on flash and in RAM, a return code, and its
      states on flash after every device call. */
  datatype Attempt = Attempt(block: EraseBlock, record: Btblock, code: int, steps: seq<EraseBlock>)

  datatype Image = Kernel | Rootfs

  /** A request to boot an image from a partition. `now(k)` is what time() says when
      block k is attempted. */
  datatype Request = Request(image: Image, partition: Bit, now: nat -> Word)

  predicate ValidConfig(cfg: Config) {
    RECORD_BYTES <= cfg.ioBytes && (cfg.pointerBytes == 4 || cfg.pointerBytes == 8)
  }

  predicate ValidFlash(cfg: Config, flash: seq<EraseBlock>) {
    forall k :: 0 <= k < |flash| ==> |flash[k].page| == 8 * cfg.ioBytes
  }

  predicate Valid(cfg: Config, s: Store) {
    ValidConfig(cfg) && 0 < |s.flash| == |s.ram| && ValidFlash(cfg, s.flash)
  }

  // ---- Finding the current record ----

  /** Record i is the one to boot: the first among the boot records of greatest epoch. */
  ghost predicate IsCurrent(rs: seq<Btblock>, i: nat) {
    && i < |rs| && Boots(rs[i]) && rs[i].epoch > 0
    && (forall j :: 0 <= j < |rs| && Boots(rs[j]) ==> rs[j].epoch <= rs[i].epoch)
    && (forall j :: 0 <= j < i && Boots(rs[j]) ==> rs[j].epoch < rs[i].epoch)
  }

  /** The index that bc_ll_get_current finds, if any. */
  ghost function Current(rs: seq<Btblock>): (c: Option<nat>)
    ensures c.Some? ==> IsCurrent(rs, c.value)
    ensures c.None? ==> forall i :: !IsCurrent(rs, i)
  {
    if i :| IsCurrent(rs, i) then Some(i) else None
  }

  lemma CurrentIs(rs: seq<Btblock>, i: nat)
    requires IsCurrent(rs, i)
    ensures Current(rs) == Some(i)
  {
    assert i == Current(rs).value;
  }

  /** There is a current record as soon as any boot record has an epoch other than 0. */
  lemma {:induction false} CurrentExists(rs: seq<Btblock>, j: nat)
    requires j < |rs| && Boots(rs[j]) && rs[j].epoch > 0
    ensures Current(rs).Some?
    decreases MAX_EPOCH - rs[j].epoch, j
  {
    if k :| 0 <= k < |rs| && Boots(rs[k]) && rs[k].epoch > rs[j].epoch {
      CurrentExists(rs, k);
    } else if k :| 0 <= k < j && Boots(rs[k]) && rs[k].epoch == rs[j].epoch {
      CurrentExists(rs, k);
    } else {
      assert IsCurrent(rs, j);
    }
  }

  // ---- One block at a time ----

  ghost predicate ValidAttempt(n: nat, a: Attempt) {
    |a.block.page| == n && forall i :: 0 <= i < |a.steps| ==> |a.steps[i].page| == n
  }

  function Then(a: Attempt, b: Attempt): Attempt {
    b.(steps := a.steps + b.steps)
  }

  function CheckOne(cfg: Config, k: nat, b: EraseBlock, r: Btblock): (a: Attempt)
    ensures ValidAttempt(|b.page|, a)
  {
    var code := cfg.faults(IsBad, k, b.calls).code;
    if code < 0 then Attempt(b.Ticked(), r, -1, [b.Ticked()])
    else if code > 0 then Attempt(b.Ticked(), r.(magic := BAD), 1, [b.Ticked()])
    else Attempt(b.Ticked(), r, 0, [b.Ticked()])
  }

  function ReadOne(cfg: Config, k: nat, b: EraseBlock, r: Btblock): (a: Attempt)
    requires RECORD_BITS <= |b.page|
    ensures ValidAttempt(|b.page|, a)
  {
    var c := CheckOne(cfg, k, b, r);
    if c.code != 0 then c
    else
      var code := cfg.faults(Read, k, c.block.calls).code;
      var next := c.block.Ticked();
      Then(c, if code == 0 || code == -EUCLEAN then Attempt(next, Decode(next.page), 0, [next])
              else Attempt(next, r, -1, [next]))
  }

  /** mtd_write of the padded record; the code is mtd_write's own. */
  function ProgramOne(cfg: Config, k: nat, b: EraseBlock, r: Btblock): (a: Attempt)
    requires ValidConfig(cfg) && |b.page| == 8 * cfg.ioBytes
    ensures ValidAttempt(|b.page|, a)
  {
    var program := cfg.faults(Program, k, b.calls);
    var next := b.AfterProgram(PageImage(r, cfg.ioBytes), program);
    Attempt(next, r, program.code, [next])
  }

  function WriteOne(cfg: Config, k: nat, b: EraseBlock, r: Btblock): (a: Attempt)
    requires ValidConfig(cfg) && |b.page| == 8 * cfg.ioBytes
    ensures ValidAttempt(|b.page|, a)
  {
    var erase := cfg.faults(Erase, k, b.calls);
    var blank := b.AfterErase(erase);
    if erase.code < 0 then Attempt(blank, r, 1, [blank])
    else if cfg.faults(Alloc, k, blank.calls).code < 0 then Attempt(blank, r, -1, [blank])
    else
      var w := ProgramOne(cfg, k, blank, r);
      Then(Attempt(blank, r, 0, [blank]), w.(code := if w.code < 0 then 1 else 0))
  }

  function WriteCheckedOne(cfg: Config, k: nat, b: EraseBlock, r: Btblock): (a: Attempt)
    requires ValidConfig(cfg) && |b.page| == 8 * cfg.ioBytes
    ensures ValidAttempt(|b.page|, a)
  {
    var c := CheckOne(cfg, k, b, r);
    if c.code != 0 then c
    else
      var w := WriteOne(cfg, k, c.block, r);
      if w.code == 1
      then Then(c, Then(w, CheckOne(cfg, k, w.block, r).(code := 1)))
      else Then(c, w)
  }

  function Choose(i: Btinfo, partition: Bit): Btinfo {
    i.(partition := partition, nBooted := 1, nHealthy := 1)
  }

  function NewRecord(from: Btblock, req: Request, k: nat): Btblock {
    Btblock(BOOT, (from.epoch + 1) % 0x1_0000_0000, req.now(k),
            if req.image == Kernel then Choose(from.kernel, req.partition) else from.kernel,
            if req.image == Rootfs then Choose(from.rootfs, req.partition) else from.rootfs)
  }

  function UpdateOne(cfg: Config, k: nat, b: EraseBlock, r: Btblock, next: Btblock): (a: Attempt)
    requires ValidConfig(cfg) && |b.page| == 8 * cfg.ioBytes
    ensures ValidAttempt(|b.page|, a)
  {
    if r.magic == BAD then Attempt(b, r, -1, []) else WriteCheckedOne(cfg, k, b, next)
  }

  // ---- One block of the store ----

  /** The store after block k has gone through an attempt. */
  function Install(s: Store, k: nat, a: Attempt): (t: Store)
    requires k < |s.flash| == |s.ram|
    ensures |t.flash| == |s.flash| && |t.ram| == |s.ram|
  {
    Store(s.flash[k := a.block], s.ram[k := a.record],
          s.trace + seq(|a.steps|, i requires 0 <= i < |a.steps| => s.flash[k := a.steps[i]]))
  }

  function UpdateBlock(cfg: Config, s: Store, req: Request, prev: nat, k: nat): (r: Step)
    requires Valid(cfg, s) && k < |s.flash| && prev < |s.flash|
    ensures Valid(cfg, r.store) && |r.store.flash| == |s.flash|
  {
    var a := UpdateOne(cfg, k, s.flash[k], s.ram[k], NewRecord(s.ram[prev], req, k));
    Step(Install(s, k, a), a.code)
  }

  // ---- The ring search ----

  /** Steps from a to b around a ring of n blocks. */
  function Distance(a: nat, b: nat, n: nat): (d: nat)
    requires a < n && b < n
    ensures d < n
  {
    if a <= b then b - a else b - a + n
  }

  /** The block after k: (k + 1) % n. */
  function Next(k: nat, n: nat): (next: nat)
    requires k < n
    ensures next < n
  {
    if k + 1 == n then 0 else k + 1
  }

  lemma NextIsModulo(k: nat, n: nat)
    requires k < n
    ensures Next(k, n) == (k + 1) % n
  {
    if k + 1 < n {
      assert (k + 1) / n == 0;
    }
  }

  /** The for loop of bc_ll_set_partition; the code is the index at which it ends. */
  function Search(cfg: Config, s: Store, req: Request, cur: nat, k: nat): (r: Step)
    requires Valid(cfg, s) && k < |s.flash| && cur < |s.flash|
    ensures Valid(cfg, r.store) && |r.store.flash| == |s.flash| && 0 <= r.code < |s.flash|
    decreases Distance(k, cur, |s.flash|)
  {
    if k == cur then Step(s, k)
    else
      var u := UpdateBlock(cfg, s, req, cur, k);
      if u.code == 0 then Step(u.store, k) else Search(cfg, u.store, req, cur, Next(k, |s.flash|))
  }

  /** The "current" block of an empty store: zero, with all flags set. */
  const NOTHING_BOOTED := ZERO_BLOCK.(kernel := Btinfo(0, 0, 1, 1), rootfs := Btinfo(0, 0, 1, 1))

  /** The index that the search starts from; an empty store starts from a dummy at the end. */
  ghost function Anchor(s: Store): (k: nat)
    requires 0 < |s.flash| == |s.ram|
    ensures k < |s.flash|
  {
    var c := Current(s.ram);
    if c.Some? then c.value else |s.flash| - 1
  }

  ghost function Anchored(s: Store): (t: Store)
    requires 0 < |s.flash| == |s.ram|
    ensures |t.ram| == |s.ram|
  {
    if Current(s.ram).Some? then s else s.(ram := s.ram[|s.ram| - 1 := NOTHING_BOOTED])
  }

  ghost function SetPartition(cfg: Config, s: Store, req: Request): (r: Step)
    requires Valid(cfg, s)
    ensures Valid(cfg, r.store) && |r.store.flash| == |s.flash|
  {
    var cur := Anchor(s);
    var u := Search(cfg, Anchored(s), req, cur, Next(cur, |s.flash|));
    if u.code == cur then Step(u.store, -1) else Step(Reread(cfg, u.store).store, 0)
  }

  // ---- Reading everything ----

  /** Reads blocks k and up; the code counts those that could not be read. */
  function ReadFrom(cfg: Config, s: Store, k: nat): (r: Step)
    requires Valid(cfg, s) && k <= |s.flash|
    ensures Valid(cfg, r.store) && |r.store.flash| == |s.flash| && 0 <= r.code <= |s.flash| - k
    decreases |s.flash| - k
  {
    if k == |s.flash| then Step(s, 0)
    else
      var b := ReadOne(cfg, k, s.flash[k], s.ram[k]);
      var rest := ReadFrom(cfg, Install(s, k, b), k + 1);
      Step(rest.store, rest.code + if b.code != 0 then 1 else 0)
  }

  function ReadAll(cfg: Config, s: Store): (r: Step)
    requires Valid(cfg, s)
    ensures Valid(cfg, r.store) && |r.store.flash| == |s.flash|
  {
    var r := ReadFrom(cfg, s, 0);
    Step(r.store, if r.code == |s.flash| then -1 else 0)
  }

  /** How many bytes of record k the memset in bc_ll_reread reaches: it clears one
      pointer's size per block, not one record's size. */
  function ClearedBytes(cfg: Config, k: nat, n: nat): (b: nat)
    ensures b <= RECORD_BYTES
  {
    var left := n * cfg.pointerBytes - RECORD_BYTES * k;
    if left < 0 then 0 else if left > RECORD_BYTES then RECORD_BYTES else left
  }

  function ClearPrefix(cfg: Config, ram: seq<Btblock>): (r: seq<Btblock>)
    ensures |r| == |ram|
  {
    seq(|ram|, k requires 0 <= k < |ram| => ClearBytes(ram[k], ClearedBytes(cfg, k, |ram|)))
  }

  function Reread(cfg: Config, s: Store): (r: Step)
    requires Valid(cfg, s)
    ensures Valid(cfg, r.store) && |r.store.flash| == |s.flash|
  {
    ReadAll(cfg, s.(ram := ClearPrefix(cfg, s.ram)))
  }

  /** A fresh process: RAM zeroed, then everything read. */
  function Init(cfg: Config, s: Store): (r: Step)
    requires ValidConfig(cfg) && 0 < |s.flash| && ValidFlash(cfg, s.flash)
    ensures Valid(cfg, r.store) && |r.store.flash| == |s.flash|
  {
    ReadAll(cfg, s.(ram := seq(|s.flash|, _ => ZERO_BLOCK)))
  }

  // ---- Clearing one health flag in place ----

  function HealthFlag(r: Btblock, image: Image): Bit {
    if image == Kernel then r.kernel.nHealthy else r.rootfs.nHealthy
  }

  function WithHealthy(r: Btblock, image: Image): Btblock {
    if image == Kernel then r.(kernel := r.kernel.(nHealthy := 0)) else r.(rootfs := r.rootfs.(nHealthy := 0))
  }

  function SetHealthy(cfg: Config, s: Store, image: Image, k: nat): (r: Step)
    requires Valid(cfg, s) && k < |s.flash|
    ensures Valid(cfg, r.store) && |r.store.flash| == |s.flash|
  {
    if HealthFlag(s.ram[k], image) != 1 then Step(s, 0)
    else
      var r := WithHealthy(s.ram[k], image);
      if cfg.faults(Alloc, k, s.flash[k].calls).code < 0 then Step(s.(ram := s.ram[k := r]), -1)
      else
        var w := ProgramOne(cfg, k, s.flash[k], r);
        Step(Install(s, k, w), if w.code < 0 then 1 else 0)
  }

  // ---- Commands and runs ----

  /** One thing a user can ask bootconfig to do; each process begins with a restart. */
  datatype Command = Set(req: Request) | SetFlag(image: Image) | Restart

  ghost function Execute(cfg: Config, s: Store, c: Command): (r: Store)
    requires Valid(cfg, s)
    ensures Valid(cfg, r) && |r.flash| == |s.flash|
  {
    match c
    case Set(req) => SetPartition(cfg, s, req).store
    case SetFlag(image) => if Current(s.ram).None? then s else SetHealthy(cfg, s, image, Current(s.ram).value).store
    case Restart => Init(cfg, s).store
  }

  ghost function Run(cfg: Config, s: Store, cs: seq<Command>): (r: Store)
    requires Valid(cfg, s)
    ensures Valid(cfg, r) && |r.flash| == |s.flash|
    decreases |cs|
  {
    if cs == [] then s else Run(cfg, Execute(cfg, s, cs[0]), cs[1..])
  }
}
