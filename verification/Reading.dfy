/** What rereading the flash leaves in RAM, under every pattern of faults. */
module Reading {
  import opened Wrappers
  import opened Layout
  import opened Flash
  import opened BootStore

  predicate ReportedBad(cfg: Config, k: nat, b: EraseBlock) {
    cfg.faults(IsBad, k, b.calls).code > 0
  }

  predicate Readable(cfg: Config, k: nat, b: EraseBlock) {
    && cfg.faults(IsBad, k, b.calls).code == 0
    && (cfg.faults(Read, k, b.calls + 1).code == 0 || cfg.faults(Read, k, b.calls + 1).code == -EUCLEAN)
  }

  /** What reading block k makes of the record r that RAM held for it before. */
  function RecordAfterRead(cfg: Config, k: nat, b: EraseBlock, r: Btblock): Btblock
    requires RECORD_BITS <= |b.page|
  {
    if ReportedBad(cfg, k, b) then r.(magic := BAD) else if Readable(cfg, k, b) then Decode(b.page) else r
  }

  predicate SameContents(a: EraseBlock, b: EraseBlock) {
    a.page == b.page && a.erases == b.erases
  }

  lemma ReadOneEffect(cfg: Config, k: nat, b: EraseBlock, r: Btblock)
    requires RECORD_BITS <= |b.page|
    ensures var a := ReadOne(cfg, k, b, r);
            && a.record == RecordAfterRead(cfg, k, b, r)
            && (a.code == 0 <==> Readable(cfg, k, b))
            && SameContents(a.block, b)
            && forall i :: 0 <= i < |a.steps| ==> SameContents(a.steps[i], b)
  {
  }

  ghost predicate SameFlash(f: seq<EraseBlock>, g: seq<EraseBlock>) {
    |f| == |g| && forall k :: 0 <= k < |f| ==> SameContents(f[k], g[k])
  }

  /** The trace only grew, and only by states with the contents of `flash`. */
  ghost predicate OnlyRead(flash: seq<EraseBlock>, before: seq<seq<EraseBlock>>, after: seq<seq<EraseBlock>>) {
    before <= after && forall i :: |before| <= i < |after| ==> SameFlash(flash, after[i])
  }

  lemma {:induction false} ReadFromAt(cfg: Config, s: Store, k: nat, j: nat)
    requires Valid(cfg, s) && k <= |s.flash| && j < |s.flash|
    ensures var r := ReadFrom(cfg, s, k).store;
            && SameContents(s.flash[j], r.flash[j])
            && r.ram[j] == if j < k then s.ram[j] else RecordAfterRead(cfg, j, s.flash[j], s.ram[j])
    decreases |s.flash| - k
  {
    if k < |s.flash| {
      ReadOneEffect(cfg, k, s.flash[k], s.ram[k]);
      ReadFromAt(cfg, Install(s, k, ReadOne(cfg, k, s.flash[k], s.ram[k])), k + 1, j);
    }
  }

  lemma {:induction false} ReadFromCode(cfg: Config, s: Store, k: nat)
    requires Valid(cfg, s) && k <= |s.flash|
    ensures (ReadFrom(cfg, s, k).code == |s.flash| - k)
              <==> forall j :: k <= j < |s.flash| ==> !Readable(cfg, j, s.flash[j])
    decreases |s.flash| - k
  {
    if k < |s.flash| {
      ReadOneEffect(cfg, k, s.flash[k], s.ram[k]);
      var t := Install(s, k, ReadOne(cfg, k, s.flash[k], s.ram[k]));
      ReadFromCode(cfg, t, k + 1);
      assert forall j :: k < j < |s.flash| ==> t.flash[j] == s.flash[j];
    }
  }

  lemma InstallOnlyReads(s: Store, k: nat, a: Attempt)
    requires k < |s.flash| == |s.ram|
    requires SameContents(a.block, s.flash[k])
    requires forall i :: 0 <= i < |a.steps| ==> SameContents(a.steps[i], s.flash[k])
    ensures SameFlash(s.flash, Install(s, k, a).flash) && OnlyRead(s.flash, s.trace, Install(s, k, a).trace)
  {
  }

  lemma OnlyReadTwice(f: seq<EraseBlock>, g: seq<EraseBlock>, t0: seq<seq<EraseBlock>>,
                      t1: seq<seq<EraseBlock>>, t2: seq<seq<EraseBlock>>)
    requires SameFlash(f, g) && OnlyRead(f, t0, t1) && OnlyRead(g, t1, t2)
    ensures OnlyRead(f, t0, t2)
  {
    forall i | |t0| <= i < |t2| ensures SameFlash(f, t2[i]) {
      if i < |t1| {
        assert t2[i] == t1[i];
      } else {
        assert SameFlash(g, t2[i]);
      }
    }
  }

  lemma {:induction false} ReadFromTrace(cfg: Config, s: Store, k: nat)
    requires Valid(cfg, s) && k <= |s.flash|
    ensures var r := ReadFrom(cfg, s, k).store;
            SameFlash(s.flash, r.flash) && OnlyRead(s.flash, s.trace, r.trace)
    decreases |s.flash| - k
  {
    if k < |s.flash| {
      var b := ReadOne(cfg, k, s.flash[k], s.ram[k]);
      ReadOneEffect(cfg, k, s.flash[k], s.ram[k]);
      InstallOnlyReads(s, k, b);
      var t := Install(s, k, b);
      ReadFromTrace(cfg, t, k + 1);
      OnlyReadTwice(s.flash, t.flash, s.trace, t.trace, ReadFrom(cfg, t, k + 1).store.trace);
    }
  }

  lemma ReadAllEffect(cfg: Config, s: Store)
    requires Valid(cfg, s)
    ensures var r := ReadAll(cfg, s);
            && (r.code == -1 <==> forall k :: 0 <= k < |s.flash| ==> !Readable(cfg, k, s.flash[k]))
            && (r.code == 0 || r.code == -1)
            && (forall k :: 0 <= k < |s.flash| ==> r.store.ram[k] == RecordAfterRead(cfg, k, s.flash[k], s.ram[k]))
            && SameFlash(s.flash, r.store.flash)
            && OnlyRead(s.flash, s.trace, r.store.trace)
  {
    forall k | 0 <= k < |s.flash|
      ensures ReadAll(cfg, s).store.ram[k] == RecordAfterRead(cfg, k, s.flash[k], s.ram[k])
    {
      ReadFromAt(cfg, s, 0, k);
    }
    ReadFromCode(cfg, s, 0);
    ReadFromTrace(cfg, s, 0);
  }

  /** After bc_ll_reread every block is as RecordAfterRead says, starting from RAM with its
      first bytes cleared. The result is -1 exactly when no block was readable, and the
      flash keeps its pages throughout. */
  lemma RereadEffect(cfg: Config, s: Store)
    requires Valid(cfg, s)
    ensures var r := Reread(cfg, s);
            && (r.code == -1 <==> forall k :: 0 <= k < |s.flash| ==> !Readable(cfg, k, s.flash[k]))
            && (r.code == 0 || r.code == -1)
            && (forall k :: 0 <= k < |s.flash| ==>
                  r.store.ram[k] == RecordAfterRead(cfg, k, s.flash[k], ClearPrefix(cfg, s.ram)[k]))
            && SameFlash(s.flash, r.store.flash)
            && OnlyRead(s.flash, s.trace, r.store.trace)
  {
    ReadAllEffect(cfg, s.(ram := ClearPrefix(cfg, s.ram)));
  }

  /** The first so many bytes of a record are 0, and the fields beyond are as before. */
  predicate IsCleared(r: Btblock, was: Btblock, bytes: int) {
    && r.magic == (if bytes > 0 then [0, 0, 0, 0] else was.magic)
    && r.epoch == (if bytes > 4 then 0 else was.epoch)
    && r.timestamp == (if bytes > 8 then 0 else was.timestamp)
    && r.kernel == (if bytes > 12 then Btinfo(0, 0, 0, 0) else was.kernel)
    && r.rootfs == (if bytes > 12 then Btinfo(0, 0, 0, 0) else was.rootfs)
  }

  /** The memset clears eb_cnt times the size of a pointer, whatever that leaves of record k. */
  lemma ClearedFields(cfg: Config, ram: seq<Btblock>, k: nat)
    requires k < |ram| && (cfg.pointerBytes == 4 || cfg.pointerBytes == 8)
    ensures IsCleared(ClearPrefix(cfg, ram)[k], ram[k], |ram| * cfg.pointerBytes - 16 * k)
  {
    hide *;
    var left := |ram| * cfg.pointerBytes - 16 * k;
    FourDivides(|ram|, cfg.pointerBytes, k);
    ClearedAt(cfg, ram, k, left);
    ClearedUpTo(ram[k], left, ClearedBytes(cfg, k, |ram|));
  }

  lemma ClearedAt(cfg: Config, ram: seq<Btblock>, k: nat, left: int)
    requires k < |ram| && left == |ram| * cfg.pointerBytes - 16 * k
    ensures ClearPrefix(cfg, ram)[k] == ClearBytes(ram[k], ClearedBytes(cfg, k, |ram|))
    ensures ClearedBytes(cfg, k, |ram|) == if left < 0 then 0 else if left > 16 then 16 else left
  {
    hide ClearBytes;
  }

  lemma FourDivides(n: nat, size: nat, k: nat)
    requires size == 4 || size == 8
    ensures (n * size - 16 * k) % 4 == 0
  {
    if size == 4 {
      assert n * size - 16 * k == 4 * (n - 4 * k);
    } else {
      assert n * size - 16 * k == 4 * (2 * n - 4 * k);
    }
  }

  lemma ClearedUpTo(r: Btblock, left: int, bytes: nat)
    requires left % 4 == 0 && bytes == if left < 0 then 0 else if left > 16 then 16 else left
    ensures IsCleared(ClearBytes(r, bytes), r, left)
  {
    hide ClearBytes;
    ClearNone(r);
    ClearSome(r);
    ClearAll(r);
  }

  /** After bc_ll_reread, a bad block says "BAD!" and one that can be read, perhaps with corrected bit
      errors, is the device's record; any other has the fields cleared that the memset reaches,
      of eb_cnt times the size of a pointer from the start of the array, and keeps the others. */
  lemma RereadAgreement(cfg: Config, s: Store, k: nat)
    requires Valid(cfg, s) && k < |s.flash|
    ensures var b, r := s.flash[k], Reread(cfg, s).store.ram[k];
            var check, read := cfg.faults(IsBad, k, b.calls).code, cfg.faults(Read, k, b.calls + 1).code;
            if check > 0 then r.magic == ['B' as int, 'A' as int, 'D' as int, '!' as int]
            else if check == 0 && (read == 0 || read == -117) then r == Decode(b.page)
            else IsCleared(r, s.ram[k], |s.flash| * cfg.pointerBytes - 16 * k)
  {
    hide Reread, ClearBytes, IsCleared;
    RereadEffect(cfg, s);
    ClearedFields(cfg, s.ram, k);
  }

  /** The same for a fresh process, where RAM starts out zero. */
  lemma InitEffect(cfg: Config, s: Store)
    requires ValidConfig(cfg) && 0 < |s.flash| && ValidFlash(cfg, s.flash)
    ensures var r := Init(cfg, s);
            && (r.code == -1 <==> forall k :: 0 <= k < |s.flash| ==> !Readable(cfg, k, s.flash[k]))
            && (forall k :: 0 <= k < |s.flash| ==>
                 r.store.ram[k] == RecordAfterRead(cfg, k, s.flash[k], ZERO_BLOCK))
            && SameFlash(s.flash, r.store.flash)
            && OnlyRead(s.flash, s.trace, r.store.trace)
  {
    ReadAllEffect(cfg, s.(ram := seq(|s.flash|, _ => ZERO_BLOCK)));
  }
}
