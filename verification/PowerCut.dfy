/** Power may fail between any two device calls of bc_ll_set_partition: what a scan of the
    flash then finds is the old choice of kernel and rootfs or the requested one. */
module PowerCut {
  import opened Wrappers
  import opened Layout
  import opened Flash
  import opened BootStore
  import opened Reading
  import opened RingSearch
  import opened TornCalls

  /** A block ranks as it did, or has nothing to boot, or the new choice. */
  predicate Settled(before: Bits, page: Bits, next: Btblock)
    requires RECORD_BITS <= |before|
  {
    && |page| == |before|
    && var d := Decode(page); SameRank(d, Decode(before)) || !Boots(d) || ChoiceOf(d) == ChoiceOf(next)
  }

  lemma WriteOneSettles(cfg: Config, k: nat, b: EraseBlock, r: Btblock)
    requires ValidConfig(cfg) && |b.page| == 8 * cfg.ioBytes && TameFaults(cfg.faults) && Boots(r)
    ensures var a := WriteOne(cfg, k, b, r);
            && Settled(b.page, a.block.page, r)
            && forall i :: 0 <= i < |a.steps| ==> Settled(b.page, a.steps[i].page, r)
  {
    hide Decode, PageImage, TameErase, TameProgram;
    var erase := cfg.faults(Erase, k, b.calls);
    TameEraseSettles(b, erase);
    var blank := b.AfterErase(erase);
    if erase.code >= 0 {
      TameProgramSettles(blank, r, cfg.ioBytes, cfg.faults(Program, k, blank.calls));
    }
  }

  /** Every state that one attempt takes a page through is settled. */
  lemma UpdateOneSettles(cfg: Config, k: nat, b: EraseBlock, r: Btblock, next: Btblock)
    requires ValidConfig(cfg) && |b.page| == 8 * cfg.ioBytes && TameFaults(cfg.faults) && Boots(next)
    ensures var a := UpdateOne(cfg, k, b, r, next);
            && Settled(b.page, a.block.page, next)
            && forall i :: 0 <= i < |a.steps| ==> Settled(b.page, a.steps[i].page, next)
  {
    hide Decode, PageImage, TameFaults;
    if r.magic != BAD {
      var c := CheckOne(cfg, k, b, next);
      WriteOneSettles(cfg, k, c.block, next);
    }
  }

  /** A state of the flash during a search from k to `cur`, which began at `base` and copies from
      `from`: the blocks on its way are settled, the others untouched. */
  ghost predicate OnTheWay(base: seq<EraseBlock>, f: seq<EraseBlock>, from: Btblock, req: Request, k: nat, cur: nat)
    requires forall j :: 0 <= j < |base| ==> RECORD_BITS <= |base[j].page|
  {
    && k < |base| == |f| && cur < |base|
    && forall j :: 0 <= j < |f| ==>
         BlockOnTheWay(base[j].page, f[j].page, NewRecord(from, req, j), Ahead(k, j, cur, |f|))
  }

  predicate BlockOnTheWay(before: Bits, page: Bits, next: Btblock, ahead: bool)
    requires RECORD_BITS <= |before|
  {
    if ahead then Settled(before, page, next) else page == before
  }

  /** The trace grew from `before`, and only by states on the way. */
  ghost predicate TraceOnTheWay(base: seq<EraseBlock>, before: nat, trace: seq<seq<EraseBlock>>, from: Btblock,
                                req: Request, k: nat, cur: nat)
    requires forall j :: 0 <= j < |base| ==> RECORD_BITS <= |base[j].page|
  {
    forall i :: before <= i < |trace| ==> OnTheWay(base, trace[i], from, req, k, cur)
  }

  /** The first step of a search. */
  lemma FirstOnTheWay(base: seq<EraseBlock>, from: Btblock, req: Request, k: nat, cur: nat, b: EraseBlock)
    requires k < |base| && cur < |base| && k != cur
    requires forall j :: 0 <= j < |base| ==> RECORD_BITS <= |base[j].page|
    requires Settled(base[k].page, b.page, NewRecord(from, req, k))
    ensures OnTheWay(base, base[k := b], from, req, k, cur)
  {
    hide Settled;
    forall j | 0 <= j < |base| && j != k
      ensures BlockOnTheWay(base[j].page, base[k := b][j].page, NewRecord(from, req, j), Ahead(k, j, cur, |base|))
    {
      UntouchedIsOnTheWay(base[j].page, NewRecord(from, req, j), Ahead(k, j, cur, |base|));
    }
  }

  lemma UntouchedIsOnTheWay(page: Bits, next: Btblock, ahead: bool)
    requires RECORD_BITS <= |page|
    ensures BlockOnTheWay(page, page, next, ahead)
  {
  }

  /** What is on the way of the rest of a search is on the way of the whole. */
  lemma RestOnTheWay(base: seq<EraseBlock>, f: seq<EraseBlock>, from: Btblock, req: Request, k: nat, cur: nat,
                     b: EraseBlock)
    requires k < |base| && cur < |base| && k != cur
    requires forall j :: 0 <= j < |base| ==> RECORD_BITS <= |base[j].page|
    requires Settled(base[k].page, b.page, NewRecord(from, req, k))
    requires OnTheWay(base[k := b], f, from, req, Next(k, |base|), cur)
    ensures OnTheWay(base, f, from, req, k, cur)
  {
    hide Settled;
    var n := |base|;
    forall j | 0 <= j < n
      ensures BlockOnTheWay(base[j].page, f[j].page, NewRecord(from, req, j), Ahead(k, j, cur, n))
    {
      RingStep(k, j, cur, cur, n);
    }
  }

  lemma NothingOnTheWay(base: seq<EraseBlock>, from: Btblock, req: Request, k: nat)
    requires k < |base| && forall j :: 0 <= j < |base| ==> RECORD_BITS <= |base[j].page|
    ensures OnTheWay(base, base, from, req, k, k)
  {
    hide Settled;
    forall j | 0 <= j < |base|
      ensures BlockOnTheWay(base[j].page, base[j].page, NewRecord(from, req, j), Ahead(k, j, k, |base|))
    {
      UntouchedIsOnTheWay(base[j].page, NewRecord(from, req, j), Ahead(k, j, k, |base|));
    }
  }

  lemma AttemptOnTheWay(cfg: Config, s: Store, req: Request, cur: nat, k: nat)
    requires Valid(cfg, s) && TameFaults(cfg.faults) && k < |s.flash| && cur < |s.flash| && k != cur
    ensures var from, u := s.ram[cur], UpdateBlock(cfg, s, req, cur, k).store;
            && Settled(s.flash[k].page, u.flash[k].page, NewRecord(from, req, k)) && u.flash == s.flash[k := u.flash[k]]
            && u.ram[cur] == from && s.trace <= u.trace
            && OnTheWay(s.flash, u.flash, from, req, k, cur)
            && TraceOnTheWay(s.flash, |s.trace|, u.trace, from, req, k, cur)
  {
    hide OnTheWay, UpdateOne, Settled, TameFaults;
    var from, u := s.ram[cur], UpdateBlock(cfg, s, req, cur, k).store;
    var a := UpdateOne(cfg, k, s.flash[k], s.ram[k], NewRecord(from, req, k));
    UpdateOneSettles(cfg, k, s.flash[k], s.ram[k], NewRecord(from, req, k));
    FirstOnTheWay(s.flash, from, req, k, cur, a.block);
    forall i | |s.trace| <= i < |u.trace| ensures OnTheWay(s.flash, u.trace[i], from, req, k, cur) {
      FirstOnTheWay(s.flash, from, req, k, cur, a.steps[i - |s.trace|]);
    }
  }

  lemma {:induction false} SearchOnTheWay(cfg: Config, s: Store, req: Request, cur: nat, k: nat)
    requires Valid(cfg, s) && TameFaults(cfg.faults) && k < |s.flash| && cur < |s.flash|
    ensures var r := Search(cfg, s, req, cur, k).store;
            && OnTheWay(s.flash, r.flash, s.ram[cur], req, k, cur)
            && TraceOnTheWay(s.flash, |s.trace|, r.trace, s.ram[cur], req, k, cur)
    decreases Distance(k, cur, |s.flash|)
  {
    hide OnTheWay, UpdateBlock, Settled, TameFaults;
    var from, r := s.ram[cur], Search(cfg, s, req, cur, k).store;
    if k == cur {
      NothingOnTheWay(s.flash, from, req, k);
    } else {
      AttemptOnTheWay(cfg, s, req, cur, k);
      var u := UpdateBlock(cfg, s, req, cur, k);
      if u.code != 0 {
        var b := u.store.flash[k];
        SearchOnTheWay(cfg, u.store, req, cur, Next(k, |s.flash|));
        SearchStops(cfg, u.store, req, cur, Next(k, |s.flash|));
        RestOnTheWay(s.flash, r.flash, from, req, k, cur, b);
        forall i | |s.trace| <= i < |r.trace| ensures OnTheWay(s.flash, r.trace[i], from, req, k, cur) {
          if i < |u.store.trace| {
            assert r.trace[i] == u.store.trace[i];
          } else {
            RestOnTheWay(s.flash, r.trace[i], from, req, k, cur, b);
          }
        }
      }
    }
  }

  /** A state of the flash during a request: the current block is untouched, the others settled. */
  ghost predicate Underway(cfg: Config, s: Store, req: Request, f: seq<EraseBlock>)
    requires Valid(cfg, s)
  {
    && |f| == |s.flash| && ValidFlash(cfg, f)
    && forall k :: 0 <= k < |f| ==>
         if k == Anchor(s) then f[k].page == s.flash[k].page
         else Settled(s.flash[k].page, f[k].page, Requested(s, req, k))
  }

  lemma AllOnTheWay(cfg: Config, s: Store, req: Request, f: seq<EraseBlock>)
    requires Valid(cfg, s)
    requires OnTheWay(s.flash, f, Anchored(s).ram[Anchor(s)], req, Next(Anchor(s), |s.flash|), Anchor(s))
    ensures Underway(cfg, s, req, f)
  {
    hide Decode;
    var n, cur := |s.flash|, Anchor(s);
    forall k | 0 <= k < n
      ensures |f[k].page| == 8 * cfg.ioBytes
      ensures if k == cur then f[k].page == s.flash[k].page
              else Settled(s.flash[k].page, f[k].page, Requested(s, req, k))
    {
      assert Ahead(Next(cur, n), k, cur, n) <==> k != cur;
      assert BlockOnTheWay(s.flash[k].page, f[k].page, Requested(s, req, k), k != cur);
    }
  }

  lemma SameIsUnderway(cfg: Config, s: Store, req: Request, f: seq<EraseBlock>, g: seq<EraseBlock>)
    requires Valid(cfg, s) && Underway(cfg, s, req, f) && SameFlash(f, g)
    ensures Underway(cfg, s, req, g)
  {
    hide Settled;
    forall k | 0 <= k < |g| ensures g[k].page == f[k].page {
      assert SameContents(f[k], g[k]);
    }
  }

  /** The flash after the search of bc_ll_set_partition, at its end, and at every moment. */
  lemma SetPartitionUnderway(cfg: Config, s: Store, req: Request)
    requires Valid(cfg, s) && TameFaults(cfg.faults)
    ensures Underway(cfg, s, req, SearchFor(cfg, s, req).store.flash)
    ensures Underway(cfg, s, req, SetPartition(cfg, s, req).store.flash)
    ensures forall i :: |s.trace| <= i < |SetPartition(cfg, s, req).store.trace| ==>
              Underway(cfg, s, req, SetPartition(cfg, s, req).store.trace[i])
  {
    hide OnTheWay, Underway;
    var cur, t := Anchor(s), Anchored(s);
    SearchOnTheWay(cfg, t, req, cur, Next(cur, |s.flash|));
    SetPartitionAfterSearch(cfg, s, req);
    var u, r := SearchFor(cfg, s, req).store, SetPartition(cfg, s, req).store;
    AllOnTheWay(cfg, s, req, u.flash);
    SameIsUnderway(cfg, s, req, u.flash, r.flash);
    forall i | |s.trace| <= i < |r.trace| ensures Underway(cfg, s, req, r.trace[i]) {
      if i < |u.trace| {
        assert r.trace[i] == u.trace[i];
        AllOnTheWay(cfg, s, req, r.trace[i]);
      } else {
        SameIsUnderway(cfg, s, req, u.flash, r.trace[i]);
      }
    }
  }

  /** The records that a scan finds which can read only some of the blocks. */
  function View(f: seq<EraseBlock>, readable: set<nat>): (v: seq<Btblock>)
    requires forall k :: 0 <= k < |f| ==> RECORD_BITS <= |f[k].page|
    ensures |v| == |f|
  {
    seq(|f|, k requires 0 <= k < |f| => if k in readable then Decode(f[k].page) else ZERO_BLOCK)
  }

  /** What a machine boots that finds these records. */
  ghost function Booted(rs: seq<Btblock>): Option<Choice> {
    var c := Current(rs);
    if c.Some? then Some(ChoiceOf(rs[c.value])) else None
  }

  /** What a request makes of the choice in force; without one, all flags are up. */
  function Apply(c: Option<Choice>, req: Request): Choice {
    var Choice(kernel, rootfs) := if c.Some? then c.value else ChoiceOf(NOTHING_BOOTED);
    if req.image == Kernel then Choice(Choose(kernel, req.partition), rootfs)
    else Choice(kernel, Choose(rootfs, req.partition))
  }

  lemma RequestedIsApplied(s: Store, req: Request, k: nat)
    requires 0 < |s.flash| == |s.ram|
    ensures ChoiceOf(Requested(s, req, k)) == Apply(Booted(s.ram), req)
  {
  }

  /** RAM agrees with every block in `seen`, and has nothing bootable for any other. */
  ghost predicate Mirrors(s: Store, seen: set<nat>)
    requires |s.flash| == |s.ram| && forall k :: 0 <= k < |s.flash| ==> RECORD_BITS <= |s.flash[k].page|
  {
    forall k :: 0 <= k < |s.flash| ==>
      if k in seen then s.ram[k] == Decode(s.flash[k].page) else !Boots(s.ram[k])
  }

  /** A scan of f that can read these blocks finds what s booted before or what was requested. */
  ghost predicate OldOrRequested(cfg: Config, s: Store, req: Request, readable: set<nat>, f: seq<EraseBlock>)
    requires ValidConfig(cfg) && ValidFlash(cfg, f)
  {
    Booted(View(f, readable)) == Booted(s.ram) || Booted(View(f, readable)) == Some(Apply(Booted(s.ram), req))
  }

  /** Record k of a scan on the way. */
  lemma ScannedRecord(cfg: Config, s: Store, req: Request, readable: set<nat>, f: seq<EraseBlock>, k: nat)
    requires Valid(cfg, s) && Underway(cfg, s, req, f) && k < |f|
    ensures var v, r := View(f, readable)[k], Decode(s.flash[k].page);
            k in readable ==> if k == Anchor(s) then v == r
                              else SameRank(v, r) || !Boots(v) || ChoiceOf(v) == Apply(Booted(s.ram), req)
  {
    hide Decode;
    RequestedIsApplied(s, req, k);
  }

  /** A scan on the way finds the old current record or a new one. */
  lemma ScanUnderway(cfg: Config, s: Store, req: Request, seen: set<nat>, readable: set<nat>, f: seq<EraseBlock>)
    requires Valid(cfg, s) && Mirrors(s, seen) && readable <= seen
    requires Current(s.ram).Some? ==> Current(s.ram).value in readable
    requires Underway(cfg, s, req, f)
    ensures OldOrRequested(cfg, s, req, readable, f)
  {
    hide Decode, Apply, Underway;
    UnderwayIsValid(cfg, s, req, f);
    var v, c := View(f, readable), Current(s.ram);
    forall k | 0 <= k < |f| && k in readable
      ensures if k == Anchor(s) then v[k] == s.ram[k]
              else SameRank(v[k], s.ram[k]) || !Boots(v[k]) || ChoiceOf(v[k]) == Apply(Booted(s.ram), req)
    {
      ScannedRecord(cfg, s, req, readable, f, k);
    }
    var d := Current(v);
    if c.Some? {
      CurrentExists(v, c.value);
    }
    if d.Some? && SameRank(v[d.value], s.ram[d.value]) {
      if c.None? {
        CurrentExists(s.ram, d.value);
      }
      assert c == d;
    }
  }

  /** Atomicity under power cuts: let RAM mirror the flash when bc_ll_set_partition starts, and let
      power fail after any number of its device calls, the last of which may be cut halfway.
      If the block that was current can still be read, then whatever other blocks can be
      read, the machine boots what it would have booted before or exactly what was
      requested. */
  lemma PowerCutAtomicity(cfg: Config, s: Store, req: Request, seen: set<nat>, readable: set<nat>, i: nat)
    requires Valid(cfg, s) && TameFaults(cfg.faults) && Mirrors(s, seen) && readable <= seen
    requires Current(s.ram).Some? ==> Current(s.ram).value in readable
    requires |s.trace| <= i < |SetPartition(cfg, s, req).store.trace|
    ensures var f := SetPartition(cfg, s, req).store.trace[i];
            |f| == |s.flash| && ValidFlash(cfg, f) && OldOrRequested(cfg, s, req, readable, f)
  {
    hide Decode, Underway;
    SetPartitionUnderway(cfg, s, req);
    UnderwayIsValid(cfg, s, req, SetPartition(cfg, s, req).store.trace[i]);
    ScanUnderway(cfg, s, req, seen, readable, SetPartition(cfg, s, req).store.trace[i]);
  }

  lemma UnderwayIsValid(cfg: Config, s: Store, req: Request, f: seq<EraseBlock>)
    requires Valid(cfg, s) && Underway(cfg, s, req, f)
    ensures |f| == |s.flash| && ValidFlash(cfg, f)
  {
  }

  // ---- Scans by a fresh process ----

  /** The blocks that a process can read which starts reading now. */
  function ReadableSet(cfg: Config, f: seq<EraseBlock>): set<nat> {
    set k | 0 <= k < |f| && Readable(cfg, k, f[k])
  }

  /** A scan of everything that RAM mirrors finds what RAM says. */
  lemma MirroredChoice(s: Store, seen: set<nat>)
    requires |s.flash| == |s.ram| && forall k :: 0 <= k < |s.flash| ==> RECORD_BITS <= |s.flash[k].page|
    requires Mirrors(s, seen)
    ensures Booted(View(s.flash, seen)) == Booted(s.ram)
    ensures Current(s.ram).Some? ==> Current(s.ram).value in seen
  {
    hide Decode;
    var v := View(s.flash, seen);
    assert forall k :: 0 <= k < |v| ==> (Boots(v[k]) || Boots(s.ram[k]) ==> v[k] == s.ram[k]);
    if Current(v).Some? {
      CurrentIs(s.ram, Current(v).value);
    } else if Current(s.ram).Some? {
      CurrentIs(v, Current(s.ram).value);
    }
  }

  lemma SameView(f: seq<EraseBlock>, g: seq<EraseBlock>, readable: set<nat>)
    requires forall k :: 0 <= k < |f| ==> RECORD_BITS <= |f[k].page|
    requires SameFlash(f, g)
    ensures View(f, readable) == View(g, readable)
  {
    forall k | 0 <= k < |f| ensures f[k].page == g[k].page {
      assert SameContents(f[k], g[k]);
    }
  }

  /** A fresh process has in RAM what can be read, whatever cannot. */
  lemma InitMirrors(cfg: Config, s: Store)
    requires ValidConfig(cfg) && 0 < |s.flash| && ValidFlash(cfg, s.flash)
    ensures var t, readable := Init(cfg, s).store, ReadableSet(cfg, s.flash);
            && Mirrors(t, readable) && SameFlash(s.flash, t.flash)
            && Booted(t.ram) == Booted(View(s.flash, readable))
  {
    hide Decode, Init;
    InitEffect(cfg, s);
    var t, readable := Init(cfg, s).store, ReadableSet(cfg, s.flash);
    forall k | 0 <= k < |s.flash|
      ensures if k in readable then t.ram[k] == Decode(t.flash[k].page) else !Boots(t.ram[k])
    {
      assert SameContents(s.flash[k], t.flash[k]);
    }
    SameView(s.flash, t.flash, readable);
    MirroredChoice(t, readable);
  }

  /** Every block is reported bad or can be read. */
  ghost predicate ReadsAll(cfg: Config, f: seq<EraseBlock>) {
    forall k :: 0 <= k < |f| ==> ReportedBad(cfg, k, f[k]) || Readable(cfg, k, f[k])
  }

  /** The same for bc_ll_reread, if everything that is not bad can be read. */
  lemma RereadMirrors(cfg: Config, s: Store)
    requires Valid(cfg, s) && ReadsAll(cfg, s.flash)
    ensures var t, readable := Reread(cfg, s).store, ReadableSet(cfg, s.flash);
            && Mirrors(t, readable) && SameFlash(s.flash, t.flash)
            && Booted(t.ram) == Booted(View(s.flash, readable))
  {
    hide Decode, Reread;
    RereadEffect(cfg, s);
    var t, readable := Reread(cfg, s).store, ReadableSet(cfg, s.flash);
    forall k | 0 <= k < |s.flash|
      ensures if k in readable then t.ram[k] == Decode(t.flash[k].page) else !Boots(t.ram[k])
    {
      assert SameContents(s.flash[k], t.flash[k]);
    }
    SameView(s.flash, t.flash, readable);
    MirroredChoice(t, readable);
  }
}
