/** What one bc_ll_set_partition achieves under faults, and how it can fail to: an epoch that wraps
    around, a write that lands but is reported as failed, and records in RAM that were never written. */
module NewRecord {
  import opened Wrappers
  import opened Layout
  import opened Flash
  import opened BootStore
  import opened Reading
  import opened RingSearch
  import opened TornCalls
  import opened PowerCut
  import opened LogRuns

  /** The epoch that a request counts on from; 0 if there is no current record. */
  ghost function EpochBefore(s: Store): Word
    requires 0 < |s.flash| == |s.ram|
  {
    Anchored(s).ram[Anchor(s)].epoch
  }

  /** Nothing that can be read ranks above the current record. */
  ghost predicate NoneOutranks(cfg: Config, s: Store, readable: set<nat>)
    requires Valid(cfg, s)
  {
    forall k :: 0 <= k < |s.flash| && k in readable && Boots(Decode(s.flash[k].page)) ==>
      Decode(s.flash[k].page).epoch <= EpochBefore(s)
  }

  /** So it is if RAM mirrors everything that can be read. */
  lemma MirrorsDoNotOutrank(cfg: Config, s: Store, seen: set<nat>, readable: set<nat>)
    requires Valid(cfg, s) && Mirrors(s, seen) && readable <= seen
    ensures NoneOutranks(cfg, s, readable)
  {
    hide Decode;
    forall k | 0 <= k < |s.flash| && k in readable && Boots(Decode(s.flash[k].page))
      ensures Decode(s.flash[k].page).epoch <= EpochBefore(s)
    {
      assert s.ram[k] == Decode(s.flash[k].page);
      NoRecordBeyond(s, k);
    }
  }

  lemma NoRecordBeyond(s: Store, i: nat)
    requires 0 < |s.flash| == |s.ram| && i < |s.ram| && Boots(s.ram[i])
    ensures s.ram[i].epoch <= EpochBefore(s)
  {
    if s.ram[i].epoch > 0 {
      CurrentExists(s.ram, i);
    }
  }

  // ---- Success ----

  /** A request that wrote its record is what a scan finds, if the epoch could be counted up. */
  lemma SuccessfulScan(cfg: Config, s: Store, req: Request, readable: set<nat>)
    requires Valid(cfg, s) && TameFaults(cfg.faults) && NoneOutranks(cfg, s, readable) && EpochBefore(s) < MAX_EPOCH
    requires SearchFor(cfg, s, req).code != Anchor(s) && SearchFor(cfg, s, req).code in readable
    ensures Booted(View(SearchFor(cfg, s, req).store.flash, readable)) == Some(Apply(Booted(s.ram), req))
  {
    hide Decode, PageImage, SearchFor, Underway, Apply, SetPartition;
    var f, stop := SearchFor(cfg, s, req).store.flash, SearchFor(cfg, s, req).code;
    var v := View(f, readable);
    NewRecordIsThere(cfg, s, req);
    SetPartitionUnderway(cfg, s, req);
    CurrentExists(v, stop);
    var i := Current(v).value;
    assert v[i].epoch > EpochBefore(s) && i in readable;
    ScannedRecord(cfg, s, req, readable, f, i);
  }

  lemma NewRecordIsThere(cfg: Config, s: Store, req: Request)
    requires Valid(cfg, s) && SearchFor(cfg, s, req).code != Anchor(s)
    ensures var u := SearchFor(cfg, s, req); var r := Decode(u.store.flash[u.code].page);
            && r == Requested(s, req, u.code) && Boots(r) && r.epoch == (EpochBefore(s) + 1) % 0x1_0000_0000
  {
    hide Decode, PageImage;
    var u := SearchFor(cfg, s, req);
    SearchOnFlash(cfg, s, req, u.code);
    DecodePageImage(Requested(s, req, u.code), cfg.ioBytes);
  }

  /** New-record correctness: let bc_ll_set_partition report success, let everything that is not bad
      be readable when it reads again, the block just written among it, and nothing readable
      outrank the current record. If the epoch could be counted up, the machine boots exactly
      what was requested; the new record is in RAM either way, counted up in 32 bits. */
  lemma SuccessBootsRequest(cfg: Config, s: Store, req: Request)
    requires Valid(cfg, s) && TameFaults(cfg.faults) && SetPartition(cfg, s, req).code == 0
    requires ReadsAll(cfg, SearchFor(cfg, s, req).store.flash)
    requires var u := SearchFor(cfg, s, req); var readable := ReadableSet(cfg, u.store.flash);
             NoneOutranks(cfg, s, readable) && u.code in readable
    ensures var ram, stop := SetPartition(cfg, s, req).store.ram, SearchFor(cfg, s, req).code;
            && (EpochBefore(s) < MAX_EPOCH ==> Booted(ram) == Some(Apply(Booted(s.ram), req)))
            && ram[stop] == Requested(s, req, stop) && Boots(ram[stop])
            && ram[stop].epoch == (EpochBefore(s) + 1) % 0x1_0000_0000
  {
    hide Decode, SearchFor, View, Booted, Apply, NoneOutranks, Reread, ReadsAll;
    var u := SearchFor(cfg, s, req);
    var readable := ReadableSet(cfg, u.store.flash);
    SetPartitionSucceeds(cfg, s, req);
    SuccessIsReread(cfg, s, req);
    NewRecordIsThere(cfg, s, req);
    RereadMirrors(cfg, u.store);
    assert SameContents(u.store.flash[u.code], SetPartition(cfg, s, req).store.flash[u.code]);
    if EpochBefore(s) < MAX_EPOCH {
      SuccessfulScan(cfg, s, req, readable);
    }
  }

  lemma SuccessIsReread(cfg: Config, s: Store, req: Request)
    requires Valid(cfg, s) && SetPartition(cfg, s, req).code == 0
    ensures SetPartition(cfg, s, req).store == Reread(cfg, SearchFor(cfg, s, req).store).store
  {
  }

  // ---- Which record is current ----

  lemma StopIsFirst(cfg: Config, s: Store, req: Request, stop: nat)
    requires Valid(cfg, s) && FirstToPass(cfg, s, Anchor(s), stop)
    ensures SearchFor(cfg, s, req).code == stop && stop != Anchor(s) && SetPartition(cfg, s, req).code == 0
  {
    hide SearchFor, SetPartition, Passes;
    SetPartitionSucceeds(cfg, s, req);
    SearchFinds(cfg, s, req);
    if SearchFor(cfg, s, req).code != Anchor(s) {
      FirstToPassIsUnique(cfg, s, Anchor(s), stop, SearchFor(cfg, s, req).code);
    }
  }

  /** The record is programmed onto block k all right, but the call says that it failed. */
  ghost predicate Lands(cfg: Config, k: nat, b: EraseBlock, r: Btblock) {
    && r.magic != BAD
    && cfg.faults(IsBad, k, b.calls).code == 0
    && cfg.faults(Erase, k, b.calls + 1).code >= 0
    && cfg.faults(Alloc, k, b.calls + 2).code >= 0
    && cfg.faults(Program, k, b.calls + 2).code < 0
    && ReachesAll(cfg.faults(Program, k, b.calls + 2))
  }

  ghost predicate ReachesAll(r: Reply) {
    forall i :: r.hit(i)
  }

  /** And it can be read afterwards: after check, erase, program and another check. */
  ghost predicate LandsUnnoticed(cfg: Config, s: Store, k: nat)
    requires k < |s.flash| == |s.ram|
  {
    var b := s.flash[k];
    Lands(cfg, k, b, s.ram[k]) && Readable(cfg, k, b.(calls := b.calls + 4))
  }

  /** If every call lands wholly or not at all, a failed attempt leaves the page alone, or erased, or
      lands. */
  lemma FailedAttempt(cfg: Config, k: nat, b: EraseBlock, r: Btblock, next: Btblock)
    requires ValidConfig(cfg) && |b.page| == 8 * cfg.ioBytes && AtomicFaults(cfg.faults)
    requires !PassesOne(cfg, k, b, r)
    ensures var a := UpdateOne(cfg, k, b, r, next).block;
            if Lands(cfg, k, b, r) then a.page == PageImage(next, cfg.ioBytes) && a.calls == b.calls + 4
            else a.page == b.page || a.page == Ones(8 * cfg.ioBytes)
  {
    hide PageImage;
    if r.magic != BAD && cfg.faults(IsBad, k, b.calls).code == 0 {
      var c := b.Ticked();
      var erase := cfg.faults(Erase, k, c.calls);
      var blank := c.AfterErase(erase);
      assert WholeOrNothing(erase);
      assert blank.page == b.page || blank.page == Ones(8 * cfg.ioBytes);
      if erase.code >= 0 && cfg.faults(Alloc, k, blank.calls).code >= 0 {
        var program, data := cfg.faults(Program, k, blank.calls), PageImage(next, cfg.ioBytes);
        assert WholeOrNothing(program);
        var page := blank.AfterProgram(data, program).page;
        assert page == if Lands(cfg, k, b, r) then data else blank.page;
      }
    }
  }

  /** How record k ranks after a request that succeeded at block `stop`: as the new one if it is its
      shadow, and otherwise no higher than the old one. */
  predicate Ranks(r: Btblock, before: Word, isShadow: bool) {
    if isShadow then Boots(r) && r.epoch == (before + 1) % 0x1_0000_0000 else Boots(r) ==> r.epoch <= before
  }

  /** Record k in RAM after a request that succeeded at block `stop`. */
  lemma RecordAfterSuccess(cfg: Config, s: Store, req: Request, stop: nat, k: nat)
    requires Valid(cfg, s) && AtomicFaults(cfg.faults) && FirstToPass(cfg, s, Anchor(s), stop)
    requires ReadsAll(cfg, SearchFor(cfg, s, req).store.flash)
    requires NoneOutranks(cfg, s, ReadableSet(cfg, SearchFor(cfg, s, req).store.flash))
    requires k < |s.flash| && k != stop
    ensures Ranks(SetPartition(cfg, s, req).store.ram[k], EpochBefore(s),
                  Ahead(Next(Anchor(s), |s.flash|), k, stop, |s.flash|) && LandsUnnoticed(cfg, s, k))
  {
    hide Decode, PageImage, SetPartition, FirstToPass, Lands, SearchFor, NoneOutranks;
    var b, next := SearchFor(cfg, s, req).store.flash[k], Requested(s, req, k);
    PageAfterSuccess(cfg, s, req, stop, k);
    SuccessReads(cfg, s, req, k);
    DecodePageImage(next, cfg.ioBytes);
    DecodeErased(8 * cfg.ioBytes);
    if Readable(cfg, k, b) {
      OldRank(cfg, s, ReadableSet(cfg, SearchFor(cfg, s, req).store.flash), k);
    }
  }

  lemma OldRank(cfg: Config, s: Store, readable: set<nat>, k: nat)
    requires Valid(cfg, s) && NoneOutranks(cfg, s, readable) && k < |s.flash| && k in readable
    ensures Boots(Decode(s.flash[k].page)) ==> Decode(s.flash[k].page).epoch <= EpochBefore(s)
  {
    hide Decode;
  }

  /** Page k after a search that succeeded at block `stop`. */
  lemma PageAfterSuccess(cfg: Config, s: Store, req: Request, stop: nat, k: nat)
    requires Valid(cfg, s) && AtomicFaults(cfg.faults) && FirstToPass(cfg, s, Anchor(s), stop)
    requires k < |s.flash| && k != stop
    ensures SetPartition(cfg, s, req).code == 0 && SearchFor(cfg, s, req).code == stop
    ensures var n, b, a := |s.flash|, s.flash[k], SearchFor(cfg, s, req).store.flash[k];
            if Ahead(Next(Anchor(s), n), k, stop, n) && Lands(cfg, k, b, s.ram[k])
            then a.page == PageImage(Requested(s, req, k), cfg.ioBytes) && a.calls == b.calls + 4
            else a.page == b.page || a.page == Ones(8 * cfg.ioBytes)
  {
    hide PageImage, UpdateOne, SetPartition, PassesOne, AtomicFaults, Lands;
    var n, cur, t := |s.flash|, Anchor(s), Anchored(s);
    StopIsFirst(cfg, s, req, stop);
    SearchFinds(cfg, s, req);
    SearchExact(cfg, t, req, cur, Next(cur, n), k);
    if Attempted(Next(cur, n), k, stop, cur, n) {
      FailedAttempt(cfg, k, t.flash[k], t.ram[k], Requested(s, req, k));
    }
  }

  lemma SuccessReads(cfg: Config, s: Store, req: Request, k: nat)
    requires Valid(cfg, s) && SetPartition(cfg, s, req).code == 0 && k < |s.flash|
    requires ReadsAll(cfg, SearchFor(cfg, s, req).store.flash)
    ensures var b, r := SearchFor(cfg, s, req).store.flash[k], SetPartition(cfg, s, req).store.ram[k];
            if Readable(cfg, k, b) then r == Decode(b.page) else r.magic == BAD
  {
    hide Decode;
    RereadEffect(cfg, SearchFor(cfg, s, req).store);
  }

  /** Which record is current: let every call land wholly or not at all, and reading be as above. The
      block where the search ends, the first to pass, is current if and only if its epoch could
      be counted up and no block of lower index that was tried before was written all right
      while the call said that it failed, and can be read. */
  lemma SuccessIsCurrent(cfg: Config, s: Store, req: Request, stop: nat)
    requires Valid(cfg, s) && AtomicFaults(cfg.faults) && FirstToPass(cfg, s, Anchor(s), stop)
    requires ReadsAll(cfg, SearchFor(cfg, s, req).store.flash)
    requires var readable := ReadableSet(cfg, SearchFor(cfg, s, req).store.flash);
             NoneOutranks(cfg, s, readable) && stop in readable
    ensures SetPartition(cfg, s, req).code == 0
    ensures Current(SetPartition(cfg, s, req).store.ram) == Some(stop)
            <==> && EpochBefore(s) < MAX_EPOCH
                 && forall k :: 0 <= k < stop && Ahead(Next(Anchor(s), |s.flash|), k, stop, |s.flash|) ==>
                      !LandsUnnoticed(cfg, s, k)
  {
    hide *;
    Sizes(cfg, s, req);
    AtomicIsTame(cfg.faults);
    StopIsFirst(cfg, s, req, stop);
    SuccessBootsRequest(cfg, s, req);
    var ram, start := SetPartition(cfg, s, req).store.ram, Next(Anchor(s), |s.flash|);
    forall k | 0 <= k < |ram| && k != stop
      ensures Ranks(ram[k], EpochBefore(s), Ahead(start, k, stop, |ram|) && LandsUnnoticed(cfg, s, k))
    {
      RecordAfterSuccess(cfg, s, req, stop, k);
    }
    var shadows := set k | 0 <= k < |ram| && Ahead(start, k, stop, |ram|) && LandsUnnoticed(cfg, s, k);
    NotAheadOfItself(start, stop, |ram|);
    CurrentAmongEquals(ram, stop, EpochBefore(s), shadows);
  }

  lemma NotAheadOfItself(k: nat, j: nat, n: nat)
    requires k < n && j < n
    ensures !Ahead(k, j, j, n)
  {
  }

  lemma Sizes(cfg: Config, s: Store, req: Request)
    requires Valid(cfg, s)
    ensures 0 < |s.flash| == |s.ram| == |SetPartition(cfg, s, req).store.ram| && Anchor(s) < |s.flash|
  {
  }

  /** Of records of equal rank the first is current. */
  lemma CurrentAmongEquals(ram: seq<Btblock>, stop: nat, e: Word, shadows: set<nat>)
    requires stop < |ram| && stop !in shadows && Boots(ram[stop]) && ram[stop].epoch == (e + 1) % 0x1_0000_0000
    requires forall k :: 0 <= k < |ram| && k != stop ==> Ranks(ram[k], e, k in shadows)
    ensures Current(ram) == Some(stop) <==> e < MAX_EPOCH && forall k :: 0 <= k < stop ==> k !in shadows
  {
    if e < MAX_EPOCH {
      forall k | 0 <= k < |ram| && k != stop
        ensures if k in shadows then Boots(ram[k]) && ram[k].epoch == ram[stop].epoch
                else Boots(ram[k]) ==> ram[k].epoch <= e
      {
        assert Ranks(ram[k], e, k in shadows);
      }
      if k :| 0 <= k < stop && k in shadows {
        assert !IsCurrent(ram, stop);
      } else {
        CurrentIs(ram, stop);
      }
    }
  }

  /** So it happens to every store with a current record and two good blocks after it: if programs of
      the first always land but say that they failed, the second is reported written, and the
      first is what boots. */
  lemma ShadowWitness(cfg: Config, s: Store, req: Request, cur: nat)
    requires Valid(cfg, s) && Current(s.ram) == Some(cur) && cur + 2 < |s.flash| && EpochBefore(s) < MAX_EPOCH
    requires cfg.faults == OneFault(Program, cur + 1, i => true)
    requires forall k :: 0 <= k < |s.flash| ==> s.ram[k].magic != BAD && s.ram[k] == Decode(s.flash[k].page)
    ensures var r := SetPartition(cfg, s, req);
            && r.code == 0 && SearchFor(cfg, s, req).code == cur + 2
            && Current(r.store.ram) != Some(cur + 2) && Booted(r.store.ram) == Some(Apply(Booted(s.ram), req))
  {
    hide Decode, SetPartition, SearchFor, FirstToPass, LandsUnnoticed, ReadsAll, Mirrors, AtomicFaults, TameFaults,
      Current, NoneOutranks, EpochBefore;
    var f := SearchFor(cfg, s, req).store.flash;
    var all := ReadableSet(cfg, f);
    ShadowFaults(cfg, s, cur, f);
    StopIsFirst(cfg, s, req, cur + 2);
    MirrorsDoNotOutrank(cfg, s, all, all);
    SuccessBootsRequest(cfg, s, req);
    SuccessIsCurrent(cfg, s, req, cur + 2);
    assert Ahead(Next(cur, |s.flash|), cur + 1, cur + 2, |s.flash|);
  }

  lemma ShadowFaults(cfg: Config, s: Store, cur: nat, f: seq<EraseBlock>)
    requires Valid(cfg, s) && cur + 2 < |s.flash| == |f| && cfg.faults == OneFault(Program, cur + 1, i => true)
    requires forall k :: 0 <= k < |s.flash| ==> s.ram[k].magic != BAD && s.ram[k] == Decode(s.flash[k].page)
    ensures FirstToPass(cfg, s, cur, cur + 2) && LandsUnnoticed(cfg, s, cur + 1)
    ensures ReadsAll(cfg, f) && Mirrors(s, ReadableSet(cfg, f)) && forall k :: 0 <= k < |f| ==> k in ReadableSet(cfg, f)
    ensures AtomicFaults(cfg.faults) && TameFaults(cfg.faults)
  {
    hide Decode, TameFaults, AtomicFaults, LandsUnnoticed;
    assert Passes(cfg, s, cur + 2) && !Passes(cfg, s, cur + 1);
    OneFaultIsAtomic(Program, cur + 1);
    ShadowLands(cfg, s, cur + 1);
    AtomicIsTame(cfg.faults);
  }

  lemma OneFaultIsAtomic(op: Op, k: nat)
    ensures AtomicFaults(OneFault(op, k, i => true))
  {
  }

  lemma ShadowLands(cfg: Config, s: Store, k: nat)
    requires k < |s.flash| == |s.ram| && s.ram[k].magic != BAD && cfg.faults == OneFault(Program, k, i => true)
    ensures LandsUnnoticed(cfg, s, k)
  {
  }

  /** At the last epoch what booted before still does, although the request was written. */
  lemma SuccessAtLastEpoch(cfg: Config, s: Store, req: Request, stop: nat, seen: set<nat>)
    requires Valid(cfg, s) && AtomicFaults(cfg.faults) && FirstToPass(cfg, s, Anchor(s), stop)
    requires EpochBefore(s) == MAX_EPOCH && Mirrors(s, seen) && ReadsAll(cfg, SearchFor(cfg, s, req).store.flash)
    requires var readable := ReadableSet(cfg, SearchFor(cfg, s, req).store.flash);
             readable <= seen && Anchor(s) in readable && stop in readable
    ensures SetPartition(cfg, s, req).code == 0 && Booted(SetPartition(cfg, s, req).store.ram) == Booted(s.ram)
  {
    hide Decode, SearchFor, NoneOutranks, Passes, LandsUnnoticed, TameFaults, AtomicFaults, ReadsAll;
    var cur, readable := Anchor(s), ReadableSet(cfg, SearchFor(cfg, s, req).store.flash);
    MirrorsDoNotOutrank(cfg, s, seen, readable);
    StopIsFirst(cfg, s, req, stop);
    AtomicIsTame(cfg.faults);
    SuccessBootsRequest(cfg, s, req);
    var ram := SetPartition(cfg, s, req).store.ram;
    hide SetPartition;
    forall k | 0 <= k < |ram| && Boots(ram[k])
      ensures if k == cur then ram[k] == s.ram[k]
              else ram[k].epoch == 0 || (k in seen && SameRank(ram[k], s.ram[k]))
    {
      LastEpochRecord(cfg, s, req, stop, seen, k);
    }
    LastEpochRecord(cfg, s, req, stop, seen, cur);
    CurrentIs(ram, cur);
  }

  lemma LastEpochRecord(cfg: Config, s: Store, req: Request, stop: nat, seen: set<nat>, k: nat)
    requires Valid(cfg, s) && AtomicFaults(cfg.faults) && FirstToPass(cfg, s, Anchor(s), stop) && k < |s.flash|
    requires EpochBefore(s) == MAX_EPOCH && Mirrors(s, seen) && ReadsAll(cfg, SearchFor(cfg, s, req).store.flash)
    requires ReadableSet(cfg, SearchFor(cfg, s, req).store.flash) <= seen
    requires Anchor(s) in ReadableSet(cfg, SearchFor(cfg, s, req).store.flash)
    ensures SetPartition(cfg, s, req).code == 0
    ensures var r := SetPartition(cfg, s, req).store.ram[k];
            if k == Anchor(s) then r == s.ram[k]
            else Boots(r) ==> r.epoch == 0 || (k in seen && SameRank(r, s.ram[k]))
  {
    hide Decode, PageImage, SetPartition, FirstToPass, Lands, SearchFor, AtomicFaults;
    StopIsFirst(cfg, s, req, stop);
    SuccessReads(cfg, s, req, k);
    if k == stop {
      NewRecordIsThere(cfg, s, req);
    } else if k == Anchor(s) {
      CurrentUntouched(cfg, s, req);
    } else {
      PageAfterSuccess(cfg, s, req, stop, k);
      DecodePageImage(Requested(s, req, k), cfg.ioBytes);
      DecodeErased(8 * cfg.ioBytes);
    }
  }

  lemma CurrentUntouched(cfg: Config, s: Store, req: Request)
    requires Valid(cfg, s)
    ensures SearchFor(cfg, s, req).store.flash[Anchor(s)] == s.flash[Anchor(s)]
  {
    hide PageImage;
    SearchOnFlash(cfg, s, req, Anchor(s));
    SearchExact(cfg, Anchored(s), req, Anchor(s), Next(Anchor(s), |s.flash|), Anchor(s));
  }

  // ---- Failure ----

  /** An attempt on block k, if it fails, leaves "BAD!" in RAM. */
  ghost predicate EndsBad(cfg: Config, k: nat, b: EraseBlock, r: Btblock) {
    || r.magic == BAD
    || cfg.faults(IsBad, k, b.calls).code > 0
    || (&& cfg.faults(IsBad, k, b.calls).code == 0
        && if cfg.faults(Erase, k, b.calls + 1).code < 0 then cfg.faults(IsBad, k, b.calls + 2).code > 0
           else && cfg.faults(Alloc, k, b.calls + 2).code >= 0 && cfg.faults(Program, k, b.calls + 2).code < 0
                && cfg.faults(IsBad, k, b.calls + 3).code > 0)
  }

  lemma FailedRecord(cfg: Config, k: nat, b: EraseBlock, r: Btblock, next: Btblock)
    requires ValidConfig(cfg) && |b.page| == 8 * cfg.ioBytes && !PassesOne(cfg, k, b, r) && Boots(next)
    ensures var a := UpdateOne(cfg, k, b, r, next).record;
            if EndsBad(cfg, k, b, r) then a.magic == BAD else a == next
  {
    hide PageImage;
  }

  /** Record k in RAM after a request that failed. */
  lemma RecordAfterFailure(cfg: Config, s: Store, req: Request, k: nat)
    requires Valid(cfg, s) && k < |s.flash|
    requires forall j :: 0 <= j < |s.flash| && j != Anchor(s) ==> !Passes(cfg, s, j)
    ensures SetPartition(cfg, s, req).code == -1
    ensures var r := SetPartition(cfg, s, req).store.ram[k];
            if k == Anchor(s) then r == Anchored(s).ram[k]
            else if EndsBad(cfg, k, s.flash[k], s.ram[k]) then r.magic == BAD
            else r == Requested(s, req, k)
  {
    hide UpdateOne;
    var n, cur, t := |s.flash|, Anchor(s), Anchored(s);
    SetPartitionSucceeds(cfg, s, req);
    SearchExact(cfg, t, req, cur, Next(cur, n), k);
    if k != cur {
      FailedRecord(cfg, k, t.flash[k], t.ram[k], Requested(s, req, k));
      assert Attempted(Next(cur, n), k, cur, cur, n);
    }
  }

  /** When bc_ll_set_partition fails, RAM is not reread. What then is current in RAM is what was
      before if and only if the epoch could not be counted up, or every other block ends up
      marked bad; otherwise it is a phantom, a record that was never reported written. */
  lemma FailureLeavesPhantom(cfg: Config, s: Store, req: Request)
    requires Valid(cfg, s) && forall k :: 0 <= k < |s.flash| && k != Anchor(s) ==> !Passes(cfg, s, k)
    ensures SetPartition(cfg, s, req).code == -1
    ensures Current(SetPartition(cfg, s, req).store.ram) == Current(s.ram)
            <==> || EpochBefore(s) == MAX_EPOCH
                 || forall k :: 0 <= k < |s.flash| && k != Anchor(s) ==> EndsBad(cfg, k, s.flash[k], s.ram[k])
  {
    hide SetPartition, EndsBad, Passes;
    var cur, ram := Anchor(s), SetPartition(cfg, s, req).store.ram;
    forall k | 0 <= k < |ram|
      ensures SetPartition(cfg, s, req).code == -1
      ensures if k == cur then ram[k] == Anchored(s).ram[k]
              else if EndsBad(cfg, k, s.flash[k], s.ram[k]) then ram[k].magic == BAD
              else Boots(ram[k]) && ram[k].epoch == (EpochBefore(s) + 1) % 0x1_0000_0000
    {
      RecordAfterFailure(cfg, s, req, k);
    }
    RecordAfterFailure(cfg, s, req, cur);
    if k :| 0 <= k < |ram| && k != cur && !EndsBad(cfg, k, s.flash[k], s.ram[k]) {
      if EpochBefore(s) < MAX_EPOCH {
        CurrentExists(ram, k);
      } else {
        CurrentIs(ram, cur);
      }
    } else if Current(s.ram).Some? {
      CurrentIs(ram, cur);
    }
  }

  /** So it happens to every store with a current record and another block that is not known to be bad,
      as soon as all erases fail: RAM boots a record that no page was ever changed for. */
  lemma PhantomWitness(cfg: Config, s: Store, req: Request, k: nat)
    requires Valid(cfg, s) && Current(s.ram).Some? && EpochBefore(s) < MAX_EPOCH
    requires k < |s.flash| && k != Anchor(s) && s.ram[k].magic != BAD
    requires forall op, j, n ::
               cfg.faults(op, j, n).code == (if op == Erase then -1 else 0) && !cfg.faults(op, j, n).hit(0)
    ensures var r := SetPartition(cfg, s, req);
            r.code == -1 && Current(r.store.ram) != Current(s.ram)
  {
    hide SetPartition;
    FailureLeavesPhantom(cfg, s, req);
    assert !EndsBad(cfg, k, s.flash[k], s.ram[k]);
  }

  // ---- Beyond the last epoch ----

  lemma LastEpochOnBlock(cfg: Config, bad: set<nat>, s: Store, req: Request, stop: nat, k: nat)
    requires Valid(cfg, s) && FaultFree(cfg.faults, bad) && Mirrors(s, GoodBlocks(|s.flash|, bad)) && k < |s.flash|
    requires Current(s.ram).Some? && FirstToPass(cfg, s, Anchor(s), stop) && SetPartition(cfg, s, req).code == 0
    ensures var t := SetPartition(cfg, s, req).store;
            && (k !in bad ==> t.ram[k] == if k == stop then Requested(s, req, k) else s.ram[k])
            && (Passes(cfg, s, k) <==> Passes(cfg, t, k))
  {
    hide Decode, SetPartition, PageImage;
    var t, n, cur := SetPartition(cfg, s, req).store, |s.flash|, Anchor(s);
    SetPartitionOnFlash(cfg, s, req, k);
    SetMirrors(cfg, bad, s, req);
    DecodePageImage(Requested(s, req, k), cfg.ioBytes);
    if k !in bad && k != stop && k != cur {
      FurtherOrEqual(Next(cur, n), k, stop, n);
      if s.ram[k].magic == BAD {
        BadBlocksAreLeftAlone(cfg, s, req, k);
      }
    }
  }

  lemma SameFirstToPass(cfg: Config, s: Store, t: Store, cur: nat, stop: nat)
    requires cur < |s.flash| == |s.ram| == |t.flash| == |t.ram|
    requires forall k :: 0 <= k < |s.flash| ==> (Passes(cfg, s, k) <==> Passes(cfg, t, k))
    requires FirstToPass(cfg, s, cur, stop)
    ensures FirstToPass(cfg, t, cur, stop)
  {
  }

  lemma SameCurrent(before: seq<Btblock>, after: seq<Btblock>, cur: nat)
    requires |before| == |after| && Current(before) == Some(cur) && after[cur] == before[cur]
    requires forall k :: 0 <= k < |after| && Boots(after[k]) ==> after[k] == before[k] || after[k].epoch == 0
    ensures Current(after) == Some(cur)
  {
    CurrentIs(after, cur);
  }

  /** The last epoch is reached, RAM mirrors the flash, and `stop` is the next block to erase. */
  ghost predicate Stuck(cfg: Config, bad: set<nat>, s: Store, stop: nat) {
    && Valid(cfg, s) && FaultFree(cfg.faults, bad) && Mirrors(s, GoodBlocks(|s.flash|, bad))
    && EpochBefore(s) == MAX_EPOCH && FirstToPass(cfg, s, Anchor(s), stop)
  }

  /** At the last epoch a request succeeds, erases the next good block, and changes nothing that
      matters: not even which block the next request will erase. */
  lemma RequestAtLastEpoch(cfg: Config, bad: set<nat>, s: Store, req: Request, stop: nat)
    requires Stuck(cfg, bad, s, stop)
    ensures var r := SetPartition(cfg, s, req);
            && r.code == 0 && Stuck(cfg, bad, r.store, stop) && Booted(r.store.ram) == Booted(s.ram)
            && r.store.flash[stop].erases == s.flash[stop].erases + 1
  {
    hide Decode, SetPartition, PageImage, Passes, IsCurrent;
    var t, n, cur := SetPartition(cfg, s, req).store, |s.flash|, Anchor(s);
    assert Current(s.ram).Some?;
    assert Passes(cfg, s, stop);
    SetPartitionSucceeds(cfg, s, req);
    SetMirrors(cfg, bad, s, req);
    CurrentIsMirrored(s, GoodBlocks(n, bad));
    forall k | 0 <= k < n
      ensures k !in bad ==> t.ram[k] == if k == stop then Requested(s, req, k) else s.ram[k]
      ensures Passes(cfg, s, k) <==> Passes(cfg, t, k)
    {
      LastEpochOnBlock(cfg, bad, s, req, stop, k);
    }
    SetPartitionOnFlash(cfg, s, req, stop);
    SameFirstToPass(cfg, s, t, cur, stop);
    forall k | 0 <= k < n && Boots(t.ram[k]) ensures t.ram[k] == s.ram[k] || t.ram[k].epoch == 0 {
      assert k in GoodBlocks(n, bad);
    }
    SameCurrent(s.ram, t.ram, cur);
  }

  lemma CurrentIsMirrored(s: Store, seen: set<nat>)
    requires |s.flash| == |s.ram| && forall k :: 0 <= k < |s.flash| ==> RECORD_BITS <= |s.flash[k].page|
    requires Mirrors(s, seen) && Current(s.ram).Some?
    ensures Current(s.ram).value in seen
  {
    hide Decode;
  }

  lemma CommandAtLastEpoch(cfg: Config, bad: set<nat>, s: Store, c: Command, stop: nat)
    requires Valid(cfg, s) && stop < |s.flash| && Stuck(cfg, bad, s, stop) && c.Set?
    ensures var t := Execute(cfg, s, c);
            && Stuck(cfg, bad, t, stop) && Booted(t.ram) == Booted(s.ram)
            && t.flash[stop].erases == s.flash[stop].erases + 1
  {
    hide Stuck, Booted;
    RequestAtLastEpoch(cfg, bad, s, c.req, stop);
  }

  /** So the bound on the log and on wear levelling is needed: once the last epoch is reached,
      requests succeed and do nothing but wear out one block, each by one more erase. */
  lemma {:induction false} RunAtLastEpoch(cfg: Config, bad: set<nat>, s: Store, cs: seq<Command>, stop: nat)
    requires Valid(cfg, s) && stop < |s.flash| && Stuck(cfg, bad, s, stop)
    requires forall i :: 0 <= i < |cs| ==> cs[i].Set?
    ensures var t := Run(cfg, s, cs);
            Booted(t.ram) == Booted(s.ram) && t.flash[stop].erases == s.flash[stop].erases + |cs|
    decreases |cs|
  {
    hide Execute, Stuck, Booted, Valid;
    if cs != [] {
      CommandAtLastEpoch(cfg, bad, s, cs[0], stop);
      RunAtLastEpoch(cfg, bad, Execute(cfg, s, cs[0]), cs[1..], stop);
    }
  }

  lemma LastEpochIsStuck(cfg: Config, bad: set<nat>, start: seq<EraseBlock>, s: Store, log: seq<Choice>, d: Standing)
    requires Represents(cfg, bad, start, s, log, d) && FaultFree(cfg.faults, bad) && |log| == MAX_EPOCH
    ensures d.pos < |Good(|s.flash|, bad)| && Stuck(cfg, bad, s, Good(|s.flash|, bad)[d.pos])
  {
    hide SlotOk, Mirrors, FirstToPass, Good;
    CurrentEpoch(cfg, bad, start, s, log, d);
    NextGoodBlock(cfg, bad, start, s, log, d);
  }

  lemma {:induction false} RunConcat(cfg: Config, s: Store, a: seq<Command>, b: seq<Command>)
    requires Valid(cfg, s)
    ensures Run(cfg, s, a + b) == Run(cfg, Run(cfg, s, a), b)
    decreases |a|
  {
    if a == [] {
      assert a + b == b;
    } else {
      hide Execute;
      assert (a + b)[1..] == a[1..] + b;
      RunConcat(cfg, Execute(cfg, s, a[0]), a[1..], b);
    }
  }

  /** After 2^32 - 1 requests the log is full. */
  lemma LogFillsUp(cfg: Config, bad: set<nat>, s: Store, cs: seq<Command>) returns (stop: nat)
    requires Valid(cfg, s) && Unused(cfg, bad, s) && FaultFree(cfg.faults, bad) && SetCount(cs) == MAX_EPOCH
    ensures var t := Run(cfg, s, cs);
            Stuck(cfg, bad, t, stop) && stop < |t.flash| && Booted(t.ram) == Last(LogOf([], cs))
  {
    hide Represents, Run, Stuck, Booted, Unused, Valid, FaultFree, LogOf;
    var t, d := Run(cfg, s, cs), MovedBy(Standing(0, 0, 0), |Good(|s.flash|, bad)|, cs);
    UnusedRepresents(cfg, bad, s);
    RunRepresents(cfg, bad, s.flash, s, [], Standing(0, 0, 0), cs);
    LastEpochIsStuck(cfg, bad, s.flash, t, LogOf([], cs), d);
    CurrentOfLog(cfg, bad, s.flash, t, LogOf([], cs), d);
    stop := Good(|t.flash|, bad)[d.pos];
    StuckIsValid(cfg, bad, t, stop);
  }

  /** The end of every log: on every unused store, once 2^32 - 1 requests were made, whatever is
      requested next reports success, what boots stays the last entry of the log, and some
      one block takes one more erase for every request. */
  lemma LogIsFull(cfg: Config, bad: set<nat>, s: Store, cs: seq<Command>, more: seq<Command>)
    requires Valid(cfg, s) && Unused(cfg, bad, s) && FaultFree(cfg.faults, bad) && SetCount(cs) == MAX_EPOCH
    requires forall i :: 0 <= i < |more| ==> more[i].Set?
    ensures var t, u := Run(cfg, s, cs), Run(cfg, s, cs + more);
            && Booted(u.ram) == Last(LogOf([], cs))
            && exists stop: nat :: stop < |t.flash| && u.flash[stop].erases == t.flash[stop].erases + |more|
  {
    hide Run, Stuck, Booted, Unused, Valid, FaultFree, LogOf, Last;
    var t := Run(cfg, s, cs);
    var stop := LogFillsUp(cfg, bad, s, cs);
    RunConcat(cfg, s, cs, more);
    RunAtLastEpoch(cfg, bad, t, more, stop);
  }

  lemma StuckIsValid(cfg: Config, bad: set<nat>, s: Store, stop: nat)
    requires Stuck(cfg, bad, s, stop)
    ensures Valid(cfg, s) && stop < |s.flash|
  {
  }
}
