/** The exact outcome of one bc_ll_set_partition, under every pattern of faults. */
module RingSearch {
  import opened Wrappers
  import opened Layout
  import opened Flash
  import opened BootStore
  import opened Reading

  /** Block k can take a record: it is not known to be bad, and every call on it works. */
  predicate PassesOne(cfg: Config, k: nat, b: EraseBlock, r: Btblock) {
    && r.magic != BAD
    && cfg.faults(IsBad, k, b.calls).code == 0
    && cfg.faults(Erase, k, b.calls + 1).code >= 0
    && cfg.faults(Alloc, k, b.calls + 2).code >= 0
    && cfg.faults(Program, k, b.calls + 2).code >= 0
  }

  predicate Passes(cfg: Config, s: Store, k: nat)
    requires k < |s.flash| == |s.ram|
  {
    PassesOne(cfg, k, s.flash[k], s.ram[k])
  }

  lemma EraseThenProgram(b: EraseBlock, erase: Reply, data: Bits, program: Reply)
    requires |data| == |b.page| && erase.code >= 0 && program.code >= 0
    ensures b.AfterErase(erase).AfterProgram(data, program).page == data
  {
  }

  lemma WriteOneEffect(cfg: Config, k: nat, b: EraseBlock, r: Btblock)
    requires ValidConfig(cfg) && |b.page| == 8 * cfg.ioBytes
    ensures var a := WriteOne(cfg, k, b, r);
            && (a.code == 0 <==> && cfg.faults(Erase, k, b.calls).code >= 0
                                 && cfg.faults(Alloc, k, b.calls + 1).code >= 0
                                 && cfg.faults(Program, k, b.calls + 1).code >= 0)
            && (a.code == 0 ==> a.block.page == PageImage(r, cfg.ioBytes))
            && a.block.erases == b.erases + 1 && a.record == r
  {
    var erase := cfg.faults(Erase, k, b.calls);
    var program := cfg.faults(Program, k, b.AfterErase(erase).calls);
    if erase.code >= 0 && program.code >= 0 {
      EraseThenProgram(b, erase, PageImage(r, cfg.ioBytes), program);
    }
  }

  /** An attempt on one block succeeds exactly if the block passes, and then leaves the padded
      record on the page; it erases at most once. A failed attempt leaves the record
      in RAM, or "BAD!". */
  lemma UpdateOneEffect(cfg: Config, k: nat, b: EraseBlock, r: Btblock, next: Btblock)
    requires ValidConfig(cfg) && |b.page| == 8 * cfg.ioBytes
    ensures var a := UpdateOne(cfg, k, b, r, next);
            && (a.code == 0 <==> PassesOne(cfg, k, b, r))
            && (a.code == 0 ==> && a.block.page == PageImage(next, cfg.ioBytes)
                                && a.record == next && a.block.erases == b.erases + 1)
            && b.erases <= a.block.erases <= b.erases + 1
            && (a.code != 0 ==> a.record == next || a.record.magic == BAD)
  {
    WriteOneEffect(cfg, k, CheckOne(cfg, k, b, next).block, next);
  }

  /** Block j comes before block `end` on the way around the ring from block k. */
  predicate Ahead(k: nat, j: nat, end: nat, n: nat)
    requires k < n && j < n && end < n
  {
    Distance(k, j, n) < Distance(k, end, n)
  }

  /** Where the search stops: at a block on its way that passes, or else at `cur`. */
  lemma {:induction false} SearchStops(cfg: Config, s: Store, req: Request, cur: nat, k: nat)
    requires Valid(cfg, s) && k < |s.flash| && cur < |s.flash|
    ensures var r := Search(cfg, s, req, cur, k);
            && (r.code != cur ==> Ahead(k, r.code, cur, |s.flash|) && Passes(cfg, s, r.code))
            && s.trace <= r.store.trace
    decreases Distance(k, cur, |s.flash|)
  {
    if k != cur {
      var n := |s.flash|;
      var u := UpdateBlock(cfg, s, req, cur, k);
      UpdateOneEffect(cfg, k, s.flash[k], s.ram[k], NewRecord(s.ram[cur], req, k));
      if u.code != 0 {
        SearchStops(cfg, u.store, req, cur, Next(k, n));
      }
    }
  }

  /** Block j was attempted by a search that went from k and stopped at `stop`. */
  predicate Attempted(k: nat, j: nat, stop: nat, cur: nat, n: nat)
    requires k < n && j < n && stop < n
  {
    Ahead(k, j, stop, n) || (j == stop && stop != cur)
  }

  /** One step around the ring, short of the stop. */
  lemma RingStep(k: nat, j: nat, stop: nat, cur: nat, n: nat)
    requires k < n && j < n && cur < n && stop < n && k != cur
    requires stop == cur || Ahead(Next(k, n), stop, cur, n)
    ensures Ahead(k, j, stop, n) <==> j == k || Ahead(Next(k, n), j, stop, n)
    ensures !Ahead(Next(k, n), k, stop, n) && stop != k
    ensures !Ahead(k, cur, stop, n)
  {
  }

  /** What the search does to block j: if it lies before the block where the search stops, it
      does not pass. A block that was attempted is as if it had been attempted alone;
      any other, and `cur` always, is untouched. */
  lemma {:induction false} SearchExact(cfg: Config, s: Store, req: Request, cur: nat, k: nat, j: nat)
    requires Valid(cfg, s) && k < |s.flash| && cur < |s.flash| && j < |s.flash|
    ensures var n, r := |s.flash|, Search(cfg, s, req, cur, k);
            var a := UpdateOne(cfg, j, s.flash[j], s.ram[j], NewRecord(s.ram[cur], req, j));
            && (Ahead(k, j, r.code, n) ==> !Passes(cfg, s, j))
            && (if Attempted(k, j, r.code, cur, n)
                then j != cur && r.store.flash[j] == a.block && r.store.ram[j] == a.record
                else r.store.flash[j] == s.flash[j] && r.store.ram[j] == s.ram[j])
    decreases Distance(k, cur, |s.flash|)
  {
    hide UpdateOne;
    if k != cur {
      var n := |s.flash|;
      var u := UpdateBlock(cfg, s, req, cur, k);
      UpdateOneEffect(cfg, k, s.flash[k], s.ram[k], NewRecord(s.ram[cur], req, k));
      if u.code != 0 {
        var next := Next(k, n);
        var r := Search(cfg, u.store, req, cur, next);
        SearchStops(cfg, u.store, req, cur, next);
        RingStep(k, j, r.code, cur, n);
        SearchExact(cfg, u.store, req, cur, next, j);
      }
    }
  }

  /** Going around the ring from the block after `cur`, `stop` is the first to pass. */
  ghost predicate FirstToPass(cfg: Config, s: Store, cur: nat, stop: nat)
    requires cur < |s.flash| == |s.ram|
  {
    var n := |s.flash|;
    && stop < n && stop != cur && Passes(cfg, s, stop)
    && forall j :: 0 <= j < n && Ahead(Next(cur, n), j, stop, n) ==> !Passes(cfg, s, j)
  }

  /** The record that a request adds on block k of s. */
  ghost function Requested(s: Store, req: Request, k: nat): Btblock
    requires 0 < |s.flash| == |s.ram|
  {
    NewRecord(Anchored(s).ram[Anchor(s)], req, k)
  }

  /** The search within bc_ll_set_partition. */
  ghost function SearchFor(cfg: Config, s: Store, req: Request): (r: Step)
    requires Valid(cfg, s)
    ensures Valid(cfg, r.store) && |r.store.flash| == |s.flash| && 0 <= r.code < |s.flash|
  {
    Search(cfg, Anchored(s), req, Anchor(s), Next(Anchor(s), |s.flash|))
  }

  /** A first block to pass is where the search stops, and then it succeeds. */
  lemma SearchFinds(cfg: Config, s: Store, req: Request)
    requires Valid(cfg, s)
    ensures var r := SearchFor(cfg, s, req);
            if r.code == Anchor(s)
            then forall k :: 0 <= k < |s.flash| && k != Anchor(s) ==> !Passes(cfg, s, k)
            else FirstToPass(cfg, s, Anchor(s), r.code)
  {
    var n, cur, t := |s.flash|, Anchor(s), Anchored(s);
    var start := Next(cur, n);
    SearchStops(cfg, t, req, cur, start);
    var stop := SearchFor(cfg, s, req).code;
    forall k | 0 <= k < n && Ahead(start, k, stop, n) ensures !Passes(cfg, s, k) {
      SearchExact(cfg, t, req, cur, start, k);
    }
  }

  /** bc_ll_set_partition succeeds exactly if some block other than the current one passes. */
  lemma SetPartitionSucceeds(cfg: Config, s: Store, req: Request)
    requires Valid(cfg, s)
    ensures var code := SetPartition(cfg, s, req).code;
            && (code == 0 || code == -1)
            && (code == 0 <==> exists k :: 0 <= k < |s.flash| && k != Anchor(s) && Passes(cfg, s, k))
            && (code == 0 <==> SearchFor(cfg, s, req).code != Anchor(s))
  {
    SearchFinds(cfg, s, req);
  }

  /** After the search the flash keeps its contents: what follows only reads. */
  lemma SetPartitionAfterSearch(cfg: Config, s: Store, req: Request)
    requires Valid(cfg, s)
    ensures var u, r := SearchFor(cfg, s, req), SetPartition(cfg, s, req).store;
            SameFlash(u.store.flash, r.flash) && OnlyRead(u.store.flash, u.store.trace, r.trace)
  {
    var u := SearchFor(cfg, s, req);
    if u.code != Anchor(s) {
      RereadEffect(cfg, u.store);
    }
  }

  /** What the search leaves on block j. */
  lemma SearchOnFlash(cfg: Config, s: Store, req: Request, j: nat)
    requires Valid(cfg, s) && j < |s.flash|
    ensures var n, cur, r := |s.flash|, Anchor(s), SearchFor(cfg, s, req);
            var b, a := s.flash[j], r.store.flash[j];
            && (j == r.code != cur ==>
                  a.page == PageImage(Requested(s, req, j), cfg.ioBytes) && a.erases == b.erases + 1)
            && (!Attempted(Next(cur, n), j, r.code, cur, n) ==> a == b)
            && b.erases <= a.erases <= b.erases + 1
  {
    var n, cur, t := |s.flash|, Anchor(s), Anchored(s);
    var r := SearchFor(cfg, s, req);
    SearchStops(cfg, t, req, cur, Next(cur, n));
    SearchExact(cfg, t, req, cur, Next(cur, n), j);
    UpdateOneEffect(cfg, j, t.flash[j], t.ram[j], NewRecord(t.ram[cur], req, j));
  }

  /** At most one block is the first to pass. */
  lemma FirstToPassIsUnique(cfg: Config, s: Store, cur: nat, i: nat, j: nat)
    requires cur < |s.flash| == |s.ram|
    requires FirstToPass(cfg, s, cur, i) && FirstToPass(cfg, s, cur, j)
    ensures i == j
  {
    assert !Ahead(Next(cur, |s.flash|), i, j, |s.flash|);
    assert !Ahead(Next(cur, |s.flash|), j, i, |s.flash|);
  }

  /** What bc_ll_set_partition leaves on block j of the flash: the padded new record on the
      first block to pass in ring order, and what was there before on the current block and
      on every block beyond the first to pass. No block is erased twice. */
  lemma SetPartitionOnFlash(cfg: Config, s: Store, req: Request, j: nat)
    requires Valid(cfg, s) && j < |s.flash|
    ensures var n, cur := |s.flash|, Anchor(s);
            var b, a := s.flash[j], SetPartition(cfg, s, req).store.flash[j];
            && (FirstToPass(cfg, s, cur, j) ==>
                  a.page == PageImage(Requested(s, req, j), cfg.ioBytes) && a.erases == b.erases + 1)
            && (j == cur ==> SameContents(a, b))
            && (forall stop :: FirstToPass(cfg, s, cur, stop) && Ahead(Next(cur, n), stop, j, n) ==> SameContents(a, b))
            && b.erases <= a.erases <= b.erases + 1
  {
    var n, cur := |s.flash|, Anchor(s);
    var code := SearchFor(cfg, s, req).code;
    SearchFinds(cfg, s, req);
    SearchOnFlash(cfg, s, req, j);
    SetPartitionAfterSearch(cfg, s, req);
    forall stop | FirstToPass(cfg, s, cur, stop) ensures stop == code {
      FirstToPassIsUnique(cfg, s, cur, stop, code);
    }
  }

  /** A block known or reported to be bad is never erased or written. */
  lemma BadBlocksAreLeftAlone(cfg: Config, s: Store, req: Request, k: nat)
    requires Valid(cfg, s) && k < |s.flash|
    requires s.ram[k].magic == BAD || ReportedBad(cfg, k, s.flash[k])
    ensures SameContents(s.flash[k], SetPartition(cfg, s, req).store.flash[k])
  {
    var n, cur := |s.flash|, Anchor(s);
    var t, u := Anchored(s), SearchFor(cfg, s, req);
    SearchExact(cfg, t, req, cur, Next(cur, n), k);
    assert k != cur ==> SameContents(s.flash[k], UpdateOne(cfg, k, s.flash[k], s.ram[k], Requested(s, req, k)).block);
    SetPartitionAfterSearch(cfg, s, req);
    assert SameContents(u.store.flash[k], SetPartition(cfg, s, req).store.flash[k]);
  }
}
