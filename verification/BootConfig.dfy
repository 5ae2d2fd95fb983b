/** lowlevel.c as it runs: an array of records in RAM that is overwritten in place, and a
    device whose pages are erased and programmed. Each method is proved to compute its
    function in BootStore, or states its result outright. */
module BootConfig {
  import opened Wrappers
  import opened Layout
  import opened Flash
  import opened BootStore

  /** The MTD device behind libmtd. */
  class Nand {
    const faults: Faults
    var blocks: seq<EraseBlock>
    ghost var trace: seq<seq<EraseBlock>>

    constructor (faults: Faults, blocks: seq<EraseBlock>)
      ensures this.faults == faults && this.blocks == blocks && trace == []
    {
      this.faults := faults;
      this.blocks := blocks;
      trace := [];
    }

    method MtdIsBad(k: nat) returns (err: int)
      requires k < |blocks|
      modifies this
      ensures err == faults(IsBad, k, old(blocks[k].calls)).code
      ensures blocks == old(blocks)[k := old(blocks[k]).Ticked()] && trace == old(trace) + [blocks]
    {
      err := faults(IsBad, k, blocks[k].calls).code;
      blocks := blocks[k := blocks[k].Ticked()];
      trace := trace + [blocks];
    }

    method MtdRead(k: nat) returns (err: int, page: Bits)
      requires k < |blocks|
      modifies this
      ensures err == faults(Read, k, old(blocks[k].calls)).code && page == old(blocks[k].page)
      ensures blocks == old(blocks)[k := old(blocks[k]).Ticked()] && trace == old(trace) + [blocks]
    {
      err, page := faults(Read, k, blocks[k].calls).code, blocks[k].page;
      blocks := blocks[k := blocks[k].Ticked()];
      trace := trace + [blocks];
    }

    method MtdErase(k: nat) returns (err: int)
      requires k < |blocks|
      modifies this
      ensures var reply := faults(Erase, k, old(blocks[k].calls));
              && err == reply.code
              && blocks == old(blocks)[k := old(blocks[k]).AfterErase(reply)] && trace == old(trace) + [blocks]
    {
      var reply := faults(Erase, k, blocks[k].calls);
      err := reply.code;
      blocks := blocks[k := blocks[k].AfterErase(reply)];
      trace := trace + [blocks];
    }

    method MtdWrite(k: nat, page: Bits) returns (err: int)
      requires k < |blocks| && |page| == |blocks[k].page|
      modifies this
      ensures var reply := faults(Program, k, old(blocks[k].calls));
              && err == reply.code
              && blocks == old(blocks)[k := old(blocks[k]).AfterProgram(page, reply)]
              && trace == old(trace) + [blocks]
    {
      var reply := faults(Program, k, blocks[k].calls);
      err := reply.code;
      blocks := blocks[k := blocks[k].AfterProgram(page, reply)];
      trace := trace + [blocks];
    }
  }

  /** A call of the library ends the process or returns a code. */
  datatype Outcome = Exit(status: int) | Return(code: int)

  lemma InstallTwice(s: Store, k: nat, a: Attempt, b: Attempt)
    requires k < |s.flash| == |s.ram|
    ensures Install(Install(s, k, a), k, b) == Install(s, k, Then(a, b))
  {
    var t := Install(Install(s, k, a), k, b).trace;
    var u := Install(s, k, Then(a, b)).trace;
    forall i | 0 <= i < |b.steps| ensures s.flash[k := a.block][k := b.steps[i]] == s.flash[k := b.steps[i]] {
    }
    assert t == u;
  }

  class BootConfig {
    const nand: Nand
    const ioBytes: nat       // info.min_io_size
    const pointerBytes: nat  // sizeof( bc->blocks )
    const blocks: array<Btblock>
    var initialised: bool

    ghost function Cfg(): Config {
      Config(nand.faults, ioBytes, pointerBytes)
    }

    ghost function Abs(): Store
      reads nand, blocks
    {
      Store(nand.blocks, blocks[..], nand.trace)
    }

    ghost predicate IsValid()
      reads nand, blocks
    {
      Valid(Cfg(), Abs())
    }

    /** bc_ll_init */
    constructor (nand: Nand, ioBytes: nat, pointerBytes: nat)
      requires RECORD_BYTES <= ioBytes && (pointerBytes == 4 || pointerBytes == 8) && 0 < |nand.blocks|
      requires ValidFlash(Config(nand.faults, ioBytes, pointerBytes), nand.blocks)
      modifies nand
      ensures this.nand == nand && this.ioBytes == ioBytes && this.pointerBytes == pointerBytes && fresh(blocks)
      ensures IsValid()
      ensures var r := Init(Cfg(), Store(old(nand.blocks), [], old(nand.trace)));
              Abs() == r.store && (initialised <==> r.code == 0)
    {
      this.nand := nand;
      this.ioBytes := ioBytes;
      this.pointerBytes := pointerBytes;
      blocks := new Btblock[|nand.blocks|](_ => ZERO_BLOCK);
      initialised := false;
      new;
      assert blocks[..] == seq(|nand.blocks|, _ => ZERO_BLOCK);
      var err := ReadBootConfig();
      initialised := err >= 0;
    }

    method CheckBlock(k: nat) returns (err: int)
      requires IsValid() && k < blocks.Length
      modifies nand, blocks
      ensures var a := CheckOne(Cfg(), k, old(nand.blocks[k]), old(blocks[k]));
              Abs() == Install(old(Abs()), k, a) && err == a.code && IsValid()
    {
      err := nand.MtdIsBad(k);
      if err < 0 {
        err := -1;
      } else if err > 0 {
        blocks[k] := blocks[k].(magic := BAD);
        err := 1;
      }
      assert Abs().trace == Install(old(Abs()), k, CheckOne(Cfg(), k, old(nand.blocks[k]), old(blocks[k]))).trace;
    }

    method ReadBootBlock(k: nat) returns (err: int)
      requires IsValid() && k < blocks.Length
      modifies nand, blocks
      ensures var a := ReadOne(Cfg(), k, old(nand.blocks[k]), old(blocks[k]));
              Abs() == Install(old(Abs()), k, a) && err == a.code && IsValid()
    {
      ghost var s := Abs();
      ghost var c := CheckOne(Cfg(), k, nand.blocks[k], blocks[k]);
      err := CheckBlock(k);
      if err != 0 {
        return;
      }
      ghost var t := Abs();
      ghost var b := ReadOne(Cfg(), k, s.flash[k], s.ram[k]);
      var page;
      err, page := nand.MtdRead(k);
      if err == 0 || -err == EUCLEAN {
        blocks[k] := Decode(page);
      }
      ghost var a := Attempt(b.block, b.record, b.code, [b.block]);
      assert Abs().trace == Install(t, k, a).trace;
      assert Abs() == Install(t, k, a);
      InstallTwice(s, k, c, a);
      err := if -err == EUCLEAN then 0 else if err != 0 then -1 else 0;
    }

    /** Pads the RAM record of block k with 0xFF to a page and writes it. */
    method WritePage(k: nat) returns (err: int)
      requires IsValid() && k < blocks.Length
      modifies nand
      ensures var a := ProgramOne(Cfg(), k, old(nand.blocks[k]), blocks[k]);
              Abs() == Install(old(Abs()), k, a) && err == a.code && IsValid()
    {
      var page := Ones(8 * ioBytes);
      page := Encode(blocks[k]) + page[RECORD_BITS..];
      assert page == PageImage(blocks[k], ioBytes);
      err := nand.MtdWrite(k, page);
      assert Abs().trace == Install(old(Abs()), k, ProgramOne(Cfg(), k, old(nand.blocks[k]), blocks[k])).trace;
    }

    method DoWriteBootBlock(k: nat) returns (err: int)
      requires IsValid() && k < blocks.Length
      modifies nand
      ensures var a := WriteOne(Cfg(), k, old(nand.blocks[k]), blocks[k]);
              Abs() == Install(old(Abs()), k, a) && err == a.code && IsValid()
    {
      ghost var s := Abs();
      err := nand.MtdErase(k);
      ghost var e := Attempt(nand.blocks[k], blocks[k], if err < 0 then 1 else -1, [nand.blocks[k]]);
      assert Abs().trace == Install(s, k, e).trace;
      if err < 0 {
        return 1;
      }
      if nand.faults(Alloc, k, nand.blocks[k].calls).code < 0 {
        return -1;
      }
      ghost var t := Abs();
      ghost var w := ProgramOne(Cfg(), k, nand.blocks[k], blocks[k]);
      err := WritePage(k);
      InstallTwice(s, k, e, w);
      err := if err < 0 then 1 else 0;
    }

    method WriteErrorCheckBootBlock(k: nat) returns (err: int)
      requires IsValid() && k < blocks.Length
      modifies nand, blocks
      ensures var a := WriteCheckedOne(Cfg(), k, old(nand.blocks[k]), old(blocks[k]));
              Abs() == Install(old(Abs()), k, a) && err == a.code && IsValid()
    {
      ghost var s := Abs();
      ghost var c := CheckOne(Cfg(), k, nand.blocks[k], blocks[k]);
      err := CheckBlock(k);
      if err != 0 {
        return;
      }
      ghost var w := WriteOne(Cfg(), k, nand.blocks[k], blocks[k]);
      err := DoWriteBootBlock(k);
      InstallTwice(s, k, c, w);
      if err == 1 {
        ghost var again := CheckOne(Cfg(), k, nand.blocks[k], blocks[k]);
        ghost var t := Abs();
        var bad := CheckBlock(k);
        InstallTwice(s, k, Then(c, w), again);
        assert Then(Then(c, w), again).steps == Then(c, Then(w, again)).steps;
        if bad == 1 {
          return 1;
        }
      }
    }

    method UpdateBootBlock(req: Request, prev: nat, k: nat) returns (err: int)
      requires IsValid() && k < blocks.Length && prev < blocks.Length && prev != k
      modifies nand, blocks
      ensures var r := UpdateBlock(Cfg(), old(Abs()), req, prev, k);
              Abs() == r.store && err == r.code && IsValid()
    {
      if blocks[k].magic == BAD {
        return -1;
      }
      ghost var s := Abs();
      blocks[k] := blocks[prev];
      var info := if req.image == Kernel then blocks[k].kernel else blocks[k].rootfs;
      info := info.(partition := req.partition, nBooted := 1, nHealthy := 1);
      blocks[k] := blocks[k].(magic := BOOT, epoch := (blocks[prev].epoch + 1) % 0x1_0000_0000,
                              timestamp := req.now(k));
      blocks[k] := if req.image == Kernel then blocks[k].(kernel := info) else blocks[k].(rootfs := info);
      assert blocks[k] == NewRecord(s.ram[prev], req, k);
      ghost var a := WriteCheckedOne(Cfg(), k, s.flash[k], blocks[k]);
      ghost var t := Abs();
      err := WriteErrorCheckBootBlock(k);
      assert Install(t, k, a) == Install(s, k, a);
    }

    method ReadBootConfig() returns (err: int)
      requires IsValid()
      modifies nand, blocks
      ensures var r := ReadAll(Cfg(), old(Abs())); Abs() == r.store && err == r.code && IsValid()
    {
      ghost var all := ReadFrom(Cfg(), Abs(), 0);
      var broken := 0;
      var k := 0;
      while k < blocks.Length
        invariant k <= blocks.Length && IsValid()
        invariant var rest := ReadFrom(Cfg(), Abs(), k);
                  all.store == rest.store && all.code == broken + rest.code
      {
        ghost var before := Abs();
        var e := ReadBootBlock(k);
        assert Abs() == Install(before, k, ReadOne(Cfg(), k, before.flash[k], before.ram[k]));
        if e != 0 {
          broken := broken + 1;
        }
        k := k + 1;
      }
      err := if broken == blocks.Length then -1 else 0;
    }

    /** bc_ll_reread */
    method Reread() returns (o: Outcome)
      requires IsValid()
      modifies nand, blocks
      ensures IsValid() && (!initialised ==> o == Exit(1) && Abs() == old(Abs()))
      ensures initialised ==> var r := BootStore.Reread(Cfg(), old(Abs())); Abs() == r.store && o == Return(r.code)
    {
      if !initialised {
        return Exit(1);
      }
      ghost var s := Abs();
      forall k | 0 <= k < blocks.Length {
        blocks[k] := ClearBytes(blocks[k], ClearedBytes(Config(nand.faults, ioBytes, pointerBytes), k, blocks.Length));
      }
      assert blocks[..] == ClearPrefix(Cfg(), s.ram);
      var err := ReadBootConfig();
      o := Return(err);
    }

    /** bc_ll_get_current: the index of the current record, or None for NULL. */
    method GetCurrent() returns (o: Outcome, c: Option<nat>)
      ensures !initialised <==> o == Exit(1)
      ensures initialised ==> (c.Some? ==> IsCurrent(blocks[..], c.value))
      ensures initialised ==>
          (c.None? <==> forall i :: 0 <= i < blocks.Length && Boots(blocks[i]) ==> blocks[i].epoch == 0)
      ensures initialised ==> c == Current(blocks[..])
    {
      o, c := Exit(1), None;
      if !initialised {
        return;
      }
      var idx := 0;
      var epochMax := 0;
      var k := 0;
      while k < blocks.Length
        invariant k <= blocks.Length
        invariant forall j :: 0 <= j < k && Boots(blocks[j]) ==> blocks[j].epoch <= epochMax
        invariant epochMax != 0 ==>
                    && idx < k && Boots(blocks[idx]) && blocks[idx].epoch == epochMax
                    && forall j :: 0 <= j < idx && Boots(blocks[j]) ==> blocks[j].epoch < epochMax
      {
        if blocks[k].magic == BOOT {
          if blocks[k].epoch > epochMax {
            idx, epochMax := k, blocks[k].epoch;
          }
        }
        k := k + 1;
      }
      if epochMax != 0 {
        CurrentIs(blocks[..], idx);
      } else {
        assert forall i :: !IsCurrent(blocks[..], i);
      }
      return Return(0), if epochMax != 0 then Some(idx) else None;
    }

    /** The index to copy from: the current record's, or that of a dummy in the last block. */
    method CurrentOrDummy() returns (cur: nat)
      requires IsValid() && initialised
      modifies blocks
      ensures IsValid() && cur == Anchor(old(Abs())) && Abs() == Anchored(old(Abs()))
    {
      var _, c := GetCurrent();
      if c.Some? {
        return c.value;
      }
      cur := blocks.Length - 1;
      blocks[cur] := ZERO_BLOCK;
      blocks[cur] := blocks[cur].(kernel := blocks[cur].kernel.(nHealthy := 1, nBooted := 1),
                                  rootfs := blocks[cur].rootfs.(nHealthy := 1, nBooted := 1));
    }

    /** bc_ll_set_partition */
    method SetPartition(image: Image, partition: Word, now: nat -> Word) returns (o: Outcome)
      requires IsValid()
      modifies nand, blocks
      ensures IsValid()
      ensures !initialised || partition > 1 ==> o == Exit(1) && Abs() == old(Abs())
      ensures initialised && partition <= 1 ==>
                var r := BootStore.SetPartition(Cfg(), old(Abs()), Request(image, partition, now));
                Abs() == r.store && o == Return(r.code)
    {
      if !initialised || partition > 1 {
        return Exit(1);
      }
      ghost var s := Abs();
      var req := Request(image, partition, now);
      var cur := CurrentOrDummy();
      var n := blocks.Length;
      ghost var all := Search(Cfg(), Abs(), req, cur, Next(cur, n));
      NextIsModulo(cur, n);
      var k := (cur + 1) % n;
      while k != cur
        invariant 0 <= k < n && IsValid()
        invariant all == Search(Cfg(), Abs(), req, cur, k)
        decreases Distance(k, cur, n)
      {
        ghost var before := Abs();
        var e := UpdateBootBlock(req, cur, k);
        if e == 0 {
          break;
        }
        NextIsModulo(k, n);
        k := (k + 1) % n;
      }
      assert all == Step(Abs(), k);
      if k == cur {
        return Return(-1);
      }
      var _ := Reread();
      return Return(0);
    }

    /** bc_ll_set_kernel_healthy and bc_ll_set_rootfs_healthy */
    method SetHealthy(image: Image, k: nat) returns (o: Outcome)
      requires IsValid() && k < blocks.Length
      modifies nand, blocks
      ensures IsValid() && (!initialised ==> o == Exit(1) && Abs() == old(Abs()))
      ensures initialised ==>
                var r := BootStore.SetHealthy(Cfg(), old(Abs()), image, k); Abs() == r.store && o == Return(r.code)
    {
      if !initialised {
        return Exit(1);
      }
      ghost var s := Abs();
      var code := 0;
      if (if image == Kernel then blocks[k].kernel.nHealthy else blocks[k].rootfs.nHealthy) == 1 {
        blocks[k] := if image == Kernel then blocks[k].(kernel := blocks[k].kernel.(nHealthy := 0))
                     else blocks[k].(rootfs := blocks[k].rootfs.(nHealthy := 0));
        if nand.faults(Alloc, k, nand.blocks[k].calls).code < 0 {
          return Return(-1);
        }
        ghost var t := Abs();
        ghost var w := ProgramOne(Cfg(), k, nand.blocks[k], blocks[k]);
        var err := WritePage(k);
        assert Install(t, k, w) == Install(s, k, w);
        code := if err < 0 then 1 else 0;
      }
      return Return(code);
    }
  }
}
