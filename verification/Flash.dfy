/** A NAND partition as libmtd presents it: erase blocks, each with the one page that
    bootconfig uses. Erasing sets bits, programming can only clear them. Whether a call
    works is decided by a fault script, so a property that holds for every script holds
    for every pattern of faults. */
module Flash {
  import opened Layout

  datatype Op = IsBad | Read | Erase | Alloc | Program

  /** The return code of one call. When an erase or program call fails, `hit` says which
      bits of the page it nevertheless reached. */
  datatype Reply = Reply(code: int, hit: nat -> bool)

  /** The reply to an operation on a block that has answered a given number of calls. */
  type Faults = (Op, nat, nat) -> Reply

  /** One operation on one block always fails in the same way; everything else works. */
  function OneFault(op: Op, k: nat, hit: nat -> bool): Faults {
    (o: Op, j: nat, n: nat) => if o == op && j == k then Reply(-1, hit) else Reply(0, i => false)
  }

  const EUCLEAN := 117

  datatype EraseBlock = EraseBlock(page: Bits, calls: nat, erases: nat) {

    function Ticked(): EraseBlock {
      this.(calls := calls + 1)
    }

    function AfterErase(r: Reply): (b: EraseBlock)
      ensures |b.page| == |page|
    {
      EraseBlock(seq(|page|, i requires 0 <= i < |page| => page[i] || r.code >= 0 || r.hit(i)),
                 calls + 1, erases + 1)
    }

    function AfterProgram(data: Bits, r: Reply): (b: EraseBlock)
      requires |data| == |page|
      ensures |b.page| == |page|
    {
      EraseBlock(seq(|page|, i requires 0 <= i < |page| => page[i] && (data[i] || (r.code < 0 && !r.hit(i)))),
                 calls + 1, erases)
    }
  }

  function Ones(n: nat): (b: Bits)
    ensures |b| == n
  {
    seq(n, _ => true)
  }

  /** Bitwise AND, which is all that programming without an erase can do. */
  function And(a: Bits, b: Bits): (c: Bits)
    requires |a| == |b|
    ensures |c| == |a|
  {
    seq(|a|, i requires 0 <= i < |a| => a[i] && b[i])
  }

  /** The page buffer that bootconfig hands to mtd_write: 0xFF with the record in front. */
  function PageImage(r: Btblock, ioBytes: nat): (b: Bits)
    requires RECORD_BYTES <= ioBytes
    ensures |b| == 8 * ioBytes
  {
    Encode(r) + Ones(8 * ioBytes - RECORD_BITS)
  }

  lemma DecodePageImage(r: Btblock, ioBytes: nat)
    requires RECORD_BYTES <= ioBytes
    ensures Decode(PageImage(r, ioBytes)) == r
  {
    RecordRoundTrip(r, Ones(8 * ioBytes - RECORD_BITS));
  }

  lemma OnesValue(n: nat)
    ensures FromBits(Ones(n)) == Pow2(n) - 1
  {
    if n > 0 {
      OnesValue(n - 1);
      assert Ones(n)[1..] == Ones(n - 1);
    }
  }

  lemma AllOnes(b: Bits)
    requires forall i :: 0 <= i < |b| ==> b[i]
    ensures b == Ones(|b|) && FromBits(b) == Pow2(|b|) - 1
  {
    assert b == Ones(|b|);
    OnesValue(|b|);
  }

  /** An erased page reads as a record that is neither a boot record nor marked bad. */
  lemma DecodeErased(n: nat)
    requires RECORD_BITS <= n
    ensures Decode(Ones(n)).magic == [0xFF, 0xFF, 0xFF, 0xFF]
  {
    hide Pow2, FromBits;
    Widths();
    var b := Ones(n)[..32];
    AllOnes(b[..8]);
    AllOnes(b[8..16]);
    AllOnes(b[16..24]);
    AllOnes(b[24..]);
  }
}
