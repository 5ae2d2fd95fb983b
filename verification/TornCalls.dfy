/** What an erase or program call leaves behind that fails halfway: exactly which bits it must
    have reached, or missed, to leave a record that could be taken for another. */
module TornCalls {
  import opened Layout
  import opened Flash

  /** A bit of the magic that is 0 in "Boot": it is 1 on an erased page. */
  predicate BootZero(i: nat) {
    i < 32 && !EncodeMagic(BOOT)[i]
  }

  lemma FirstBootZero()
    ensures BootZero(0)
  {
  }

  // ---- Program calls ----

  /** A record that is programmed onto an erased page by a call that fails reads as a boot record
      if and only if the call reached every 0 of the magic; and as the record's choice if and
      only if it reached every 0 of the choice. Its epoch is never lower. */
  lemma TornProgram(b: EraseBlock, r: Btblock, ioBytes: nat, reply: Reply)
    requires RECORD_BYTES <= ioBytes && b.page == Ones(8 * ioBytes) && Boots(r) && reply.code < 0
    ensures var d := Decode(b.AfterProgram(PageImage(r, ioBytes), reply).page);
            && (Boots(d) <==> forall i :: BootZero(i) ==> reply.hit(i))
            && (ChoiceOf(d) == ChoiceOf(r) <==> forall i :: 96 <= i < 128 && !Encode(r)[i] ==> reply.hit(i))
            && d.epoch >= r.epoch
  {
    hide EncodeMagic, DecodeMagic, EncodeInfo, DecodeInfo, Pow2, FromBits, ToBits, Encode, Decode;
    var page := b.AfterProgram(PageImage(r, ioBytes), reply).page;
    var code := Encode(r);
    BitsOfRecord(r);
    assert forall i :: 0 <= i < 128 ==> page[i] == (code[i] || !reply.hit(i));
    MagicBits(page, BOOT);
    ChoiceBits(page, r);
    assert page[..32] == code[..32] <==> forall i :: 0 <= i < 32 ==> page[..32][i] == code[..32][i];
    assert forall i :: 0 <= i < 32 ==> page[..32][i] == page[i] && code[..32][i] == code[i];
    assert page[96..128] == code[96..128] <==> forall i :: 0 <= i < 32 ==> page[96..128][i] == code[96..128][i];
    assert forall i :: 96 <= i < 128 ==> page[96..128][i - 96] == page[i] && code[96..128][i - 96] == code[i];
    EpochGrows(page, r);
  }

  lemma BitsOfRecord(r: Btblock)
    requires Boots(r)
    ensures Encode(r)[..32] == EncodeMagic(BOOT)
  {
    hide EncodeMagic, EncodeInfo, ToBits;
  }

  lemma EpochGrows(page: Bits, r: Btblock)
    requires RECORD_BITS <= |page| && forall i :: 32 <= i < 64 ==> Encode(r)[i] ==> page[i]
    ensures Decode(page).epoch >= r.epoch
  {
    hide EncodeMagic, DecodeMagic, EncodeInfo, DecodeInfo, Pow2, FromBits, ToBits;
    Widths();
    FromToBits(r.epoch, 32);
    assert Encode(r)[32..64] == ToBits(r.epoch, 32);
    FromBitsGrows(Encode(r)[32..64], page[32..64]);
  }

  // ---- Erase calls ----

  predicate SameRank(a: Btblock, b: Btblock) {
    a.magic == b.magic && a.epoch == b.epoch
  }

  /** A page that is erased by a call that fails reads as a boot record if and only if the call
      reached no 0 of the magic and reached all of its 1s that were not there; and it keeps
      its magic and its epoch if and only if the call reached no 0 of them. */
  lemma TornErase(b: EraseBlock, reply: Reply)
    requires RECORD_BITS <= |b.page| && reply.code < 0
    ensures var d := Decode(b.AfterErase(reply).page);
            && (Boots(d) <==> forall i :: 0 <= i < 32 ==> (b.page[i] || reply.hit(i)) == !BootZero(i))
            && (SameRank(d, Decode(b.page)) <==> forall i :: 0 <= i < 64 && reply.hit(i) ==> b.page[i])
  {
    hide EncodeMagic, Decode;
    var page, r := b.AfterErase(reply).page, Decode(b.page);
    assert forall i :: 0 <= i < 64 ==> page[i] == (b.page[i] || reply.hit(i));
    MagicBits(page, BOOT);
    assert forall i :: 0 <= i < 32 ==> page[..32][i] == page[i] && EncodeMagic(BOOT)[i] == !BootZero(i);
    RankBits(page, b.page);
  }

  lemma RankBits(a: Bits, b: Bits)
    requires RECORD_BITS <= |a| && RECORD_BITS <= |b|
    ensures SameRank(Decode(a), Decode(b)) <==> forall i :: 0 <= i < 64 ==> a[i] == b[i]
  {
    hide EncodeMagic, Decode, Encode;
    var r := Decode(b);
    MagicBits(a, r.magic);
    MagicBits(b, r.magic);
    EpochBits(a, r);
    EpochBits(b, r);
    assert forall i :: 0 <= i < 32 ==> a[..32][i] == a[i] && b[..32][i] == b[i];
    assert forall i :: 32 <= i < 64 ==> a[32..64][i - 32] == a[i] && b[32..64][i - 32] == b[i];
  }

  // ---- Faults that do no harm ----

  /** A failing erase that reached some 0 of the magic, or neither magic nor epoch. */
  ghost predicate TameErase(r: Reply) {
    r.code < 0 ==> (exists i :: BootZero(i) && r.hit(i)) || (forall i :: 0 <= i < 64 ==> !r.hit(i))
  }

  /** A failing program that missed some 0 of the magic, or reached all of the choice. */
  ghost predicate TameProgram(r: Reply) {
    r.code < 0 ==> (exists i :: BootZero(i) && !r.hit(i)) || (forall i :: 96 <= i < 128 ==> r.hit(i))
  }

  ghost predicate TameFaults(faults: Faults) {
    forall k, n :: TameErase(faults(Erase, k, n)) && TameProgram(faults(Program, k, n))
  }

  /** A call that fails reached all of the page or none of it. */
  ghost predicate WholeOrNothing(r: Reply) {
    r.code < 0 ==> (forall i :: r.hit(i)) || (forall i :: !r.hit(i))
  }

  ghost predicate AtomicFaults(faults: Faults) {
    forall k, n :: WholeOrNothing(faults(Erase, k, n)) && WholeOrNothing(faults(Program, k, n))
  }

  lemma AtomicIsTame(faults: Faults)
    requires AtomicFaults(faults)
    ensures TameFaults(faults)
  {
    FirstBootZero();
    hide BootZero;
    forall k, n ensures TameErase(faults(Erase, k, n)) && TameProgram(faults(Program, k, n)) {
      assert WholeOrNothing(faults(Erase, k, n)) && WholeOrNothing(faults(Program, k, n));
    }
  }

  /** After a tame erase there is nothing to boot, or what was there ranks as before. */
  lemma TameEraseSettles(b: EraseBlock, reply: Reply)
    requires RECORD_BITS <= |b.page| && TameErase(reply)
    ensures var d := Decode(b.AfterErase(reply).page); !Boots(d) || SameRank(d, Decode(b.page))
    ensures reply.code >= 0 ==> b.AfterErase(reply).page == Ones(|b.page|) && !Boots(Decode(b.AfterErase(reply).page))
  {
    hide Decode, EncodeMagic;
    if reply.code < 0 {
      TornErase(b, reply);
      if i: nat :| BootZero(i) && reply.hit(i) {
        assert (b.page[i] || reply.hit(i)) != !BootZero(i);
      }
    } else {
      assert b.AfterErase(reply).page == Ones(|b.page|);
      DecodeErased(|b.page|);
    }
  }

  /** After a tame program of an erased page there is nothing to boot, or the new choice. */
  lemma TameProgramSettles(b: EraseBlock, r: Btblock, ioBytes: nat, reply: Reply)
    requires RECORD_BYTES <= ioBytes && b.page == Ones(8 * ioBytes) && Boots(r) && TameProgram(reply)
    ensures var d := Decode(b.AfterProgram(PageImage(r, ioBytes), reply).page);
            !Boots(d) || ChoiceOf(d) == ChoiceOf(r)
  {
    hide Decode, Encode, BootZero;
    if reply.code < 0 {
      TornProgram(b, r, ioBytes, reply);
    } else {
      assert b.AfterProgram(PageImage(r, ioBytes), reply).page == PageImage(r, ioBytes);
      DecodePageImage(r, ioBytes);
    }
  }
}
