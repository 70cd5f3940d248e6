/** The TX descriptor ring: free-running 32-bit counters on the driver side,
    queue-controller pointers on the device side, and the arithmetic that
    relates the two. The unbounded counts the words stand for are ghosts. */
module TxRings {
  import opened Words

  /** Width of the read-pointer field in the queue-controller status word. */
  const QCP_PTR_MASK: nat := 0x3ffff
  /** Largest value one write may add to a queue-controller pointer. */
  const QCP_MAX_ADD: nat := 0x3f
  /** Kernel limit on fragments per socket buffer (4 KB pages). */
  const MAX_SKB_FRAGS: nat := 17
  const XDP_MAX_COMPLETE: nat := 2048

  /** nfp_net_tx_full() on the raw words. */
  predicate TxFull(wrP: u32, rdP: u32, cnt: u32, dcnt: u32) {
    Sub32(wrP, rdP) >= Sub32(cnt, dcnt)
  }

  predicate ShouldStop(wrP: u32, rdP: u32, cnt: u32) {
    TxFull(wrP, rdP, cnt, MAX_SKB_FRAGS + 1)
  }

  predicate ShouldWake(wrP: u32, rdP: u32, cnt: u32) {
    !TxFull(wrP, rdP, cnt, MAX_SKB_FRAGS * 4)
  }

  /** Number of completions the driver derives from two raw pointer values. */
  function Todo(cnt: u32, qcpRdP: u32, savedRdP: u32): u32
    requires cnt > 0
  {
    DIdx(cnt, Sub32(qcpRdP, savedRdP))
  }

  /** The word difference is the true distance, whatever has wrapped. */
  lemma CounterDistance(wr: nat, rd: nat)
    requires rd <= wr < rd + TWO_32
    ensures Sub32(wr % TWO_32, rd % TWO_32) == wr - rd
  {
    Congruent(wr % TWO_32, rd % TWO_32, wr, rd, TWO_32);
    Small(wr - rd, TWO_32);
  }

  lemma AddWraps(n: nat, k: u32)
    ensures Add32(n % TWO_32, k) == (n + k) % TWO_32
  {
    Congruent(n % TWO_32, k, n, k, TWO_32);
  }

  /** The full test is exact in the true counts, as long as the caller asks
      for no more descriptors than the ring has. */
  lemma TxFullExact(wr: nat, rd: nat, cnt: u32, dcnt: u32)
    requires rd <= wr < rd + TWO_32 && dcnt <= cnt
    ensures TxFull(wr % TWO_32, rd % TWO_32, cnt, dcnt) <==> wr - rd + dcnt >= cnt
  {
    CounterDistance(wr, rd);
    Small(cnt - dcnt, TWO_32);
  }

  /** A full test made with an older read counter errs only on the safe side,
      and room it reports is still there when the descriptors are written. */
  lemma StaleReadIsSafe(wr: nat, rdSeen: nat, rd: nat, cnt: u32, dcnt: u32)
    requires rdSeen <= rd <= wr < rdSeen + cnt && dcnt <= cnt
    ensures TxFull(wr % TWO_32, rd % TWO_32, cnt, dcnt) ==> TxFull(wr % TWO_32, rdSeen % TWO_32, cnt, dcnt)
    ensures !TxFull(wr % TWO_32, rdSeen % TWO_32, cnt, dcnt) ==> wr + dcnt - rd < cnt
  {
    TxFullExact(wr, rd, cnt, dcnt);
    TxFullExact(wr, rdSeen, cnt, dcnt);
  }

  /** The masked difference is the true number of new completions: each word
      need only agree with its count modulo the ring size, so neither the
      18-bit hardware field nor a masked software copy loses anything. */
  lemma TodoExact(cnt: u32, qcpRdP: u32, savedRdP: u32, devRd: nat, rd: nat)
    requires RingSize(cnt) && rd <= devRd < rd + cnt
    requires qcpRdP % cnt == devRd % cnt && savedRdP % cnt == rd % cnt
    ensures Todo(cnt, qcpRdP, savedRdP) == devRd - rd
    ensures qcpRdP == savedRdP ==> devRd == rd
  {
    DIdxOfCounter(cnt, qcpRdP - savedRdP);
    Congruent(qcpRdP, savedRdP, devRd, rd, cnt);
    Small(devRd - rd, cnt);
    if qcpRdP == savedRdP {
      SameSlot(devRd, rd, cnt);
    }
  }

  /** Without the one-slot gap the masked difference would be wrong: a ring
      that completes exactly cnt descriptors reports none. */
  lemma TodoNeedsTheGap(cnt: u32, rd: nat)
    requires RingSize(cnt)
    ensures Todo(cnt, (rd + cnt) % TWO_32, rd % TWO_32) == 0
  {
    var k, m := RingSizeFacts(cnt);
    ModOfMod(rd + cnt, cnt, m);
    ModOfMod(rd, cnt, m);
    AddOne(rd, cnt);
    DIdxOfCounter(cnt, (rd + cnt) % TWO_32 - rd % TWO_32);
    Congruent((rd + cnt) % TWO_32, rd % TWO_32, rd, rd, cnt);
    Small(0, cnt);
  }

  function Sum(s: seq<nat>): nat {
    if s == [] then 0 else Sum(s[..|s| - 1]) + s[|s| - 1]
  }

  lemma SumAppend(s: seq<nat>, x: nat)
    ensures Sum(s + [x]) == Sum(s) + x
  {
    assert (s + [x])[..|s|] == s;
  }

  /** _nfp_qcp_ptr_add(): the values written to the pointer register. */
  method QcpPtrAdd(val: nat) returns (writes: seq<nat>)
    ensures Sum(writes) == val
    ensures |writes| >= 1 && forall i :: 0 <= i < |writes| ==> writes[i] <= QCP_MAX_ADD
    ensures forall i :: 0 <= i < |writes| - 1 ==> writes[i] == QCP_MAX_ADD
    ensures |writes| > 1 ==> writes[|writes| - 1] > 0
  {
    writes := [];
    var left: nat := val;
    while left > QCP_MAX_ADD
      invariant Sum(writes) + left == val
      invariant forall i :: 0 <= i < |writes| ==> writes[i] == QCP_MAX_ADD
      invariant writes != [] ==> left > 0
    {
      SumAppend(writes, QCP_MAX_ADD);
      writes := writes + [QCP_MAX_ADD];
      left := left - QCP_MAX_ADD;
    }
    SumAppend(writes, left);
    writes := writes + [left];
  }

  /** struct nfp_net_tx_ring, with software descriptors of type B. */
  class TxRing<B(0)> {
    const cnt: u32
    const txbufs: array<B>

    var wrP: u32
    var rdP: u32
    var qcpRdP: u32
    var wrPtrAdd: u32

    // The device's own pointers, counted without wrap-around.
    var devWr: nat
    var devRd: nat

    // The counts that wrP and rdP stand for.
    ghost var wr: nat
    ghost var rd: nat

    /** Counter invariant while `unaccounted` produced descriptors have not
        been added to wrPtrAdd yet. */
    ghost predicate CountersWith(unaccounted: nat)
      reads this
    {
      && RingSize(cnt) && txbufs.Length == cnt
      && rd <= devRd <= devWr <= wr < rd + cnt
      && wrP == wr % TWO_32 && rdP == rd % TWO_32
      && qcpRdP % cnt == rd % cnt
      && devWr + wrPtrAdd + unaccounted == wr
    }

    ghost predicate Counters()
      reads this
    {
      CountersWith(0)
    }

    constructor (cnt: u32, blank: B)
      requires RingSize(cnt)
      ensures Counters() && this.cnt == cnt && fresh(txbufs) && wr == rd == 0
      ensures forall i :: 0 <= i < txbufs.Length ==> txbufs[i] == blank
    {
      this.cnt := cnt;
      txbufs := new B[cnt](_ => blank);
      wrP, rdP, qcpRdP, wrPtrAdd := 0, 0, 0, 0;
      devWr, devRd := 0, 0;
      wr, rd := 0, 0;
    }

    predicate Full(dcnt: u32)
      reads this
    {
      TxFull(wrP, rdP, cnt, dcnt)
    }

    /** The device fetches and completes descriptors it has been told about;
        the driver reads the pointer register. The 18-bit value is only known
        to agree with the true count modulo the ring size. */
    method ReadDeviceRdPtr() returns (v: u32)
      requires RingSize(cnt) && devRd <= devWr
      modifies this`devRd
      ensures old(devRd) <= devRd <= devWr
      ensures v <= QCP_PTR_MASK && v % cnt == devRd % cnt
    {
      RingSizeBounds(cnt);
      var d: nat :| devRd <= d <= devWr;
      devRd := d;
      assert devRd % cnt < cnt && (devRd % cnt) % cnt == devRd % cnt by {
        Small(devRd % cnt, cnt);
      }
      v :| v <= QCP_PTR_MASK && v % cnt == devRd % cnt;
    }

    /** The device finishes up to k more of the descriptors it knows about. */
    method DeviceFinishes(k: nat)
      requires Counters()
      modifies this`devRd
      ensures Counters()
      ensures devRd == if old(devRd) + k <= devWr then old(devRd) + k else devWr
    {
      devRd := if devRd + k <= devWr then devRd + k else devWr;
    }

    /** nfp_net_tx_xmit_more_flush() */
    method XmitMoreFlush()
      requires Counters()
      modifies this`devWr, this`wrPtrAdd
      ensures Counters() && devWr == wr && wrPtrAdd == 0
    {
      var writes := QcpPtrAdd(wrPtrAdd);
      devWr := devWr + Sum(writes);
      wrPtrAdd := 0;
    }

    /** The pointer part of nfp_net_tx_ring_reset(), with the device. */
    method ResetPointers()
      requires RingSize(cnt) && txbufs.Length == cnt
      modifies this
      ensures Counters() && wr == rd == wrP == rdP == wrPtrAdd == devWr == 0
    {
      RingSizeBounds(cnt);
      wrP, rdP, qcpRdP, wrPtrAdd := 0, 0, 0, 0;
      devWr, devRd := 0, 0;
      wr, rd := 0, 0;
    }

    method AdvanceWr(n: u32)
      requires Counters() && wr + n < rd + cnt
      modifies this`wrP, this`wr
      ensures CountersWith(n) && wr == old(wr) + n
    {
      AddWraps(wr, n);
      wrP := Add32(wrP, n);
      wr := wr + n;
    }

    method AccountKick(n: u32)
      requires CountersWith(n)
      modifies this`wrPtrAdd
      ensures Counters() && wrPtrAdd == old(wrPtrAdd) + n
    {
      RingSizeBounds(cnt);
      Small(wrPtrAdd + n, TWO_32);
      wrPtrAdd := Add32(wrPtrAdd, n);
    }

    /** Step the read counter; the saved device pointer is left to the caller. */
    method AdvanceRd()
      requires RingSize(cnt) && rdP == rd % TWO_32
      modifies this`rdP, this`rd
      ensures rd == old(rd) + 1 && rdP == rd % TWO_32
    {
      AddWraps(rd, 1);
      rdP := Add32(rdP, 1);
      rd := rd + 1;
    }

    /** Consume `todo` completions; the buffers stay where they are. */
    method AdvanceRdBy(todo: nat)
      requires RingSize(cnt) && rdP == rd % TWO_32
      modifies this`rdP, this`rd
      ensures rd == old(rd) + todo && rdP == rd % TWO_32
    {
      var left := todo;
      while left > 0
        invariant rd + left == old(rd) + todo && rdP == rd % TWO_32
      {
        AdvanceRd();
        left := left - 1;
      }
    }

    /** Everything the device has finished since `rd0` is retired, or as much
        of it as one call may. */
    ghost predicate Reclaimed(rd0: nat)
      reads this
    {
      rd == if devRd - rd0 <= XDP_MAX_COMPLETE then devRd else rd0 + XDP_MAX_COMPLETE
    }

    /** nfp_net_xdp_complete(): buffers stay in their slots, only the
        counters move, by at most XDP_MAX_COMPLETE per call. */
    method XdpComplete() returns (doneAll: bool)
      requires Counters()
      modifies this`devRd, this`qcpRdP, this`rdP, this`rd
      ensures Counters() && old(devRd) <= devRd
      ensures Reclaimed(old(rd)) && (doneAll <==> rd == devRd)
    {
      RingSizeBounds(cnt);
      var v := ReadDeviceRdPtr();
      TodoExact(cnt, v, qcpRdP, devRd, rd);
      if v == qcpRdP {
        return true;
      }
      var todo: u32 := Todo(cnt, v, qcpRdP);
      doneAll := todo <= XDP_MAX_COMPLETE;
      Consume(if todo < XDP_MAX_COMPLETE then todo else XDP_MAX_COMPLETE);
    }

    /** The tail of a receive poll on its XDP ring: ring the doorbell, or with
        nothing to announce reclaim slots, unless this poll already has. */
    method FlushOrReclaim(completed: bool) returns (doneAll: bool)
      requires Counters()
      modifies this`devWr, this`wrPtrAdd, this`devRd, this`qcpRdP, this`rdP, this`rd
      ensures Counters() && devWr == wr
      ensures old(devRd) <= devRd
      ensures old(wrPtrAdd) != 0 || completed ==> doneAll && rd == old(rd) && devRd == old(devRd)
      ensures old(wrPtrAdd) == 0 && !completed ==> Reclaimed(old(rd)) && (doneAll <==> rd == devRd)
    {
      hide RingSize, TxRing.Counters;
      if wrPtrAdd != 0 {
        XmitMoreFlush();
        return true;
      }
      if wrP != rdP && !completed {
        InOrder();
        doneAll := XdpComplete();
        InOrder();
        return;
      }
      InOrder();
      return true;
    }

    lemma InOrder()
      requires Counters()
      ensures rd <= devRd <= devWr <= wr && (wrP == rdP ==> rd == wr)
      ensures wrPtrAdd == 0 ==> devWr == wr
    {
      RingSizeBounds(cnt);
      if wrP == rdP {
        SameSlot(wr, rd, TWO_32);
      }
    }

    /** Take `todo` completions off the ring, keeping the saved device
        pointer masked to the ring size. */
    method Consume(todo: u32)
      requires Counters() && rd + todo <= devRd
      modifies this`qcpRdP, this`rdP, this`rd
      ensures Counters() && rd == old(rd) + todo
    {
      RingSizeBounds(cnt);
      qcpRdP := MaskedAdvance(cnt, qcpRdP, todo, rd);
      AdvanceRdBy(todo);
    }
  }

  /** Masking the advanced software copy keeps it congruent to the count. */
  function MaskedAdvance(cnt: u32, saved: u32, todo: u32, ghost rd: nat): (r: u32)
    requires RingSize(cnt) && saved % cnt == rd % cnt && cnt > 0
    ensures r < cnt && r % cnt == (rd + todo) % cnt
  {
    MaskedAdvanceCongruent(cnt, saved, todo, rd);
    DIdx(cnt, Add32(saved, todo))
  }

  lemma MaskedAdvanceCongruent(cnt: u32, saved: u32, todo: u32, rd: nat)
    requires RingSize(cnt) && saved % cnt == rd % cnt && cnt > 0
    ensures DIdx(cnt, Add32(saved, todo)) < cnt
    ensures DIdx(cnt, Add32(saved, todo)) % cnt == (rd + todo) % cnt
  {
    DIdxOfCounter(cnt, saved + todo);
    Congruent(saved, todo, rd, todo, cnt);
    Small((saved + todo) % cnt, cnt);
  }
}
