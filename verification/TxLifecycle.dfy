/** Life of a transmitted socket buffer: nfp_net_tx(), nfp_net_tx_complete()
    and nfp_net_tx_ring_reset() over one TX ring and its stack queue.
    A ledger of live DMA mappings and unfreed buffers stands for the kernel;
    its services demand that what is undone is still live, so every
    verified caller undoes each thing at most once, and the invariant pins
    the ledger to exactly what the ring holds, so nothing is forgotten. */
module TxLifecycle {
  import opened Words
  import opened TxRings

  datatype Skb = Skb(id: nat, headLen: nat, fragLens: seq<nat>, headroom: nat, xmitMore: bool)

  /** What was mapped, and so what must be passed back when unmapping. */
  datatype Mapping = Single(len: nat) | Page(len: nat)

  /** struct nfp_net_tx_buf */
  datatype TxBuf = TxBuf(skb: Option<Skb>, dma: nat, fidx: int)

  const ZEROED := TxBuf(None, 0, 0)
  const CLEARED := TxBuf(None, 0, -2)

  // --- The kernel's view -----------------------------------------------------

  /** Live DMA mappings and unfreed buffers handed to this ring. */
  class Ledger {
    var mapped: map<nat, Mapping>
    var skbs: set<Skb>
    /** How often dma_map has failed. */
    ghost var failures: nat

    constructor ()
      ensures mapped == map[] && skbs == {} && failures == 0
    {
      mapped, skbs, failures := map[], {}, 0;
    }

    /** dma_map_single() / skb_frag_dma_map(): may fail; a success returns an
        address no live mapping uses. */
    method DmaMap(m: Mapping) returns (h: Option<nat>)
      modifies this`mapped, this`failures
      ensures failures == old(failures) + (if h.None? then 1 else 0)
      ensures h.None? ==> mapped == old(mapped)
      ensures h.Some? ==> h.value !in old(mapped) && mapped == old(mapped)[h.value := m]
    {
      if * {
        failures := failures + 1;
        return None;
      }
      FreshNumber(mapped.Keys);
      var a: nat :| a !in mapped;
      mapped := mapped[a := m];
      return Some(a);
    }

    /** dma_unmap_single() / dma_unmap_page() */
    method DmaUnmap(h: nat, m: Mapping)
      requires h in mapped && mapped[h] == m
      modifies this`mapped
      ensures mapped == old(mapped) - {h}
    {
      mapped := mapped - {h};
    }

    /** The stack hands a buffer to the driver. */
    method Take(s: Skb)
      requires s !in skbs
      modifies this`skbs
      ensures skbs == old(skbs) + {s}
    {
      skbs := skbs + {s};
    }

    method Free(s: Skb)
      requires s in skbs
      modifies this`skbs
      ensures skbs == old(skbs) - {s}
    {
      skbs := skbs - {s};
    }

    /** skb_shinfo(skb)->nr_frags: only a buffer not yet freed may be read. */
    function NrFrags(s: Skb): nat
      requires s in skbs
      reads this
    {
      |s.fragLens|
    }
  }

  // --- Descriptors of a packet -------------------------------------------------

  predicate BufOk(b: TxBuf) {
    b.skb.Some? && -1 <= b.fidx < |b.skb.value.fragLens|
  }

  function MappingOf(b: TxBuf): Mapping
    requires BufOk(b)
  {
    if b.fidx == -1 then Single(b.skb.value.headLen) else Page(b.skb.value.fragLens[b.fidx])
  }

  predicate IsLast(b: TxBuf)
    requires BufOk(b)
  {
    b.fidx == |b.skb.value.fragLens| - 1
  }

  /** Head descriptor first, then one per fragment, in order. */
  function Descs(skb: Skb, handles: seq<nat>): (d: seq<TxBuf>)
    requires |handles| <= |skb.fragLens| + 1
    ensures |d| == |handles|
    ensures forall i :: 0 <= i < |d| ==> BufOk(d[i]) && d[i] == TxBuf(Some(skb), handles[i], i - 1)
  {
    seq(|handles|, i requires 0 <= i < |handles| => TxBuf(Some(skb), handles[i], i - 1))
  }

  ghost predicate Follows(a: TxBuf, b: TxBuf)
    requires BufOk(a)
  {
    if IsLast(a) then b.fidx == -1 else b.skb == a.skb && b.fidx == a.fidx + 1
  }

  /** Pending descriptors form whole packets, except that the first packet
      may already have lost some of its leading descriptors. */
  ghost predicate Packets(q: seq<TxBuf>) {
    && (forall i :: 0 <= i < |q| ==> BufOk(q[i]))
    && (forall i :: 0 <= i < |q| - 1 ==> Follows(q[i], q[i + 1]))
    && (q != [] ==> IsLast(q[|q| - 1]))
    && (forall i, j :: 0 <= i < j < |q| && q[i].skb == q[j].skb ==> j - i == q[j].fidx - q[i].fidx)
  }

  /** The mappings alive are exactly those of the descriptors, each once. */
  ghost predicate MapsExactly(q: seq<TxBuf>, mapped: map<nat, Mapping>) {
    && (forall i :: 0 <= i < |q| ==> BufOk(q[i]) && q[i].dma in mapped && mapped[q[i].dma] == MappingOf(q[i]))
    && (forall i, j :: 0 <= i < j < |q| ==> q[i].dma != q[j].dma)
    && (forall h :: h in mapped ==> exists i :: 0 <= i < |q| && q[i].dma == h)
  }

  ghost predicate HoldsExactly(q: seq<TxBuf>, skbs: set<Skb>) {
    && (forall i :: 0 <= i < |q| ==> q[i].skb.Some? && q[i].skb.value in skbs)
    && (forall s :: s in skbs ==> exists i :: 0 <= i < |q| && q[i].skb == Some(s))
  }

  ghost predicate Owned(q: seq<TxBuf>, mapped: map<nat, Mapping>, skbs: set<Skb>) {
    Packets(q) && MapsExactly(q, mapped) && HoldsExactly(q, skbs)
  }

  lemma MapsPush(q: seq<TxBuf>, mapped: map<nat, Mapping>, b: TxBuf)
    requires MapsExactly(q, mapped) && BufOk(b) && b.dma !in mapped
    ensures MapsExactly(q + [b], mapped[b.dma := MappingOf(b)])
  {
    var q', m' := q + [b], mapped[b.dma := MappingOf(b)];
    forall h | h in m' ensures exists i :: 0 <= i < |q'| && q'[i].dma == h {
      if h == b.dma {
        assert q'[|q|].dma == h;
      } else {
        var i :| 0 <= i < |q| && q[i].dma == h;
        assert q'[i].dma == h;
      }
    }
  }

  lemma MapsDropLast(q: seq<TxBuf>, mapped: map<nat, Mapping>)
    requires q != [] && MapsExactly(q, mapped)
    ensures MapsExactly(q[..|q| - 1], mapped - {q[|q| - 1].dma})
  {
    var q', m' := q[..|q| - 1], mapped - {q[|q| - 1].dma};
    forall h | h in m' ensures exists i :: 0 <= i < |q'| && q'[i].dma == h {
      var i :| 0 <= i < |q| && q[i].dma == h;
      assert q'[i].dma == h;
    }
  }

  lemma MapsDropFirst(q: seq<TxBuf>, mapped: map<nat, Mapping>)
    requires q != [] && MapsExactly(q, mapped)
    ensures MapsExactly(q[1..], mapped - {q[0].dma})
  {
    var q', m' := q[1..], mapped - {q[0].dma};
    forall h | h in m' ensures exists i :: 0 <= i < |q'| && q'[i].dma == h {
      var i :| 0 <= i < |q| && q[i].dma == h;
      assert q'[i - 1].dma == h;
    }
  }

  lemma PacketsDropFirst(q: seq<TxBuf>)
    requires q != [] && Packets(q)
    ensures Packets(q[1..])
  {
    var q' := q[1..];
    forall i | 0 <= i < |q'| - 1 ensures Follows(q'[i], q'[i + 1]) {
      assert Follows(q[i + 1], q[i + 2]);
    }
  }

  /** The buffer leaves with its last descriptor and not before. */
  lemma HoldsDropFirst(q: seq<TxBuf>, skbs: set<Skb>)
    requires q != [] && Packets(q) && HoldsExactly(q, skbs)
    ensures HoldsExactly(q[1..], if IsLast(q[0]) then skbs - {q[0].skb.value} else skbs)
  {
    var q' := q[1..];
    var skbs' := if IsLast(q[0]) then skbs - {q[0].skb.value} else skbs;
    forall i | 1 <= i < |q| ensures q[i].skb.value in skbs' {
      assert BufOk(q[0]) && BufOk(q[i]);
    }
    forall s | s in skbs' ensures exists i :: 0 <= i < |q'| && q'[i].skb == Some(s) {
      var i :| 0 <= i < |q| && q[i].skb == Some(s);
      if i == 0 {
        assert Follows(q[0], q[1]);
        assert q'[0].skb == Some(s);
      } else {
        assert q'[i - 1].skb == Some(s);
      }
    }
  }

  /** Retiring the oldest descriptor: its mapping goes, and its buffer goes
      exactly when this was the packet's last descriptor. */
  lemma RetireOldest(q: seq<TxBuf>, mapped: map<nat, Mapping>, skbs: set<Skb>)
    requires q != [] && Owned(q, mapped, skbs)
    ensures BufOk(q[0]) && q[0].dma in mapped && mapped[q[0].dma] == MappingOf(q[0]) && q[0].skb.value in skbs
    ensures Owned(q[1..], mapped - {q[0].dma}, if IsLast(q[0]) then skbs - {q[0].skb.value} else skbs)
  {
    MapsDropFirst(q, mapped);
    PacketsDropFirst(q);
    HoldsDropFirst(q, skbs);
  }

  lemma HeadIsLive(q: seq<TxBuf>, mapped: map<nat, Mapping>, skbs: set<Skb>)
    requires q != [] && Owned(q, mapped, skbs)
    ensures q[0].skb.Some?
  {
  }

  /** Queueing a complete packet of a buffer the ring does not hold yet. */
  lemma AppendPacket(q: seq<TxBuf>, skbs: set<Skb>, skb: Skb, handles: seq<nat>)
    requires Packets(q) && HoldsExactly(q, skbs) && skb !in skbs && |handles| == |skb.fragLens| + 1
    ensures Packets(q + Descs(skb, handles))
    ensures HoldsExactly(q + Descs(skb, handles), skbs + {skb})
  {
    var q' := q + Descs(skb, handles);
    forall i | 0 <= i < |q'| - 1 ensures BufOk(q'[i]) && Follows(q'[i], q'[i + 1]) {
      if i < |q| - 1 {
        assert Follows(q[i], q[i + 1]);
      }
    }
    AppendHolds(q, skbs, skb, handles);
  }

  lemma AppendHolds(q: seq<TxBuf>, skbs: set<Skb>, skb: Skb, handles: seq<nat>)
    requires HoldsExactly(q, skbs) && 1 <= |handles| <= |skb.fragLens| + 1
    ensures HoldsExactly(q + Descs(skb, handles), skbs + {skb})
  {
    var q' := q + Descs(skb, handles);
    forall s | s in skbs + {skb} ensures exists i :: 0 <= i < |q'| && q'[i].skb == Some(s) {
      if s == skb {
        assert q'[|q|].skb == Some(s);
      } else {
        var i :| 0 <= i < |q| && q[i].skb == Some(s);
        assert q'[i].skb == Some(s);
      }
    }
  }

  // --- The ring window ---------------------------------------------------------

  /** Slots from `rd` on hold `q` in order; the remaining slots are empty. */
  ghost predicate Window(bufs: seq<TxBuf>, rd: nat, q: seq<TxBuf>) {
    && |bufs| > 0 && |q| <= |bufs|
    && (forall n :: rd <= n < rd + |q| ==> bufs[SlotOf(n, |bufs|)] == q[n - rd])
    && (forall n :: rd + |q| <= n < rd + |bufs| ==> Vacant(bufs[SlotOf(n, |bufs|)]))
  }

  predicate Vacant(b: TxBuf) {
    b.skb.None? && b.dma == 0
  }

  lemma WindowPush(bufs: seq<TxBuf>, rd: nat, q: seq<TxBuf>, b: TxBuf)
    requires Window(bufs, rd, q) && |q| < |bufs|
    ensures Window(bufs[SlotOf(rd + |q|, |bufs|) := b], rd, q + [b])
  {
    OtherSlots(rd + |q|, rd, |bufs|);
  }

  lemma WindowDropLast(bufs: seq<TxBuf>, rd: nat, q: seq<TxBuf>, b: TxBuf)
    requires Window(bufs, rd, q) && q != [] && Vacant(b)
    ensures Window(bufs[SlotOf(rd + |q| - 1, |bufs|) := b], rd, q[..|q| - 1])
  {
    OtherSlots(rd + |q| - 1, rd, |bufs|);
  }

  lemma WindowDropFirst(bufs: seq<TxBuf>, rd: nat, q: seq<TxBuf>, b: TxBuf)
    requires Window(bufs, rd, q) && q != [] && Vacant(b)
    ensures |bufs| > 0 && bufs[SlotOf(rd, |bufs|)] == q[0]
    ensures Window(bufs[SlotOf(rd, |bufs|) := b], rd + 1, q[1..])
  {
    OtherSlots(rd, rd, |bufs|);
    AddOne(rd, |bufs|);
    assert SlotOf(rd + |bufs|, |bufs|) == SlotOf(rd, |bufs|);
  }

  // --- The driver ----------------------------------------------------------------

  function Drop<T>(s: seq<T>, n: int): seq<T> {
    if 0 <= n <= |s| then s[n..] else []
  }

  datatype TxResult = TxOk | TxBusy

  /** One TX ring with the stack queue that feeds it. */
  class TxQueue {
    const ring: TxRing<TxBuf>
    const ledger: Ledger
    var stopped: bool
    /** Descriptors produced and not yet retired, oldest first. */
    ghost var q: seq<TxBuf>

    /** Ring contents and ledger agree with the pending descriptors. */
    ghost predicate Contents()
      reads this, ring, ring.txbufs, ledger
    {
      && RingSize(ring.cnt) && ring.txbufs.Length == ring.cnt
      && ring.wr == ring.rd + |q| < ring.rd + ring.cnt
      && ring.wrP == ring.wr % TWO_32 && ring.rdP == ring.rd % TWO_32
      && Window(ring.txbufs[..], ring.rd, q)
      && Owned(q, ledger.mapped, ledger.skbs)
    }

    ghost predicate Valid()
      reads this, ring, ring.txbufs, ledger
    {
      && ring.Counters() && Contents()
      && (stopped ==> ring.wrPtrAdd == 0)
    }

    /** Too little room for the largest packet the stack may hand over next. */
    ghost predicate NearlyFull()
      reads ring
    {
      ring.wr - ring.rd + MAX_SKB_FRAGS + 1 >= ring.cnt
    }

    /** Room enough to let the stack start again. */
    ghost predicate HasWakeRoom()
      reads ring
    {
      ring.wr - ring.rd + MAX_SKB_FRAGS * 4 < ring.cnt
    }

    constructor (cnt: u32)
      requires RingSize(cnt)
      ensures Valid() && q == [] && !stopped && ring.cnt == cnt
      ensures ledger.mapped == map[] && ledger.skbs == {} && ledger.failures == 0
      ensures fresh(ring) && fresh(ring.txbufs) && fresh(ledger)
    {
      ring := new TxRing(cnt, ZEROED);
      ledger := new Ledger();
      stopped := false;
      q := [];
    }

    /** Unmap one descriptor, release the buffer with its last one, clear
        the slot. */
    method ReleaseSlot(idx: nat)
      requires q != [] && Owned(q, ledger.mapped, ledger.skbs)
      requires idx < ring.txbufs.Length && ring.txbufs[idx] == q[0]
      modifies ring.txbufs, ledger`mapped, ledger`skbs
      ensures ring.txbufs[..] == old(ring.txbufs[..])[idx := CLEARED]
      ensures Owned(q[1..], ledger.mapped, ledger.skbs)
      ensures ledger.mapped == old(ledger.mapped) - {q[0].dma}
      ensures BufOk(q[0])
      ensures ledger.skbs == if IsLast(q[0]) then old(ledger.skbs) - {q[0].skb.value} else old(ledger.skbs)
    {
      hide Owned, Packets, MapsExactly, HoldsExactly;
      RetireOldest(q, ledger.mapped, ledger.skbs);
      var b := ring.txbufs[idx];
      var skb := b.skb.value;
      var nrFrags := ledger.NrFrags(skb);
      if b.fidx == -1 {
        ledger.DmaUnmap(b.dma, Single(skb.headLen));
      } else {
        ledger.DmaUnmap(b.dma, Page(skb.fragLens[b.fidx]));
      }
      if b.fidx == nrFrags as int - 1 {
        ledger.Free(skb);
      }
      ring.txbufs[idx] := CLEARED;
    }

    /** nfp_net_tx_complete(): everything the device has finished is retired. */
    method Complete()
      requires Valid()
      modifies this, ring, ring.txbufs, ledger`mapped, ledger`skbs
      ensures Valid()
      ensures old(ring.devRd) <= ring.devRd && ring.rd == ring.devRd
      ensures q == Drop(old(q), ring.rd - old(ring.rd))
      ensures ring.wr == old(ring.wr) && ring.devWr == old(ring.devWr) && ring.wrPtrAdd == old(ring.wrPtrAdd)
      ensures ring.rd > old(ring.rd) ==> ring.qcpRdP != old(ring.qcpRdP)
      ensures old(ring.wr) == old(ring.rd) ==> ring.qcpRdP == old(ring.qcpRdP)
      ensures stopped <==> old(stopped) && (ring.qcpRdP == old(ring.qcpRdP) || !HasWakeRoom())
    {
      hide Owned, Window, RingSize, HasWakeRoom;
      RingSizeBounds(ring.cnt);
      if ring.wrP == ring.rdP {
        SameSlot(ring.wr, ring.rd, TWO_32);
        return;
      }
      var qcpRdP := ring.ReadDeviceRdPtr();
      TodoExact(ring.cnt, qcpRdP, ring.qcpRdP, ring.devRd, ring.rd);
      if qcpRdP == ring.qcpRdP {
        return;
      }
      var todo: nat := Todo(ring.cnt, qcpRdP, ring.qcpRdP);
      RetireMany(todo);
      ring.qcpRdP := qcpRdP;
      WakeIfRoom();
    }

    /** The end of nfp_net_tx_complete(). */
    method WakeIfRoom()
      requires Contents()
      modifies this`stopped
      ensures Contents() && (stopped <==> old(stopped) && !HasWakeRoom())
    {
      hide Owned, Window, RingSize, TxFull;
      RingSizeBounds(ring.cnt);
      TxFullExact(ring.wr, ring.rd, ring.cnt, MAX_SKB_FRAGS * 4);
      if ShouldWake(ring.wrP, ring.rdP, ring.cnt) {
        if stopped {
          stopped := false;
        }
      }
    }

    /** The completion loop. */
    method RetireMany(count: nat)
      requires Contents() && count <= |q|
      modifies this`q, ring`rdP, ring`rd, ring.txbufs, ledger`mapped, ledger`skbs
      ensures Contents() && q == Drop(old(q), count)
      ensures ring.wr == old(ring.wr)
    {
      hide Owned, Window, RingSize;
      ghost var q0 := q;
      var todo: nat := count;
      while todo > 0
        invariant Contents() && todo <= count <= |q0|
        invariant q == Drop(q0, count - todo)
        invariant ring.wr == old(ring.wr)
        modifies this`q, ring`rdP, ring`rd, ring.txbufs, ledger`mapped, ledger`skbs
      {
        RetireOne();
        todo := todo - 1;
      }
    }

    /** One pass of the completion loop: the read counter steps first, then
        the slot it left behind is read and cleared. */
    method RetireOne()
      requires Contents() && q != []
      modifies this`q, ring`rdP, ring`rd, ring.txbufs, ledger`mapped, ledger`skbs
      ensures Contents() && q == old(q)[1..]
      ensures ring.wr == old(ring.wr)
    {
      hide Owned, Window, SlotOf, RingSize, IsLast, BufOk;
      var idx := DIdx(ring.cnt, ring.rdP);
      DIdxOfCounter(ring.cnt, ring.rd);
      assert idx == SlotOf(ring.rd, ring.cnt) by { SlotOfIs(ring.rd, ring.cnt); }
      WindowDropFirst(ring.txbufs[..], ring.rd, q, CLEARED);
      HeadIsLive(q, ledger.mapped, ledger.skbs);
      ring.AdvanceRd();
      if ring.txbufs[idx].skb.Some? {
        ReleaseSlot(idx);
      }
      q := q[1..];
    }

    /** nfp_net_tx_ring_reset() of a stack ring, with the device stopped: what
        was never transmitted is released and all pointers start over. */
    method Reset()
      requires Valid()
      modifies this`q, ring, ring.txbufs, ledger`mapped, ledger`skbs
      ensures Valid() && q == [] && ring.wr == ring.rd == ring.devWr == 0
      ensures ledger.mapped == map[] && ledger.skbs == {}
    {
      hide Owned, Window, SlotOf, RingSize;
      RingSizeBounds(ring.cnt);
      while ring.rdP != ring.wrP
        invariant Contents()
        decreases |q|
        modifies this`q, ring`rdP, ring`rd, ring`qcpRdP, ring.txbufs, ledger`mapped, ledger`skbs
      {
        ResetOne();
      }
      SameSlot(ring.wr, ring.rd, TWO_32);
      EmptyOwnsNothing(q, ledger.mapped, ledger.skbs);
      EmptyWindow(ring.txbufs[..], ring.rd);
      ring.ResetPointers();
    }

    method ResetOne()
      requires Contents() && ring.rdP != ring.wrP
      modifies this`q, ring`rdP, ring`rd, ring`qcpRdP, ring.txbufs, ledger`mapped, ledger`skbs
      ensures Contents() && |q| < |old(q)|
      ensures ring.wr == old(ring.wr)
    {
      hide Owned, Window, SlotOf, RingSize, IsLast, BufOk;
      var idx := DIdx(ring.cnt, ring.rdP);
      DIdxOfCounter(ring.cnt, ring.rd);
      assert idx == SlotOf(ring.rd, ring.cnt) by { SlotOfIs(ring.rd, ring.cnt); }
      WindowDropFirst(ring.txbufs[..], ring.rd, q, CLEARED);
      ReleaseSlot(idx);
      ring.qcpRdP := Add32(ring.qcpRdP, 1);
      ring.AdvanceRd();
      q := q[1..];
    }

    /** Descriptors written for `skb` beyond the write pointer. */
    ghost predicate Staged(skb: Skb, handles: seq<nat>)
      reads this, ring, ring.txbufs, ledger
    {
      && ring.Counters() && |q| == ring.wr - ring.rd
      && |handles| <= |skb.fragLens| + 1
      && Window(ring.txbufs[..], ring.rd, q + Descs(skb, handles))
      && MapsExactly(q + Descs(skb, handles), ledger.mapped)
      && Packets(q) && skb in ledger.skbs && HoldsExactly(q, ledger.skbs - {skb})
    }

    /** Fill the next slot with a freshly mapped piece of `skb`. */
    method Stage(skb: Skb, ghost handles: seq<nat>, wrIdx: nat, m: Mapping, fidx: int) returns (h: Option<nat>)
      requires Staged(skb, handles) && ring.wr + |handles| < ring.rd + ring.cnt
      requires |handles| <= |skb.fragLens| && fidx == |handles| - 1
      requires wrIdx == SlotOf(ring.wr + |handles|, ring.cnt)
      requires m == MappingOf(TxBuf(Some(skb), 0, fidx))
      modifies ring.txbufs, ledger`mapped, ledger`failures
      ensures ledger.failures == old(ledger.failures) + (if h.None? then 1 else 0)
      ensures h.None? ==> Staged(skb, handles)
      ensures h.Some? ==> Staged(skb, handles + [h.value])
    {
      hide Window, SlotOf, RingSize, MapsExactly, Packets, HoldsExactly, ring.Full;
      h := ledger.DmaMap(m);
      if h.None? {
        return;
      }
      var b := TxBuf(Some(skb), h.value, fidx);
      ghost var d := q + Descs(skb, handles);
      WindowPush(ring.txbufs[..], ring.rd, d, b);
      MapsPush(d, old(ledger.mapped), b);
      DescsSnoc(skb, handles, h.value);
      assert d + [b] == q + Descs(skb, handles + [h.value]);
      ring.txbufs[wrIdx] := b;
    }

    /** Undo the newest staged descriptor. */
    method Unstage(skb: Skb, ghost handles: seq<nat>, wrIdx: nat, m: Mapping)
      requires Staged(skb, handles) && handles != []
      requires wrIdx == SlotOf(ring.wr + |handles| - 1, ring.cnt)
      requires m == MappingOf(TxBuf(Some(skb), 0, |handles| - 2))
      modifies ring.txbufs, ledger`mapped
      ensures Staged(skb, handles[..|handles| - 1])
    {
      hide Window, SlotOf, RingSize, MapsExactly, Packets, HoldsExactly;
      ghost var d := q + Descs(skb, handles);
      NewestStaged(ring.txbufs[..], ring.rd, d, ledger.mapped);
      WindowDropLast(ring.txbufs[..], ring.rd, d, CLEARED);
      MapsDropLast(d, ledger.mapped);
      assert d[..|d| - 1] == q + Descs(skb, handles[..|handles| - 1]);
      ledger.DmaUnmap(ring.txbufs[wrIdx].dma, m);
      ring.txbufs[wrIdx] := CLEARED;
    }

    /** Map the head and every fragment; a failure at any point undoes what
        this call has mapped and clears its slots. */
    method FillDescriptors(skb: Skb) returns (ok: bool, ghost handles: seq<nat>)
      requires Staged(skb, []) && ring.wr + |skb.fragLens| + 1 < ring.rd + ring.cnt
      modifies ring.txbufs, ledger`mapped, ledger`failures
      ensures ledger.failures == old(ledger.failures) + (if ok then 0 else 1)
      ensures ok ==> |handles| == |skb.fragLens| + 1
      ensures !ok ==> handles == []
      ensures Staged(skb, handles)
    {
      hide Window, SlotOf, RingSize, MapsExactly, Packets, HoldsExactly;
      var wrIdx := DIdx(ring.cnt, ring.wrP);
      DIdxOfCounter(ring.cnt, ring.wr);
      SlotOfIs(ring.wr, ring.cnt);
      var h := Stage(skb, [], wrIdx, Single(skb.headLen), -1);
      if h.None? {
        return false, [];
      }
      assert [] + [h.value] == [h.value];
      ok, handles := FillFragments(skb, [h.value], wrIdx);
    }

    method FillFragments(skb: Skb, ghost head: seq<nat>, headIdx: nat) returns (ok: bool, ghost handles: seq<nat>)
      requires Staged(skb, head) && |head| == 1 && headIdx == SlotOf(ring.wr, ring.cnt)
      requires ring.wr + |skb.fragLens| + 1 < ring.rd + ring.cnt
      modifies ring.txbufs, ledger`mapped, ledger`failures
      ensures ledger.failures == old(ledger.failures) + (if ok then 0 else 1)
      ensures ok ==> |handles| == |skb.fragLens| + 1
      ensures !ok ==> handles == []
      ensures Staged(skb, handles)
    {
      hide Window, SlotOf, RingSize, MapsExactly, Packets, HoldsExactly;
      ok, handles := true, head;
      var wrIdx: nat := headIdx;
      var f: nat := 0;
      while ok && f < |skb.fragLens|
        invariant f <= |skb.fragLens|
        invariant ok ==> |handles| == f + 1 && wrIdx == SlotOf(ring.wr + f, ring.cnt)
        invariant !ok ==> handles == []
        invariant Staged(skb, handles)
        invariant ledger.failures == old(ledger.failures) + (if ok then 0 else 1)
        decreases |skb.fragLens| - f
        modifies ring.txbufs, ledger`mapped, ledger`failures
      {
        ok, handles, wrIdx := FillFragment(skb, handles, wrIdx, f);
        f := f + 1;
      }
    }

    method FillFragment(skb: Skb, ghost handles: seq<nat>, lastIdx: nat, f: nat)
      returns (ok: bool, ghost handles': seq<nat>, wrIdx: nat)
      requires RingSize(ring.cnt) && Staged(skb, handles)
      requires f < |skb.fragLens| && |handles| == f + 1 && ring.wr + |skb.fragLens| + 1 < ring.rd + ring.cnt
      requires lastIdx == SlotOf(ring.wr + f, ring.cnt)
      modifies ring.txbufs, ledger`mapped, ledger`failures
      ensures ledger.failures == old(ledger.failures) + (if ok then 0 else 1)
      ensures wrIdx == SlotOf(ring.wr + f + 1, ring.cnt)
      ensures Staged(skb, handles')
      ensures if ok then |handles'| == f + 2 else handles' == []
    {
      hide *;
      NextSlot(ring.wr + f, ring.cnt);
      FragmentMapping(skb, f);
      wrIdx := DIdx(ring.cnt, lastIdx + 1);
      var h := Stage(skb, handles, wrIdx, Page(skb.fragLens[f]), f);
      if h.None? {
        Unwind(skb, handles, lastIdx, f);
        return false, [], wrIdx;
      }
      return true, handles + [h.value], wrIdx;
    }

    /** The err_unmap path after `failed` fragments have been mapped. */
    method Unwind(skb: Skb, ghost handles: seq<nat>, lastIdx: int, failed: nat)
      requires Staged(skb, handles) && |handles| == failed + 1
      requires lastIdx == SlotOf(ring.wr + failed, ring.cnt)
      modifies ring.txbufs, ledger`mapped
      ensures Staged(skb, [])
    {
      hide Window, SlotOf, RingSize, MapsExactly, Packets, HoldsExactly;
      var f, wrIdx := failed - 1, lastIdx;
      ghost var left := handles;
      while f >= 0
        invariant -1 <= f && |left| == f + 2 && f < |skb.fragLens|
        invariant wrIdx == SlotOf(ring.wr + f + 1, ring.cnt)
        invariant Staged(skb, left)
        modifies ring.txbufs, ledger`mapped
      {
        Unstage(skb, left, wrIdx, Page(skb.fragLens[f]));
        left := left[..|left| - 1];
        PrevSlot(ring.wr + f + 1, ring.cnt);
        wrIdx := wrIdx - 1;
        if wrIdx < 0 {
          wrIdx := wrIdx + ring.cnt;
        }
        f := f - 1;
      }
      Unstage(skb, left, wrIdx, Single(skb.headLen));
      assert left[..|left| - 1] == [];
    }

    /** nfp_net_tx_ring_stop(), with no completion running in between. */
    method RingStop()
      modifies this`stopped
      ensures stopped == !ShouldWake(ring.wrP, ring.rdP, ring.cnt)
    {
      stopped := true;
      if ShouldWake(ring.wrP, ring.rdP, ring.cnt) {
        stopped := false;
      }
    }

    /** nfp_net_tx(). `handles` is empty unless the packet was queued;
        `refused` says that there is no room for port metadata, or that a
        feature check turns the packet away. */
    method Transmit(skb: Skb, refused: bool) returns (res: TxResult, ghost handles: seq<nat>)
      requires Valid() && skb !in ledger.skbs && |skb.fragLens| <= MAX_SKB_FRAGS
      modifies this, ring, ring.txbufs, ledger
      ensures Valid() && ring.rd == old(ring.rd) && ring.devRd == old(ring.devRd)
      ensures ring.wr == old(ring.wr) + |handles|
      ensures res.TxBusy? <==> old(ring.wr) - ring.rd + |skb.fragLens| + 1 >= ring.cnt
      ensures res.TxBusy? ==> handles == []
      ensures |handles| == 0 || |handles| == |skb.fragLens| + 1
      ensures res.TxOk? ==> (handles == [] <==> refused || ledger.failures != old(ledger.failures))
      ensures q == old(q) + Descs(skb, handles)
      ensures handles == [] ==> ledger.mapped == old(ledger.mapped) && ledger.skbs == old(ledger.skbs)
      ensures handles != [] ==> ledger.skbs == old(ledger.skbs) + {skb}
      ensures stopped <==> old(stopped) || res.TxBusy? || (handles != [] && NearlyFull())
      ensures ring.devWr == if handles != [] && !stopped && skb.xmitMore then old(ring.devWr) else ring.wr
    {
      hide Owned, Window, SlotOf, RingSize, MapsExactly, Packets, HoldsExactly, ShouldStop, ShouldWake, TxFull;
      RingSizeBounds(ring.cnt);
      TxFullExact(ring.wr, ring.rd, ring.cnt, |skb.fragLens| + 1);
      if ring.Full(|skb.fragLens| + 1) {
        stopped := true;
        ring.XmitMoreFlush();
        assert q + Descs(skb, []) == q;
        return TxBusy, [];
      }
      handles := Queue(skb, refused);
      res := TxOk;
    }

    /** nfp_net_tx() once there is room: the packet is queued whole, or
        everything done for it is undone and the buffer freed. */
    method Queue(skb: Skb, refused: bool) returns (ghost handles: seq<nat>)
      requires Valid() && skb !in ledger.skbs && |skb.fragLens| <= MAX_SKB_FRAGS
      requires ring.wr + |skb.fragLens| + 1 < ring.rd + ring.cnt
      modifies this, ring, ring.txbufs, ledger
      ensures Valid() && ring.rd == old(ring.rd) && ring.devRd == old(ring.devRd)
      ensures ring.wr == old(ring.wr) + |handles|
      ensures |handles| == 0 || |handles| == |skb.fragLens| + 1
      ensures handles == [] <==> refused || ledger.failures != old(ledger.failures)
      ensures q == old(q) + Descs(skb, handles)
      ensures handles == [] ==> ledger.mapped == old(ledger.mapped) && ledger.skbs == old(ledger.skbs)
      ensures handles != [] ==> ledger.skbs == old(ledger.skbs) + {skb}
      ensures stopped <==> old(stopped) || (handles != [] && NearlyFull())
      ensures ring.devWr == if handles != [] && !stopped && skb.xmitMore then old(ring.devWr) else ring.wr
    {
      hide Owned, Window, SlotOf, RingSize, MapsExactly, Packets, HoldsExactly, ShouldStop, ShouldWake, TxFull;
      ledger.Take(skb);
      OwnedToStaged(q, ledger.mapped, old(ledger.skbs), skb);
      ghost var mapped0 := ledger.mapped;
      assert q + Descs(skb, []) == q;
      var ok := false;
      handles := [];
      if !refused {
        ok, handles := FillDescriptors(skb);
      }
      if !ok {
        StagedNothing(q, mapped0, ledger.mapped);
        GiveUp(skb);
        return;
      }
      Commit(skb, handles);
    }

    /** The err_flush path: let the device have what earlier packets announced,
        and free the buffer. */
    method GiveUp(skb: Skb)
      requires Staged(skb, [])
      modifies ring`wrPtrAdd, ring`devWr, ledger`skbs
      ensures Valid() && ring.devWr == ring.wr
      ensures ledger.skbs == old(ledger.skbs) - {skb}
    {
      hide Window, SlotOf, RingSize, MapsExactly, Packets, HoldsExactly, ShouldStop, ShouldWake, TxFull;
      assert q + Descs(skb, []) == q;
      ring.XmitMoreFlush();
      ledger.Free(skb);
    }

    /** The ring half of nfp_ctrl_tx_one(): a single-descriptor message goes
        out at once, with no stack queue to stop. */
    method TransmitSingle(skb: Skb) returns (ok: bool, ghost handles: seq<nat>)
      requires Valid() && ring.wrPtrAdd == 0 && skb !in ledger.skbs && skb.fragLens == []
      requires ring.wr + 1 < ring.rd + ring.cnt
      modifies this`q, ring`wrP, ring`wr, ring`wrPtrAdd, ring`devWr, ring.txbufs, ledger
      ensures Valid() && ring.wrPtrAdd == 0
      ensures |handles| == if ok then 1 else 0
      ensures ledger.failures == old(ledger.failures) + (if ok then 0 else 1)
      ensures q == if ok then old(q) + [TxBuf(Some(skb), handles[0], -1)] else old(q)
      ensures ring.wr == old(ring.wr) + |handles|
    {
      hide Owned, Window, SlotOf, RingSize, MapsExactly, Packets, HoldsExactly;
      ledger.Take(skb);
      OwnedToStaged(q, ledger.mapped, old(ledger.skbs), skb);
      DIdxOfCounter(ring.cnt, ring.wr);
      SlotOfIs(ring.wr, ring.cnt);
      var h := Stage(skb, [], DIdx(ring.cnt, ring.wrP), Single(skb.headLen), -1);
      if h.None? {
        StagedNothing(q, old(ledger.mapped), ledger.mapped);
        ledger.Free(skb);
        return false, [];
      }
      handles := [] + [h.value];
      OneDescriptor(skb, handles);
      PublishSingle(skb, handles);
      ok := true;
    }

    method PublishSingle(skb: Skb, ghost handles: seq<nat>)
      requires Staged(skb, handles) && skb.fragLens == [] && |handles| == 1
      requires ring.wr + 1 < ring.rd + ring.cnt
      modifies this`q, ring`wrP, ring`wr, ring`wrPtrAdd, ring`devWr
      ensures Valid() && ring.wrPtrAdd == 0
      ensures q == old(q) + Descs(skb, handles) && ring.wr == old(ring.wr) + 1
    {
      hide Owned, Window, SlotOf, RingSize, MapsExactly, Packets, HoldsExactly;
      AppendPacket(q, ledger.skbs - {skb}, skb, handles);
      StagedToOwned(q + Descs(skb, handles), ledger.mapped, ledger.skbs, skb);
      ring.AdvanceWr(1);
      q := q + Descs(skb, handles);
      ring.AccountKick(1);
      ring.XmitMoreFlush();
    }

    /** Publish the staged packet: move the write pointer, stop the queue if
        it is filling up, ring the doorbell unless more is announced. */
    method Commit(skb: Skb, ghost handles: seq<nat>)
      requires Staged(skb, handles) && |handles| == |skb.fragLens| + 1 <= MAX_SKB_FRAGS + 1
      requires ring.wr + |handles| < ring.rd + ring.cnt
      requires stopped ==> ring.wrPtrAdd == 0
      modifies this, ring`wrP, ring`wr, ring`wrPtrAdd, ring`devWr
      ensures Valid() && q == old(q) + Descs(skb, handles) && ring.wr == old(ring.wr) + |handles|
      ensures stopped <==> old(stopped) || NearlyFull()
      ensures ring.devWr == if !stopped && skb.xmitMore then old(ring.devWr) else ring.wr
    {
      hide Owned, Window, SlotOf, RingSize, MapsExactly, Packets, HoldsExactly;
      RingSizeBounds(ring.cnt);
      var n := |skb.fragLens| + 1;
      AppendPacket(q, ledger.skbs - {skb}, skb, handles);
      StagedToOwned(q + Descs(skb, handles), ledger.mapped, ledger.skbs, skb);
      ring.AdvanceWr(n);
      q := q + Descs(skb, handles);
      TxFullExact(ring.wr, ring.rd, ring.cnt, MAX_SKB_FRAGS + 1);
      TxFullExact(ring.wr, ring.rd, ring.cnt, MAX_SKB_FRAGS * 4);
      if ShouldStop(ring.wrP, ring.rdP, ring.cnt) {
        RingStop();
      }
      ring.AccountKick(n);
      if !skb.xmitMore || stopped {
        ring.XmitMoreFlush();
      }
    }
  }

  lemma OneDescriptor(skb: Skb, handles: seq<nat>)
    requires |handles| == 1
    ensures Descs(skb, handles) == [TxBuf(Some(skb), handles[0], -1)]
  {
  }

  // --- Runs ------------------------------------------------------------------------

  /** Between the driver's operations the device finishes up to k more of the
      descriptors it has been told about. */
  datatype Op = OpTransmit(skb: Skb, refused: bool) | OpComplete | OpReset | OpDevice(k: nat)

  /** What the ring has pending and the kernel has handed out at one moment,
      whether the stack queue is stopped, how many of the pending descriptors
      the device has not been told about, and how many it has finished. */
  datatype Moment = Moment(
    q: seq<TxBuf>, mapped: map<nat, Mapping>, skbs: set<Skb>, failures: nat,
    stopped: bool, unannounced: nat, finished: nat)

  ghost function Now(t: TxQueue): Moment
    requires t.ring.devWr <= t.ring.wr && t.ring.rd <= t.ring.devRd
    reads t, t.ring, t.ledger
  {
    Moment(t.q, t.ledger.mapped, t.ledger.skbs, t.ledger.failures, t.stopped,
           t.ring.wr - t.ring.devWr, t.ring.devRd - t.ring.rd)
  }

  /** The stack hands over only buffers that are not with the driver already,
      and within the kernel's limit. */
  predicate MayTransmit(m: Moment, skb: Skb) {
    skb !in m.skbs && |skb.fragLens| <= MAX_SKB_FRAGS
  }

  /** How one operation on a ring of cnt slots changes what is pending. A
      transmit queues the packet whole behind the others or leaves everything
      as it was, and that only with a reason, and it stops the stack queue
      exactly when the ring is too full for this packet or for the next one;
      a completion takes the oldest, all that the device has finished, and
      starts the queue again if it took something and left enough room, and
      never without such room. */
  ghost predicate Moves(cnt: nat, m: Moment, op: Op, m': Moment) {
    match op
    case OpTransmit(skb, refused) =>
      var n := |skb.fragLens| + 1;
      var full := |m.q| + n >= cnt;
      if !MayTransmit(m, skb) then m' == m
      else if m'.q == m.q then
        && m' == m.(failures := m'.failures, stopped := m.stopped || full, unannounced := 0)
        && (refused || m'.failures != m.failures || full)
      else
        && !refused && m'.failures == m.failures && !full
        && |m'.q| == |m.q| + n && m.q <= m'.q && m'.skbs == m.skbs + {skb}
        && m'.stopped == (m.stopped || |m'.q| + MAX_SKB_FRAGS + 1 >= cnt)
        && m'.unannounced == (if skb.xmitMore && !m'.stopped then m.unannounced + n else 0)
        && m'.finished == m.finished
        && forall i :: |m.q| <= i < |m'.q| ==> m'.q[i] == TxBuf(Some(skb), m'.q[i].dma, i - |m.q| - 1)
    case OpComplete =>
      && m.finished <= |m.q| - |m'.q| <= |m.q| - m.unannounced && m'.finished == 0
      && m'.q == m.q[|m.q| - |m'.q|..] && m'.failures == m.failures
      && (m'.stopped ==> m.stopped && (m'.q == m.q || |m'.q| + MAX_SKB_FRAGS * 4 >= cnt))
      && (m.q == [] || |m'.q| + MAX_SKB_FRAGS * 4 >= cnt ==> m'.stopped == m.stopped)
      && m'.unannounced == m.unannounced
    case OpReset =>
      m' == Moment([], map[], {}, m.failures, m.stopped, 0, 0)
    case OpDevice(k) =>
      && m.unannounced <= |m.q|
      && var known := |m.q| - m.unannounced;
         m' == m.(finished := if m.finished + k <= known then m.finished + k else known)
  }

  /** A run of transmits, completions and resets on a new ring: at every moment
      the live mappings and unfreed buffers are exactly those of the pending
      descriptors. */
  method AnyRun(cnt: u32, ops: seq<Op>) returns (t: TxQueue, ghost trace: seq<Moment>)
    requires RingSize(cnt)
    ensures t.Valid() && |trace| == |ops| + 1
    ensures trace[0] == Moment([], map[], {}, 0, false, 0, 0) && trace[|ops|] == Now(t)
    ensures forall k :: 0 <= k < |ops| ==> Moves(cnt, trace[k], ops[k], trace[k + 1])
    ensures forall k :: 0 <= k <= |ops| ==> Owned(trace[k].q, trace[k].mapped, trace[k].skbs)
  {
    hide Owned, Moves;
    t := new TxQueue(cnt);
    trace := [Now(t)];
    OwnedNow(t);
    for i := 0 to |ops|
      invariant t.Valid() && t.ring.cnt == cnt && |trace| == i + 1
      invariant fresh(t) && fresh(t.ring) && fresh(t.ring.txbufs) && fresh(t.ledger)
      invariant trace[0] == Moment([], map[], {}, 0, false, 0, 0) && trace[i] == Now(t)
      invariant forall k :: 0 <= k < i ==> Moves(cnt, trace[k], ops[k], trace[k + 1])
      invariant forall k :: 0 <= k <= i ==> Owned(trace[k].q, trace[k].mapped, trace[k].skbs)
    {
      OneOp(t, ops[i]);
      OwnedNow(t);
      trace := trace + [Now(t)];
    }
  }

  method OneOp(t: TxQueue, op: Op)
    requires t.Valid()
    modifies t, t.ring, t.ring.txbufs, t.ledger
    ensures t.Valid() && Moves(t.ring.cnt, old(Now(t)), op, Now(t))
  {
    hide Owned, Window, Packets, MapsExactly, HoldsExactly, RingSize;
    match op
    case OpTransmit(skb, refused) =>
      if skb !in t.ledger.skbs && |skb.fragLens| <= MAX_SKB_FRAGS {
        OneTransmit(t, skb, refused);
      }
    case OpComplete => t.Complete();
    case OpReset => t.Reset();
    case OpDevice(k) => t.ring.DeviceFinishes(k);
  }

  method OneTransmit(t: TxQueue, skb: Skb, refused: bool)
    requires t.Valid() && MayTransmit(Now(t), skb)
    modifies t, t.ring, t.ring.txbufs, t.ledger
    ensures t.Valid() && Moves(t.ring.cnt, old(Now(t)), OpTransmit(skb, refused), Now(t))
  {
    hide Owned, Window, Packets, MapsExactly, HoldsExactly, RingSize;
    var res, handles := t.Transmit(skb, refused);
    assert t.q == old(t.q) + Descs(skb, handles);
    assert handles == [] ==> Descs(skb, handles) == [];
  }

  lemma OwnedNow(t: TxQueue)
    requires t.Valid()
    ensures Owned(t.q, t.ledger.mapped, t.ledger.skbs)
  {
  }

  lemma FragmentMapping(skb: Skb, f: nat)
    requires f < |skb.fragLens|
    ensures BufOk(TxBuf(Some(skb), 0, f)) && MappingOf(TxBuf(Some(skb), 0, f)) == Page(skb.fragLens[f])
  {
  }

  lemma EmptyOwnsNothing(q: seq<TxBuf>, mapped: map<nat, Mapping>, skbs: set<Skb>)
    requires q == [] && Owned(q, mapped, skbs)
    ensures mapped == map[] && skbs == {}
  {
    assert mapped.Keys == {};
  }

  /** An empty ring may be re-based anywhere. */
  lemma EmptyWindow(bufs: seq<TxBuf>, rd: nat)
    requires Window(bufs, rd, [])
    ensures Window(bufs, 0, [])
  {
    forall n | 0 <= n < |bufs| ensures Vacant(bufs[SlotOf(n, |bufs|)]) {
      var m := SlotCovered(rd, n, |bufs|);
    }
  }

  lemma NewestStaged(bufs: seq<TxBuf>, rd: nat, d: seq<TxBuf>, mapped: map<nat, Mapping>)
    requires d != [] && Window(bufs, rd, d) && MapsExactly(d, mapped)
    ensures bufs[SlotOf(rd + |d| - 1, |bufs|)] == d[|d| - 1]
    ensures BufOk(d[|d| - 1]) && d[|d| - 1].dma in mapped
    ensures mapped[d[|d| - 1].dma] == MappingOf(d[|d| - 1])
  {
  }

  lemma OwnedToStaged(q: seq<TxBuf>, mapped: map<nat, Mapping>, skbs: set<Skb>, skb: Skb)
    requires Owned(q, mapped, skbs) && skb !in skbs
    ensures q + Descs(skb, []) == q && MapsExactly(q, mapped) && Packets(q)
    ensures skbs + {skb} - {skb} == skbs && HoldsExactly(q, skbs)
  {
  }

  lemma StagedToOwned(q: seq<TxBuf>, mapped: map<nat, Mapping>, skbs: set<Skb>, skb: Skb)
    requires Packets(q) && MapsExactly(q, mapped) && skb in skbs && HoldsExactly(q, skbs - {skb} + {skb})
    ensures Owned(q, mapped, skbs)
  {
    hide Packets, MapsExactly, HoldsExactly;
    assert skbs - {skb} + {skb} == skbs;
  }

  /** The ledger is determined by the descriptors it belongs to. */
  lemma StagedNothing(q: seq<TxBuf>, mapped: map<nat, Mapping>, mapped': map<nat, Mapping>)
    requires MapsExactly(q, mapped) && MapsExactly(q, mapped')
    ensures mapped == mapped'
  {
    forall h ensures h in mapped <==> h in mapped' {
      if h in mapped {
        var i :| 0 <= i < |q| && q[i].dma == h;
      }
      if h in mapped' {
        var i :| 0 <= i < |q| && q[i].dma == h;
      }
    }
    forall h | h in mapped ensures mapped[h] == mapped'[h] {
      var i :| 0 <= i < |q| && q[i].dma == h;
    }
  }

  lemma NextSlot(n: nat, cnt: u32)
    requires RingSize(cnt)
    ensures SlotOf(n, cnt) + 1 < TWO_32
    ensures DIdx(cnt, SlotOf(n, cnt) + 1) == SlotOf(n + 1, cnt)
  {
    RingSizeBounds(cnt);
    var i := SlotOf(n, cnt);
    Small(i, cnt);
    Small(i + 1, TWO_32);
    DIdxOfCounter(cnt, i + 1);
    Congruent(i, 1, n, 1, cnt);
  }

  lemma PrevSlot(n: nat, cnt: nat)
    requires cnt > 0 && n > 0
    ensures SlotOf(n - 1, cnt) == if SlotOf(n, cnt) == 0 then cnt - 1 else SlotOf(n, cnt) - 1
  {
    var q, r := n / cnt, n % cnt;
    if r == 0 {
      assert n - 1 == (q - 1) * cnt + (cnt - 1);
      DivisionIsUnique(n - 1, cnt, q - 1, cnt - 1);
    } else {
      DivisionIsUnique(n - 1, cnt, q, r - 1);
    }
  }

  lemma DescsSnoc(skb: Skb, handles: seq<nat>, h: nat)
    requires |handles| <= |skb.fragLens|
    ensures Descs(skb, handles + [h]) == Descs(skb, handles) + [TxBuf(Some(skb), h, |handles| - 1)]
  {
  }
}
