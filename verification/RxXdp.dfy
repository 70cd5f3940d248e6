/** The receive path: nfp_net_rx() with its XDP transmit exchange,
    nfp_net_rx_give_one(), and the allocation, reset and release of the
    ring's buffers. */
module RxXdp {
  import opened Words
  import opened TxRings
  import opened RxBuffers

  const NFP_NET_FL_BATCH: nat := 16

  function OneRefEach(live: map<nat, nat>): map<nat, nat> {
    map f | f in live :: 1
  }

  /** Pages and their DMA mappings, as the driver owns them. */
  class PagePool {
    /** Page fragments mapped for receive, with their bus addresses. */
    var live: map<nat, nat>
    /** References held on each fragment's page. */
    var refs: map<nat, nat>
    /** Fragments that an skb has been built on and that is still the driver's. */
    var skbs: set<nat>
    /** Buffers handed to the stack, in order, and how often AllocOne() failed. */
    ghost var passed: seq<RxBuf>
    ghost var failures: nat

    constructor ()
      ensures live == map[] && refs == map[] && skbs == {} && passed == [] && failures == 0
    {
      live, refs, skbs, passed, failures := map[], map[], {}, [], 0;
    }

    /** Each mapped fragment has one reference, and no other page is held. */
    ghost predicate Settled()
      reads this`live, this`refs, this`skbs
    {
      SettledBut({})
    }

    /** Likewise, while skbs built on some of them are still about. */
    ghost predicate SettledBut(built: set<nat>)
      reads this`live, this`refs, this`skbs
    {
      refs == OneRefEach(live) && skbs == built
    }

    /** build_skb(): the skb takes over the reference to the page. */
    method BuildSkb(f: nat)
      requires f in refs && f !in skbs
      modifies this`skbs
      ensures skbs == old(skbs) + {f}
    {
      skbs := skbs + {f};
    }

    /** dev_kfree_skb_any(): the skb drops its reference to the page. */
    method FreeSkb(f: nat)
      requires f in skbs && f in refs && refs[f] >= 1
      requires refs[f] == 1 ==> f !in live
      modifies this`skbs, this`refs
      ensures skbs == old(skbs) - {f}
      ensures refs == if old(refs)[f] == 1 then old(refs) - {f} else old(refs)[f := old(refs)[f] - 1]
    {
      skbs := skbs - {f};
      FreeFrag(f);
    }

    /** nfp_net_rx_alloc_one() / nfp_net_napi_alloc_one(): allocation or
        mapping may fail, and then nothing is left behind. */
    method AllocOne() returns (b: RxBuf)
      modifies this`live, this`refs, this`failures
      ensures failures == old(failures) + (if b.frag == 0 then 1 else 0)
      ensures b.frag == 0 ==> live == old(live) && refs == old(refs)
      ensures b.frag != 0 ==> b.frag !in old(refs) && b.frag !in old(live)
      ensures b.frag != 0 ==> live == old(live)[b.frag := b.dma] && refs == old(refs)[b.frag := 1]
    {
      if * {
        failures := failures + 1;
        return NO_BUF;
      }
      FreshNumber(refs.Keys + live.Keys + {0});
      var f: nat :| f !in refs.Keys + live.Keys + {0};
      refs := refs[f := 1];
      if * {
        FreeFrag(f);
        assert refs == old(refs);
        failures := failures + 1;
        return NO_BUF;
      }
      var dma: nat := *;
      live := live[f := dma];
      return RxBuf(f, dma);
    }

    method Unmap(b: RxBuf)
      requires Mapped(b, live)
      modifies this`live
      ensures live == old(live) - {b.frag}
    {
      live := live - {b.frag};
    }

    method RefInc(f: nat)
      requires f in refs
      modifies this`refs
      ensures refs == old(refs)[f := old(refs)[f] + 1]
    {
      refs := refs[f := refs[f] + 1];
    }

    /** Drop a reference; a page must be unmapped before its last one goes. */
    method FreeFrag(f: nat)
      requires f in refs && refs[f] >= 1
      requires refs[f] == 1 ==> f !in live
      modifies this`refs
      ensures refs == if old(refs)[f] == 1 then old(refs) - {f} else old(refs)[f := old(refs)[f] - 1]
    {
      refs := if refs[f] == 1 then refs - {f} else refs[f := refs[f] - 1];
    }

    /** The end of an skb whose buffer has been replaced: the stack has it, or
        it is freed for want of a port. */
    method Deliver(b: RxBuf, reprFound: bool)
      requires b.frag in skbs && b.frag in refs && refs[b.frag] == 1 && b.frag !in live
      modifies this`refs, this`skbs, this`passed
      ensures refs == old(refs) - {b.frag} && skbs == old(skbs) - {b.frag}
      ensures passed == old(passed) + (if reprFound then [b] else [])
    {
      if !reprFound {
        FreeSkb(b.frag);
      } else {
        HandOver(b);
      }
    }

    /** napi_gro_receive(): the stack takes over the skb with the last reference. */
    method HandOver(b: RxBuf)
      requires b.frag in skbs && b.frag in refs && refs[b.frag] == 1 && b.frag !in live
      modifies this`refs, this`skbs, this`passed
      ensures refs == old(refs) - {b.frag} && skbs == old(skbs) - {b.frag} && passed == old(passed) + [b]
    {
      refs, skbs := refs - {b.frag}, skbs - {b.frag};
      passed := passed + [b];
    }
  }

  /** What the XDP program answers; any other value is treated as a drop. */
  datatype XdpAct = XdpPass | XdpTx | XdpDrop | XdpAborted | XdpUnknown

  /** What the environment makes of a received packet: whether its metadata
      is acceptable, whether it skips the driver's XDP program, the program's
      answer, and the outcomes of building the skb and finding its port. */
  datatype Verdict = Verdict(metaOk: bool, skipsXdp: bool, act: XdpAct, skbBuilt: bool, reprFound: bool)

  /** The verdict has a replacement buffer asked for. */
  predicate Allocates(hasXdp: bool, v: Verdict) {
    v.metaOk && (!hasXdp || v.skipsXdp || v.act.XdpPass?) && v.skbBuilt
  }

  /** The verdict sends the packet on to the stack, memory permitting. */
  predicate PassesUp(hasXdp: bool, v: Verdict) {
    Allocates(hasXdp, v) && v.reprFound
  }

  /** The verdict sends the packet back out of the port, room permitting. */
  predicate Bounces(hasXdp: bool, v: Verdict) {
    v.metaOk && hasXdp && !v.skipsXdp && v.act.XdpTx?
  }

  /** What became of a received packet. */
  datatype Fate = ToStack | NoMemory | NoPort | Bounced | RefusedFull | Recycled

  /** One received packet: the buffer it came in, the buffer given to the RX
      ring for it, and its fate. */
  datatype Handled = Handled(b: RxBuf, back: RxBuf, fate: Fate)

  predicate FateFits(hasXdp: bool, v: Verdict, f: Fate) {
    match f
    case ToStack => PassesUp(hasXdp, v)
    case NoMemory => Allocates(hasXdp, v)
    case NoPort => Allocates(hasXdp, v) && !v.reprFound
    case Bounced => Bounces(hasXdp, v)
    case RefusedFull => Bounces(hasXdp, v)
    case Recycled => !Bounces(hasXdp, v) && !Allocates(hasXdp, v)
  }

  /** The packet in buffer `taken` was treated as its verdict asks; a bounced
      packet's buffer is exchanged for `spent`, and one that stays with the
      driver is given back itself. */
  predicate HandledAs(hasXdp: bool, v: Verdict, taken: RxBuf, spent: RxBuf, e: Handled) {
    && FateFits(hasXdp, v, e.fate) && e.b == taken
    && (e.fate.Bounced? ==> e.back == spent)
    && (e.fate.NoMemory? || e.fate.RefusedFull? || e.fate.Recycled? ==> e.back == taken)
  }

  /** Buffers of the packets that met the given fate, in order. */
  function Bufs(h: seq<Handled>, fate: Fate): seq<RxBuf> {
    if h == [] then []
    else Bufs(h[..|h| - 1], fate) + (if h[|h| - 1].fate == fate then [h[|h| - 1].b] else [])
  }

  /** The two rings' buffers with the positions of the next packet, of the
      next free RX slot and of the next XDP transmit slot. */
  datatype Rings = Rings(rx: seq<RxBuf>, rd: nat, wr: nat, tx: seq<RxBuf>, txWr: nat)

  function BufAt(ring: seq<RxBuf>, n: nat): RxBuf {
    if ring == [] then NO_BUF else ring[SlotOf(n, |ring|)]
  }

  function Put(ring: seq<RxBuf>, n: nat, b: RxBuf): (r: seq<RxBuf>)
    ensures |r| == |ring|
  {
    if ring == [] then [] else ring[SlotOf(n, |ring|) := b]
  }

  /** The rings after one more packet: one buffer off the RX ring, one on it,
      and a bounced one in the next transmit slot. */
  function WithOneMore(g: Rings, e: Handled): Rings {
    var g' := g.(rx := Put(g.rx, g.wr, e.back), rd := g.rd + 1, wr := g.wr + 1);
    if e.fate.Bounced? then g'.(tx := Put(g.tx, g.txWr, e.b), txWr := g.txWr + 1) else g'
  }

  function RingsAfter(g: Rings, h: seq<Handled>): Rings {
    if h == [] then g else WithOneMore(RingsAfter(g, h[..|h| - 1]), h[|h| - 1])
  }

  /** The packets of a poll: each is the one then at the head of the RX ring,
      and each is treated as its own verdict asks. */
  ghost predicate HandledInOrder(hasXdp: bool, g: Rings, verdicts: nat -> Verdict, h: seq<Handled>) {
    forall k :: 0 <= k < |h| ==>
      var now := RingsAfter(g, h[..k]);
      HandledAs(hasXdp, verdicts(k), BufAt(now.rx, now.rd), BufAt(now.tx, now.txWr), h[k])
  }

  lemma OneMoreHandled(hasXdp: bool, g: Rings, verdicts: nat -> Verdict, h: seq<Handled>, e: Handled)
    requires HandledInOrder(hasXdp, g, verdicts, h)
    requires var now := RingsAfter(g, h);
      HandledAs(hasXdp, verdicts(|h|), BufAt(now.rx, now.rd), BufAt(now.tx, now.txWr), e)
    ensures HandledInOrder(hasXdp, g, verdicts, h + [e])
    ensures RingsAfter(g, h + [e]) == WithOneMore(RingsAfter(g, h), e)
    ensures forall f :: Bufs(h + [e], f) == Bufs(h, f) + (if e.fate == f then [e.b] else [])
  {
    hide HandledAs, BufAt, WithOneMore;
    var h' := h + [e];
    assert h'[..|h|] == h;
    forall k | 0 <= k < |h'|
      ensures var now := RingsAfter(g, h'[..k]);
        HandledAs(hasXdp, verdicts(k), BufAt(now.rx, now.rd), BufAt(now.tx, now.txWr), h'[k])
    {
      assert h'[..k] == h[..k] && (k == |h| ==> h[..k] == h);
    }
  }

  lemma NothingHandled(hasXdp: bool, g: Rings, verdicts: nat -> Verdict)
    ensures HandledInOrder(hasXdp, g, verdicts, []) && RingsAfter(g, []) == g && forall f :: Bufs([], f) == []
  {
  }

  /** How far a poll moves the positions: one packet each, and one transmit
      slot for every packet that was bounced. */
  lemma {:induction false} PositionsAfter(g: Rings, h: seq<Handled>)
    ensures var g' := RingsAfter(g, h);
      && g'.rd == g.rd + |h| && g'.wr == g.wr + |h| && g'.txWr == g.txWr + |Bufs(h, Bounced)|
      && |g'.rx| == |g.rx| && |g'.tx| == |g.tx|
  {
    if h != [] {
      PositionsAfter(g, h[..|h| - 1]);
    }
  }

  /** Packets leave in the order their buffers lay on the ring: what a poll
      gives back is never taken before what was there when it began. */
  lemma {:induction false} OldestFirst(g: Rings, h: seq<Handled>, n: nat)
    requires g.rx != [] && g.rd <= g.wr <= g.rd + |g.rx| && g.rd + |h| <= n < g.wr
    ensures BufAt(RingsAfter(g, h).rx, n) == BufAt(g.rx, n)
  {
    if h != [] {
      var g1 := RingsAfter(g, h[..|h| - 1]);
      PositionsAfter(g, h[..|h| - 1]);
      OldestFirst(g, h[..|h| - 1], n);
      SlotsApart(n, g1.wr, |g.rx|);
    }
  }

  /** The bounced buffers lie on the XDP ring in the order they came, as far
      as the ring is long. */
  lemma {:induction false} BouncedInOrder(g: Rings, h: seq<Handled>, i: nat)
    requires g.tx != [] && i < |Bufs(h, Bounced)| <= i + |g.tx|
    ensures BufAt(RingsAfter(g, h).tx, g.txWr + i) == Bufs(h, Bounced)[i]
  {
    var h0, e := h[..|h| - 1], h[|h| - 1];
    PositionsAfter(g, h0);
    if i < |Bufs(h0, Bounced)| {
      BouncedInOrder(g, h0, i);
      if e.fate.Bounced? {
        SlotsApart(g.txWr + i, g.txWr + |Bufs(h0, Bounced)|, |g.tx|);
      }
    }
  }

  lemma SlotsApart(n: nat, m: nat, cnt: nat)
    requires n < m < n + cnt
    ensures SlotOf(n, cnt) != SlotOf(m, cnt)
  {
    OtherSlots(m, n, cnt);
  }

  /** struct nfp_net_rx_ring with the device's side of it. */
  class RxRing {
    const cnt: u32
    const rxbufs: array<RxBuf>
    /** Descriptor-done bit of each descriptor. */
    const dd: array<bool>
    var wrP: u32
    var rdP: u32
    ghost var wr: nat
    ghost var rd: nat
    /** Device: free buffers announced to it, packets it has written. */
    var flWr: nat
    var devDone: nat

    constructor (cnt: u32)
      requires RingSize(cnt)
      ensures this.cnt == cnt && rxbufs.Length == cnt == dd.Length && fresh(rxbufs) && fresh(dd)
      ensures wr == rd == wrP == rdP == flWr == devDone == 0
      ensures forall i :: 0 <= i < cnt ==> rxbufs[i] == NO_BUF && !dd[i]
    {
      this.cnt := cnt;
      rxbufs := new RxBuf[cnt](_ => NO_BUF);
      dd := new bool[cnt](_ => false);
      wrP, rdP, flWr, devDone := 0, 0, 0, 0;
      wr, rd := 0, 0;
    }

    ghost predicate Counters()
      reads this, dd
    {
      && RingSize(cnt) && rxbufs.Length == cnt == dd.Length
      && wrP == wr % TWO_32 && rdP == rd % TWO_32
      && rd <= wr < rd + cnt
      && flWr == wr - wr % NFP_NET_FL_BATCH && devDone <= flWr
      && DoneBits(dd[..], rd, wr, devDone)
    }

    /** nfp_net_rx_give_one() */
    method GiveOne(b: RxBuf)
      requires Counters() && rd <= devDone && wr + 1 < rd + cnt
      modifies this`wrP, this`wr, this`flWr, rxbufs, dd
      ensures Counters() && wr == old(wr) + 1
      ensures rxbufs[..] == old(rxbufs[..])[SlotOf(old(wr), cnt) := b]
    {
      hide SlotOf, RingSize;
      var wrIdx := DIdx(cnt, wrP);
      DIdxOfCounter(cnt, wr);
      SlotOfIs(wr, cnt);
      rxbufs[wrIdx] := b;
      GivenBit(dd[..], rd, wr, devDone);
      dd[wrIdx] := false;
      BatchStep(wr, wrP);
      AddWraps(wr, 1);
      wrP := Add32(wrP, 1);
      wr := wr + 1;
      if wrP % NFP_NET_FL_BATCH == 0 {
        flWr := flWr + NFP_NET_FL_BATCH;
      }
    }

    /** Clear the descriptors and start the counters over, with the device. */
    method ResetPointers()
      requires RingSize(cnt) && rxbufs.Length == cnt == dd.Length
      modifies this, dd
      ensures Counters() && wr == rd == devDone == flWr == 0
      ensures forall i :: 0 <= i < dd.Length ==> !dd[i]
    {
      RingSizeBounds(cnt);
      forall i | 0 <= i < dd.Length {
        dd[i] := false;
      }
      wrP, rdP, flWr, devDone := 0, 0, 0, 0;
      wr, rd := 0, 0;
    }

    /** The device writes packets into some of the announced buffers. */
    method DeviceRuns()
      requires Counters() && rd <= devDone
      modifies this`devDone, dd
      ensures Counters() && old(devDone) <= devDone
    {
      hide SlotOf, RingSize;
      var target: nat :| devDone <= target <= flWr;
      while devDone < target
        invariant Counters() && rd <= devDone <= target <= flWr && old(devDone) <= devDone
        modifies this`devDone, dd
      {
        DoneBit(dd[..], rd, wr, devDone);
        DIdxOfCounter(cnt, devDone);
        SlotOfIs(devDone, cnt);
        dd[DIdx(cnt, devDone % TWO_32)] := true;
        devDone := devDone + 1;
      }
    }
  }

  lemma OneRefOf(live: map<nat, nat>, f: nat)
    requires f in live
    ensures f in OneRefEach(live) && OneRefEach(live)[f] == 1
  {
  }

  lemma FreshSettles(live: map<nat, nat>, refs: map<nat, nat>, b: RxBuf, b': RxBuf)
    requires b.frag in live && b'.frag !in live && refs == OneRefEach(live)
    ensures refs[b'.frag := 1] - {b.frag} == OneRefEach((live - {b.frag})[b'.frag := b'.dma])
    ensures |(live - {b.frag})[b'.frag := b'.dma]| == |live|
  {
    ReplaceKeepsCount(live, b.frag, b'.frag, b'.dma);
  }

  /** In the live window a done bit is set exactly for packets the device has
      written; the slot outside the window may hold a stale bit. */
  ghost predicate DoneBits(dd: seq<bool>, rd: nat, wr: nat, devDone: nat) {
    && |dd| > 0
    && forall n :: rd <= n < wr ==> (dd[SlotOf(n, |dd|)] <==> n < devDone)
  }

  lemma GivenBit(dd: seq<bool>, rd: nat, wr: nat, devDone: nat)
    requires DoneBits(dd, rd, wr, devDone) && rd <= wr < rd + |dd| && devDone <= wr
    ensures DoneBits(dd[SlotOf(wr, |dd|) := false], rd, wr + 1, devDone)
  {
    OtherSlots(wr, rd, |dd|);
  }

  lemma DoneBit(dd: seq<bool>, rd: nat, wr: nat, devDone: nat)
    requires DoneBits(dd, rd, wr, devDone) && rd <= devDone < wr <= rd + |dd|
    ensures DoneBits(dd[SlotOf(devDone, |dd|) := true], rd, wr, devDone + 1)
  {
    OtherSlots(devDone, rd, |dd|);
  }

  /** The freelist pointer moves in whole batches, wrap-around included. */
  lemma BatchStep(wr: nat, wrP: u32)
    requires wrP == wr % TWO_32
    ensures Add32(wrP, 1) % NFP_NET_FL_BATCH == (wr + 1) % NFP_NET_FL_BATCH
    ensures (wr + 1) - (wr + 1) % NFP_NET_FL_BATCH
         == wr - wr % NFP_NET_FL_BATCH + (if (wr + 1) % NFP_NET_FL_BATCH == 0 then NFP_NET_FL_BATCH else 0)
  {
    AddWraps(wr, 1);
    ModOfMod(wr + 1, 16, 0x1000_0000);
    NextMultiple(wr);
  }

  lemma NextMultiple(wr: nat)
    ensures (wr + 1) - (wr + 1) % NFP_NET_FL_BATCH
         == wr - wr % NFP_NET_FL_BATCH + (if (wr + 1) % NFP_NET_FL_BATCH == 0 then NFP_NET_FL_BATCH else 0)
  {
    var q, r := wr / 16, wr % 16;
    if r < 15 {
      DivisionIsUnique(wr + 1, 16, q, r + 1);
    } else {
      DivisionIsUnique(wr + 1, 16, q + 1, 0);
    }
  }

  /** One interrupt vector's receive ring with its XDP transmit ring. */
  class RxVec {
    const rx: RxRing
    const xdp: TxRing<RxBuf>
    const hasXdp: bool
    const pool: PagePool
    ghost var place: map<nat, Place>

    ghost function XdpBufs(): seq<RxBuf>
      reads xdp.txbufs
    {
      if hasXdp then xdp.txbufs[..] else []
    }

    ghost predicate Shape()
      reads this, rx, rx.dd, xdp
    {
      && rx.Counters() && xdp.Counters() && rx.rxbufs != xdp.txbufs
      && rx.rd <= rx.devDone
    }

    constructor (rxCnt: u32, txCnt: u32, hasXdp: bool)
      requires RingSize(rxCnt) && RingSize(txCnt)
      ensures rx.cnt == rxCnt && xdp.cnt == txCnt && this.hasXdp == hasXdp && Blank()
      ensures pool.passed == [] && pool.failures == 0
      ensures fresh(rx) && fresh(xdp) && fresh(pool) && fresh(rx.rxbufs) && fresh(rx.dd) && fresh(xdp.txbufs)
    {
      rx := new RxRing(rxCnt);
      xdp := new TxRing(txCnt, NO_BUF);
      this.hasXdp := hasXdp;
      pool := new PagePool();
      place := map[];
    }

    /** Rings allocated, no buffers yet. */
    ghost predicate Blank()
      reads this, rx, rx.dd, rx.rxbufs, xdp, xdp.txbufs, pool
    {
      && Shape() && rx.wr == 0 && xdp.wr == 0
      && pool.live == map[] && pool.refs == map[] && pool.skbs == {}
      && (forall i :: 0 <= i < rx.cnt ==> rx.rxbufs[i] == NO_BUF)
      && (forall j :: 0 <= j < xdp.cnt ==> xdp.txbufs[j] == NO_BUF)
    }

    /** Between packets: one slot of the RX ring is empty. */
    ghost predicate Stocked()
      reads this, rx, rx.dd, rx.rxbufs, xdp, xdp.txbufs, pool`live
    {
      && Shape() && rx.wr == rx.rd + rx.cnt - 1 && |pool.live| == rx.cnt - 1 + |XdpBufs()|
      && Holds(rx.rxbufs[..], rx.rd, rx.wr, XdpBufs(), pool.live, place, Empty)
    }

    /** With the packet in buffer b taken off the ring. */
    ghost predicate Loaded(b: RxBuf)
      reads this, rx, rx.dd, rx.rxbufs, xdp, xdp.txbufs, pool`live
    {
      && Shape() && rx.wr == rx.rd + rx.cnt - 2 && |pool.live| == rx.cnt - 1 + |XdpBufs()|
      && Holds(rx.rxbufs[..], rx.rd, rx.wr, XdpBufs(), pool.live, place, Carries(b))
    }

    ghost predicate Running()
      reads this, rx, rx.dd, rx.rxbufs, xdp, xdp.txbufs, pool
    {
      Stocked() && pool.Settled()
    }

    /** Give the carried buffer to the ring. */
    method GiveBack(b: RxBuf)
      requires Loaded(b)
      modifies this`place, rx`wrP, rx`wr, rx`flWr, rx.rxbufs, rx.dd
      ensures Stocked() && rx.wr == old(rx.wr) + 1
      ensures rx.rxbufs[..] == Put(old(rx.rxbufs[..]), old(rx.wr), b)
    {
      hide SlotOf, RingSize, Holds;
      place := Give(rx.rxbufs[..], rx.rd, rx.wr, XdpBufs(), pool.live, place, b);
      rx.GiveOne(b);
    }

    /** nfp_net_rx_drop() of the carried buffer; with an skb already built on
        it, an extra page reference survives the skb's release. */
    method RxDrop(b: RxBuf, withSkb: bool)
      requires Loaded(b) && pool.SettledBut(if withSkb then {b.frag} else {})
      modifies this`place, rx`wrP, rx`wr, rx`flWr, rx.rxbufs, rx.dd, pool`refs, pool`skbs
      ensures Running() && rx.wr == old(rx.wr) + 1 && pool.refs == old(pool.refs)
      ensures rx.rxbufs[..] == Put(old(rx.rxbufs[..]), old(rx.wr), b)
    {
      hide SlotOf, RingSize, Holds, RxRing.Counters, TxRing.CountersWith, Put, BufAt;
      CarriedIsMapped(rx.rxbufs[..], rx.rd, rx.wr, XdpBufs(), pool.live, place, b);
      if withSkb {
        pool.RefInc(b.frag);
      }
      GiveBack(b);
      if withSkb {
        pool.FreeSkb(b.frag);
      }
    }

    /** nfp_net_tx_xdp_buf(): the received buffer goes out, the spent one in
        its transmit slot comes back to the RX ring. */
    method TxXdpBuf(idx: nat, b: RxBuf, completed: bool) returns (ok: bool, completed': bool)
      requires hasXdp && Loaded(b) && pool.Settled()
      requires idx == SlotOf(rx.rd - 1, rx.cnt) && rx.rxbufs[idx] == b
      modifies this`place, rx`wrP, rx`wr, rx`flWr, rx.rxbufs, rx.dd, pool`refs, pool`skbs
      modifies xdp`devRd, xdp`qcpRdP, xdp`rdP, xdp`rd, xdp`wrP, xdp`wr, xdp`wrPtrAdd, xdp.txbufs
      ensures Running() && rx.wr == old(rx.wr) + 1 && pool.refs == old(pool.refs)
      ensures completed' <==> completed || old(xdp.Full(1))
      ensures completed || !completed' ==> xdp.rd == old(xdp.rd) && xdp.devRd == old(xdp.devRd)
      ensures !completed && completed' ==> xdp.Reclaimed(old(xdp.rd)) && old(xdp.devRd) <= xdp.devRd
      ensures ok <==> old(xdp.wr) + 1 < xdp.rd + xdp.cnt
      ensures !ok ==> completed' && xdp.wr == old(xdp.wr) && xdp.txbufs[..] == old(xdp.txbufs[..])
      ensures !ok ==> rx.rxbufs[..] == Put(old(rx.rxbufs[..]), old(rx.wr), b)
      ensures ok ==> xdp.wr == old(xdp.wr) + 1
      ensures ok ==> xdp.txbufs[..] == Put(old(xdp.txbufs[..]), old(xdp.wr), b)
      ensures ok ==> rx.rxbufs[..] == Put(old(rx.rxbufs[..]), old(rx.wr), old(BufAt(xdp.txbufs[..], xdp.wr)))
      ensures ok ==> forall d :: xdp.rd <= d < old(xdp.wr) ==> SlotOf(d, xdp.cnt) != SlotOf(old(xdp.wr), xdp.cnt)
    {
      hide SlotOf, RingSize, Holds, TxFull, Put, BufAt, PagePool.SettledBut;
      completed' := completed;
      RoomTestExact();
      if xdp.Full(1) {
        if !completed' {
          var _ := xdp.XdpComplete();
          completed' := true;
        }
        RoomTestExact();
        if xdp.Full(1) {
          RxDrop(b, false);
          return false, completed';
        }
      }
      SwapOut(idx, b);
      ok := true;
    }

    lemma RoomTestExact()
      requires xdp.Counters()
      ensures xdp.Full(1) <==> xdp.wr + 1 >= xdp.rd + xdp.cnt
    {
      RingSizeBounds(xdp.cnt);
      TxFullExact(xdp.wr, xdp.rd, xdp.cnt, 1);
    }

    method SwapOut(idx: nat, b: RxBuf)
      requires hasXdp && Loaded(b) && pool.Settled() && !xdp.Full(1)
      requires idx == SlotOf(rx.rd - 1, rx.cnt) && rx.rxbufs[idx] == b
      modifies this`place, rx`wrP, rx`wr, rx`flWr, rx.rxbufs, rx.dd
      modifies xdp`wrP, xdp`wr, xdp`wrPtrAdd, xdp.txbufs
      ensures Running() && rx.wr == old(rx.wr) + 1
      ensures xdp.wr == old(xdp.wr) + 1
      ensures xdp.txbufs[..] == Put(old(xdp.txbufs[..]), old(xdp.wr), b)
      ensures rx.rxbufs[..] == Put(old(rx.rxbufs[..]), old(rx.wr), old(BufAt(xdp.txbufs[..], xdp.wr)))
      ensures forall d :: xdp.rd <= d < old(xdp.wr) ==> SlotOf(d, xdp.cnt) != SlotOf(old(xdp.wr), xdp.cnt)
    {
      hide SlotOf, RingSize, Holds, TxFull;
      RingSizeBounds(rx.cnt);
      RingSizeBounds(xdp.cnt);
      TxFullExact(xdp.wr, xdp.rd, xdp.cnt, 1);
      var wrIdx := DIdx(xdp.cnt, xdp.wrP);
      DIdxOfCounter(xdp.cnt, xdp.wr);
      SlotOfIs(xdp.wr, xdp.cnt);
      OtherSlots(xdp.wr, xdp.rd, xdp.cnt);
      SlotsDiffer(rx.rd - 1, rx.wr, rx.cnt);
      SwapBuffers(idx, wrIdx, b);
      xdp.AdvanceWr(1);
      xdp.AccountKick(1);
    }

    /** The two assignments of the exchange. The slot being given to the RX
        ring is not the slot being received, so the second still reads b. */
    method SwapBuffers(idx: nat, wrIdx: nat, b: RxBuf)
      requires hasXdp && Loaded(b) && wrIdx < xdp.txbufs.Length
      requires idx < rx.rxbufs.Length && idx != SlotOf(rx.wr, rx.cnt) && rx.rxbufs[idx] == b
      modifies this`place, rx`wrP, rx`wr, rx`flWr, rx.rxbufs, rx.dd, xdp.txbufs
      ensures Stocked() && rx.wr == old(rx.wr) + 1
      ensures xdp.txbufs[..] == old(xdp.txbufs[..])[wrIdx := b]
      ensures rx.rxbufs[..] == Put(old(rx.rxbufs[..]), old(rx.wr), old(xdp.txbufs[..])[wrIdx])
    {
      hide SlotOf, RingSize, Holds, DoneBits, TxRing.CountersWith;
      ghost var tx0 := xdp.txbufs[..];
      place := Exchange(rx.rxbufs[..], rx.rd, rx.wr, tx0, pool.live, place, b, wrIdx);
      var spent := xdp.txbufs[wrIdx];
      place := Give(rx.rxbufs[..], rx.rd, rx.wr, tx0[wrIdx := b], pool.live, place, spent);
      rx.GiveOne(spent);
      xdp.txbufs[wrIdx] := rx.rxbufs[idx];
      assert xdp.txbufs[..] == tx0[wrIdx := b];
    }

    /** The tail of nfp_net_rx(): build an skb on the buffer, put a fresh
        buffer on the ring in its place and pass the skb up, or drop. */
    method PassUp(b: RxBuf, skbBuilt: bool, reprFound: bool) returns (ghost e: Handled)
      requires Loaded(b) && pool.Settled()
      modifies this`place, rx`wrP, rx`wr, rx`flWr, rx.rxbufs, rx.dd, pool
      ensures Running() && rx.wr == old(rx.wr) + 1
      ensures |pool.live| == |old(pool.live)|
      ensures rx.rxbufs[..] == Put(old(rx.rxbufs[..]), old(rx.wr), e.back)
      ensures e.b == b && (e.fate.NoMemory? || e.fate.Recycled? ==> e.back == b)
      ensures e.fate.Recycled? <==> !skbBuilt
      ensures skbBuilt ==> e.fate.NoMemory? || (if reprFound then e.fate.ToStack? else e.fate.NoPort?)
      ensures pool.failures == old(pool.failures) + (if e.fate.NoMemory? then 1 else 0)
      ensures pool.passed == old(pool.passed) + (if e.fate.ToStack? then [b] else [])
    {
      hide SlotOf, RingSize, Holds, RxRing.Counters, TxRing.CountersWith, Put, BufAt;
      if !skbBuilt {
        RxDrop(b, false);
        return Handled(b, b, Recycled);
      }
      CarriedIsMapped(rx.rxbufs[..], rx.rd, rx.wr, XdpBufs(), pool.live, place, b);
      pool.BuildSkb(b.frag);
      e := PassSkb(b, reprFound);
    }

    /** The same once the skb is built. */
    method PassSkb(b: RxBuf, reprFound: bool) returns (ghost e: Handled)
      requires Loaded(b) && pool.SettledBut({b.frag})
      modifies this`place, rx`wrP, rx`wr, rx`flWr, rx.rxbufs, rx.dd, pool
      ensures Running() && rx.wr == old(rx.wr) + 1
      ensures |pool.live| == |old(pool.live)|
      ensures rx.rxbufs[..] == Put(old(rx.rxbufs[..]), old(rx.wr), e.back)
      ensures e.b == b && (e.fate.NoMemory? ==> e.back == b)
      ensures e.fate.NoMemory? || (if reprFound then e.fate.ToStack? else e.fate.NoPort?)
      ensures pool.failures == old(pool.failures) + (if e.fate.NoMemory? then 1 else 0)
      ensures pool.passed == old(pool.passed) + (if e.fate.ToStack? then [b] else [])
    {
      hide SlotOf, RingSize, Holds, RxRing.Counters, TxRing.CountersWith, Put, BufAt, OneRefEach;
      CarriedIsMapped(rx.rxbufs[..], rx.rd, rx.wr, XdpBufs(), pool.live, place, b);
      ghost var live0, refs0 := pool.live, pool.refs;
      OneRefOf(live0, b.frag);
      var b' := pool.AllocOne();
      if b'.frag == 0 {
        RxDrop(b, true);
        return Handled(b, b, NoMemory);
      }
      ReplaceBuffer(b, b', live0);
      pool.Deliver(b, reprFound);
      e := Handled(b, b', if reprFound then ToStack else NoPort);
      assert pool.refs == refs0[b'.frag := 1] - {b.frag};
      FreshSettles(live0, refs0, b, b');
    }

    /** Unmap the received buffer and give the new one to the ring. */
    method ReplaceBuffer(b: RxBuf, b': RxBuf, ghost live0: map<nat, nat>)
      requires Shape() && rx.wr == rx.rd + rx.cnt - 2 && |live0| == rx.cnt - 1 + |XdpBufs()|
      requires Holds(rx.rxbufs[..], rx.rd, rx.wr, XdpBufs(), live0, place, Carries(b)) && Mapped(b, live0)
      requires b'.frag != 0 && b'.frag !in live0 && pool.live == live0[b'.frag := b'.dma]
      modifies this`place, rx`wrP, rx`wr, rx`flWr, rx.rxbufs, rx.dd, pool`live
      ensures Stocked() && rx.wr == old(rx.wr) + 1
      ensures rx.rxbufs[..] == Put(old(rx.rxbufs[..]), old(rx.wr), b')
      ensures pool.live == (live0 - {b.frag})[b'.frag := b'.dma]
    {
      hide SlotOf, RingSize, Holds, RxRing.Counters, TxRing.CountersWith;
      pool.Unmap(b);
      assert pool.live == (live0 - {b.frag})[b'.frag := b'.dma];
      place := Replace(rx.rxbufs[..], rx.rd, rx.wr, XdpBufs(), live0, place, b, b');
      ReplaceKeepsCount(live0, b.frag, b'.frag, b'.dma);
      GiveBack(b');
    }

    /** One received packet, already taken off the ring: every path gives
        exactly one buffer back. */
    method Process(idx: nat, b: RxBuf, verdict: Verdict, completed: bool)
      returns (completed': bool, ghost e: Handled)
      requires Loaded(b) && pool.Settled()
      requires idx == SlotOf(rx.rd - 1, rx.cnt) && rx.rxbufs[idx] == b
      modifies this`place, rx`wrP, rx`wr, rx`flWr, rx.rxbufs, rx.dd, pool
      modifies xdp`devRd, xdp`qcpRdP, xdp`rdP, xdp`rd, xdp`wrP, xdp`wr, xdp`wrPtrAdd, xdp.txbufs
      ensures Running() && rx.wr == old(rx.wr) + 1
      ensures |pool.live| == |old(pool.live)|
      ensures HandledAs(hasXdp, verdict, b, old(BufAt(xdp.txbufs[..], xdp.wr)), e)
      ensures rx.rxbufs[..] == Put(old(rx.rxbufs[..]), old(rx.wr), e.back)
      ensures pool.failures == old(pool.failures) + (if e.fate.NoMemory? then 1 else 0)
      ensures pool.passed == old(pool.passed) + (if e.fate.ToStack? then [b] else [])
      ensures xdp.wr == old(xdp.wr) + (if e.fate.Bounced? then 1 else 0)
      ensures xdp.txbufs[..] ==
                if e.fate.Bounced? then Put(old(xdp.txbufs[..]), old(xdp.wr), b) else old(xdp.txbufs[..])
      ensures completed ==> completed'
      ensures completed || !completed' ==> xdp.rd == old(xdp.rd) && xdp.devRd == old(xdp.devRd)
      ensures !completed && completed' ==> xdp.Reclaimed(old(xdp.rd)) && old(xdp.devRd) <= xdp.devRd
      ensures !completed && completed' ==> hasXdp && (e.fate.Bounced? || e.fate.RefusedFull?)
      ensures e.fate.RefusedFull? ==> completed' && xdp.wr + 1 >= xdp.rd + xdp.cnt
    {
      hide SlotOf, RingSize, Holds, RxRing.Counters, TxRing.CountersWith, Put, BufAt;
      completed' := completed;
      ghost var spent := BufAt(xdp.txbufs[..], xdp.wr);
      if !verdict.metaOk {
        RxDrop(b, false);
        return completed, Handled(b, b, Recycled);
      }
      if hasXdp && !verdict.skipsXdp {
        match verdict.act {
          case XdpPass =>
          case XdpTx =>
            var ok;
            ok, completed' := TxXdpBuf(idx, b, completed);
            e := if ok then Handled(b, spent, Bounced) else Handled(b, b, RefusedFull);
            return;
          case _ =>
            GiveBack(b);
            return completed, Handled(b, b, Recycled);
        }
      }
      e := PassUp(b, verdict.skbBuilt, verdict.reprFound);
    }

    /** The head of the receive loop: test the done bit, take the buffer. */
    method TakePacket() returns (got: bool, idx: nat, b: RxBuf)
      requires Running()
      modifies this`place, rx`rdP, rx`rd
      ensures !got ==> Running() && rx.rd == old(rx.rd) == rx.devDone
      ensures got ==> Loaded(b) && pool.Settled() && rx.rd == old(rx.rd) + 1 <= rx.devDone
      ensures got ==> idx == SlotOf(rx.rd - 1, rx.cnt) && rx.rxbufs[idx] == b == old(BufAt(rx.rxbufs[..], rx.rd))
    {
      hide SlotOf, RingSize, Holds;
      RingSizeBounds(rx.cnt);
      idx := DIdx(rx.cnt, rx.rdP);
      DIdxOfCounter(rx.cnt, rx.rd);
      SlotOfIs(rx.rd, rx.cnt);
      if !rx.dd[idx] {
        return false, idx, NO_BUF;
      }
      b := rx.rxbufs[idx];
      place := Take(rx.rxbufs[..], rx.rd, rx.wr, XdpBufs(), pool.live, place);
      AddWraps(rx.rd, 1);
      rx.rdP := Add32(rx.rdP, 1);
      rx.rd := rx.rd + 1;
      got := true;
    }

    ghost function RingsNow(): Rings
      reads this, rx, rx.rxbufs, xdp, xdp.txbufs
    {
      Rings(rx.rxbufs[..], rx.rd, rx.wr, xdp.txbufs[..], xdp.wr)
    }

    /** One turn of the receive loop, if the device has finished a packet. */
    method RxOne(verdict: Verdict, completed: bool) returns (got: bool, completed': bool, ghost e: Handled)
      requires Running()
      modifies this`place, rx, rx.rxbufs, rx.dd, pool
      modifies xdp`devRd, xdp`qcpRdP, xdp`rdP, xdp`rd, xdp`wrP, xdp`wr, xdp`wrPtrAdd, xdp.txbufs
      ensures Running() && |pool.live| == |old(pool.live)|
      ensures !got ==> rx.rd == rx.devDone && RingsNow() == old(RingsNow()) && completed' == completed
      ensures !got ==> pool.passed == old(pool.passed) && pool.failures == old(pool.failures)
      ensures got ==> RingsNow() == WithOneMore(old(RingsNow()), e)
      ensures got ==>
                HandledAs(hasXdp, verdict, old(BufAt(rx.rxbufs[..], rx.rd)), old(BufAt(xdp.txbufs[..], xdp.wr)), e)
      ensures got ==> pool.failures == old(pool.failures) + (if e.fate.NoMemory? then 1 else 0)
      ensures got ==> pool.passed == old(pool.passed) + (if e.fate.ToStack? then [e.b] else [])
      ensures completed ==> completed'
      ensures completed || !completed' ==> xdp.rd == old(xdp.rd) && xdp.devRd == old(xdp.devRd)
      ensures !completed && completed' ==> xdp.Reclaimed(old(xdp.rd)) && old(xdp.devRd) <= xdp.devRd
      ensures !completed && completed' ==> hasXdp && (e.fate.Bounced? || e.fate.RefusedFull?)
      ensures got && e.fate.RefusedFull? ==> completed' && xdp.wr + 1 >= xdp.rd + xdp.cnt
    {
      hide SlotOf, RingSize, Holds, RxRing.Counters, TxRing.CountersWith, FateFits, Put, BufAt;
      rx.DeviceRuns();
      var idx, b;
      got, idx, b := TakePacket();
      if got {
        completed', e := Process(idx, b, verdict, completed);
      } else {
        completed', e := completed, Handled(b, b, Recycled);
      }
    }

    /** The packets `h` of a poll that began with the rings g and with the
        given numbers of buffers passed up and allocations failed. */
    ghost predicate Polled(g: Rings, verdicts: nat -> Verdict, h: seq<Handled>, passed0: seq<RxBuf>, failures0: nat)
      reads this, rx, rx.rxbufs, xdp, xdp.txbufs, pool
    {
      && HandledInOrder(hasXdp, g, verdicts, h) && RingsNow() == RingsAfter(g, h)
      && pool.passed == passed0 + Bufs(h, ToStack) && pool.failures == failures0 + |Bufs(h, NoMemory)|
    }

    /** What it has done so far to the XDP ring's read side: it reclaims at
        most once, and refuses a packet only when the ring is full even after
        that. */
    ghost predicate Reclaiming(rd0: nat, devRd0: nat, completed: bool, g: Rings, h: seq<Handled>)
      reads this, xdp
    {
      && (if completed then xdp.Reclaimed(rd0) && devRd0 <= xdp.devRd else xdp.rd == rd0 && xdp.devRd == devRd0)
      && (completed ==> hasXdp && (Bufs(h, Bounced) != [] || Bufs(h, RefusedFull) != []))
      && (Bufs(h, RefusedFull) != [] ==> completed)
      && forall k :: 0 <= k < |h| && h[k].fate.RefusedFull? ==>
           completed && RingsAfter(g, h[..k]).txWr + 1 >= xdp.rd + xdp.cnt
    }

    method Turn(verdicts: nat -> Verdict, n: nat, completed: bool, ghost g: Rings, ghost h: seq<Handled>,
                ghost passed0: seq<RxBuf>, ghost failures0: nat, ghost rd0: nat, ghost devRd0: nat)
      returns (got: bool, completed': bool, ghost h': seq<Handled>)
      requires Running() && n == |h| && Polled(g, verdicts, h, passed0, failures0)
      requires Reclaiming(rd0, devRd0, completed, g, h)
      modifies this`place, rx, rx.rxbufs, rx.dd, pool
      modifies xdp`devRd, xdp`qcpRdP, xdp`rdP, xdp`rd, xdp`wrP, xdp`wr, xdp`wrPtrAdd, xdp.txbufs
      ensures Running() && |pool.live| == |old(pool.live)| && Polled(g, verdicts, h', passed0, failures0)
      ensures Reclaiming(rd0, devRd0, completed', g, h')
      ensures if got then |h'| == n + 1 else h' == h && rx.rd == rx.devDone
    {
      hide SlotOf, RxVec.Running, HandledAs, HandledInOrder, Bufs, RingsAfter, Put, BufAt;
      ghost var e;
      got, completed', e := RxOne(verdicts(n), completed);
      h' := h;
      if got {
        OneMoreHandled(hasXdp, g, verdicts, h, e);
        h' := h + [e];
        assert h'[..n] == h && forall k :: 0 <= k < n ==> h'[..k] == h[..k];
      }
    }

    /** The end of a poll on a vector with an XDP ring. */
    method Finish(completed: bool) returns (doneAll: bool)
      requires Running()
      modifies xdp`devWr, xdp`wrPtrAdd, xdp`devRd, xdp`qcpRdP, xdp`rdP, xdp`rd
      ensures Running() && xdp.devWr == xdp.wr && old(xdp.devRd) <= xdp.devRd
      ensures old(xdp.devWr) != xdp.wr || completed ==> doneAll && xdp.rd == old(xdp.rd) && xdp.devRd == old(xdp.devRd)
      ensures old(xdp.devWr) == xdp.wr && !completed ==>
                xdp.Reclaimed(old(xdp.rd)) && (doneAll <==> xdp.rd == xdp.devRd)
    {
      hide SlotOf, RingSize, Holds, RxRing.Counters;
      doneAll := xdp.FlushOrReclaim(completed);
    }

    /** nfp_net_rx(). The verdict on packet k of the poll is verdicts(k). */
    method Rx(budget: nat, verdicts: nat -> Verdict) returns (pktsPolled: nat, ghost h: seq<Handled>)
      requires Running()
      modifies this`place, rx, rx.rxbufs, rx.dd, pool, xdp, xdp.txbufs
      ensures Running() && |pool.live| == |old(pool.live)|
      ensures |h| == rx.rd - old(rx.rd) <= budget && (|h| < budget ==> rx.rd == rx.devDone)
      ensures HandledInOrder(hasXdp, old(RingsNow()), verdicts, h)
      ensures RingsNow() == RingsAfter(old(RingsNow()), h)
      ensures pool.passed == old(pool.passed) + Bufs(h, ToStack)
      ensures pool.failures == old(pool.failures) + |Bufs(h, NoMemory)|
      ensures xdp.wr == old(xdp.wr) + |Bufs(h, Bounced)|
      ensures forall k :: 0 <= k < |h| && h[k].fate.RefusedFull? ==>
                RingsAfter(old(RingsNow()), h[..k]).txWr + 1 >= xdp.rd + xdp.cnt
      ensures xdp.rd == old(xdp.rd) || xdp.Reclaimed(old(xdp.rd))
      ensures Bufs(h, RefusedFull) != [] ==> xdp.Reclaimed(old(xdp.rd))
      ensures if hasXdp then xdp.devWr == xdp.wr else xdp.rd == old(xdp.rd)
      ensures hasXdp && old(xdp.devWr) == xdp.wr ==> xdp.Reclaimed(old(xdp.rd))
      ensures pktsPolled ==
                if hasXdp && old(xdp.devWr) == xdp.wr && Bufs(h, RefusedFull) == [] && xdp.rd < xdp.devRd
                then budget else |h|
    {
      hide SlotOf, RxVec.Running, HandledAs, HandledInOrder, WithOneMore, Bufs, RingsAfter, Put, BufAt;
      ghost var g, passed0, failures0, rd0, devRd0 := RingsNow(), pool.passed, pool.failures, xdp.rd, xdp.devRd;
      NothingHandled(hasXdp, g, verdicts);
      RunningIsInOrder(this);
      pktsPolled, h := 0, [];
      var xdpTxCmpl := false;
      while pktsPolled < budget
        invariant Running() && pktsPolled == |h| <= budget && |pool.live| == |old(pool.live)|
        invariant Polled(g, verdicts, h, passed0, failures0) && Reclaiming(rd0, devRd0, xdpTxCmpl, g, h)
        modifies this`place, rx, rx.rxbufs, rx.dd, pool
        modifies xdp`devRd, xdp`qcpRdP, xdp`rdP, xdp`rd, xdp`wrP, xdp`wr, xdp`wrPtrAdd, xdp.txbufs
      {
        var got;
        got, xdpTxCmpl, h := Turn(verdicts, pktsPolled, xdpTxCmpl, g, h, passed0, failures0, rd0, devRd0);
        if !got {
          break;
        }
        pktsPolled := pktsPolled + 1;
      }
      PositionsAfter(g, h);
      RunningIsInOrder(this);
      if hasXdp {
        var doneAll := Finish(xdpTxCmpl);
        if !doneAll {
          pktsPolled := budget;
        }
      }
    }

    // --- Stocking, resetting and emptying the rings --------------------------------

    /** Buffers in place, nothing given to the device. */
    ghost predicate Prepared()
      reads this, rx, rx.dd, rx.rxbufs, xdp, xdp.txbufs, pool
    {
      && Shape() && rx.wr == 0 && xdp.wr == 0
      && pool.Settled() && |pool.live| == rx.cnt - 1 + |XdpBufs()|
      && Holds(rx.rxbufs[..], 0, rx.cnt - 1, XdpBufs(), pool.live, place, Empty)
      && rx.rxbufs[rx.cnt - 1] == NO_BUF
    }

    /** nfp_net_rx_ring_fill_freelist() */
    method FillFreelist()
      requires Prepared()
      modifies rx`wrP, rx`wr, rx`flWr, rx.rxbufs, rx.dd
      ensures Running() && rx.rd == 0
      ensures rx.rxbufs[..] == old(rx.rxbufs[..])
    {
      hide SlotOf, Holds, RingSize;
      RingSizeBounds(rx.cnt);
      var i: nat := 0;
      while i < rx.cnt - 1
        invariant i <= rx.cnt - 1 && Shape() && rx.wr == i && rx.rd == 0
        invariant rx.rxbufs[..] == old(rx.rxbufs[..])
        modifies rx`wrP, rx`wr, rx`flWr, rx.rxbufs, rx.dd
      {
        SlotOfSmall(i, rx.cnt);
        rx.GiveOne(rx.rxbufs[i]);
        i := i + 1;
      }
    }

    /** nfp_net_rx_ring_reset() of a filled ring, and the pointer part of
        nfp_net_tx_ring_reset() for the XDP ring; the device is stopped. */
    method Reset()
      requires Running()
      modifies this`place, rx, rx.rxbufs, rx.dd, xdp
      ensures Prepared() && pool.live == old(pool.live)
      ensures rx.rxbufs[..] == Pack(old(rx.rxbufs[..]), SlotOf(old(rx.wr), rx.cnt))
      ensures xdp.txbufs[..] == old(xdp.txbufs[..])
    {
      hide SlotOf, Holds, RingSize;
      RingSizeBounds(rx.cnt);
      place := PackFilled(rx.rxbufs[..], rx.rd, XdpBufs(), pool.live, place);
      PackSlots();
      rx.ResetPointers();
      xdp.ResetPointers();
    }

    /** The last buffer takes the slot that is empty, which leaves the last
        slot empty instead. */
    method PackSlots()
      requires rx.Counters() && rx.rxbufs != xdp.txbufs
      modifies rx.rxbufs
      ensures rx.rxbufs[..] == Pack(old(rx.rxbufs[..]), SlotOf(old(rx.wr), rx.cnt))
    {
      hide SlotOf, RingSize;
      RingSizeBounds(rx.cnt);
      var wrIdx := DIdx(rx.cnt, rx.wrP);
      DIdxOfCounter(rx.cnt, rx.wr);
      SlotOfIs(rx.wr, rx.cnt);
      var lastIdx := rx.cnt - 1;
      rx.rxbufs[wrIdx] := rx.rxbufs[lastIdx];
      rx.rxbufs[lastIdx] := NO_BUF;
    }

    // The RX ring is stocked up to position w, the XDP ring with `stocked`.
    ghost predicate Stocking(w: nat, stocked: seq<RxBuf>)
      reads this, rx, rx.dd, rx.rxbufs, xdp, xdp.txbufs, pool
    {
      && Shape() && rx.wr == 0 && xdp.wr == 0 && w < rx.cnt
      && pool.Settled() && |pool.live| == w + |stocked|
      && Holds(rx.rxbufs[..], 0, w, stocked, pool.live, place, Empty)
      && forall i :: w <= i < rx.cnt ==> rx.rxbufs[i] == NO_BUF
    }

    /** nfp_net_rx_ring_bufs_free() over a ring stocked up to w: each buffer
        is unmapped and freed once, the null slots are passed over. */
    method RxBufsFree(ghost w: nat, ghost stocked: seq<RxBuf>)
      requires Stocking(w, stocked)
      modifies this`place, rx.rxbufs, pool`live, pool`refs
      ensures Stocking(0, stocked)
    {
      hide SlotOf, RingSize, Holds;
      RingSizeBounds(rx.cnt);
      var i: nat := 0;
      ghost var k: nat := 0;
      while i < rx.cnt - 1
        invariant i <= rx.cnt - 1 && k == (if i < w then i else w)
        invariant pool.Settled() && |pool.live| == w - k + |stocked|
        invariant Holds(rx.rxbufs[..], k, w, stocked, pool.live, place, Empty)
        invariant forall m :: 0 <= m < rx.cnt && !(k <= m < w) ==> rx.rxbufs[m] == NO_BUF
        modifies rx.rxbufs, pool`live, pool`refs
      {
        if i < w {
          SlotOfSmall(i, rx.cnt);
          Unstock(rx.rxbufs[..], i, w, stocked, pool.live, place);
        }
        if rx.rxbufs[i].frag != 0 {
          ReleaseOne(rx.rxbufs[i]);
          rx.rxbufs[i] := NO_BUF;
          k := k + 1;
        }
        i := i + 1;
      }
      Rebase(rx.rxbufs[..], w, rx.rxbufs[..], stocked, pool.live, place);
    }

    method ReleaseOne(b: RxBuf)
      requires pool.Settled() && Mapped(b, pool.live)
      modifies pool`live, pool`refs
      ensures pool.Settled() && pool.live == old(pool.live) - {b.frag}
      ensures |pool.live| == |old(pool.live)| - 1
    {
      assert (pool.live - {b.frag}).Keys == pool.live.Keys - {b.frag};
      pool.Unmap(b);
      pool.FreeFrag(b.frag);
    }

    /** nfp_net_rx_ring_bufs_alloc(): cnt - 1 buffers or none. */
    method RxBufsAlloc() returns (ok: bool)
      requires Stocking(0, [])
      modifies this`place, rx.rxbufs, pool`live, pool`refs, pool`failures
      ensures pool.failures == old(pool.failures) + (if ok then 0 else 1)
      ensures ok ==> Stocking(rx.cnt - 1, [])
      ensures !ok ==> Stocking(0, [])
    {
      hide SlotOf, RingSize, Holds;
      RingSizeBounds(rx.cnt);
      var i: nat := 0;
      while i < rx.cnt - 1
        invariant i <= rx.cnt - 1 && Stocking(i, []) && pool.failures == old(pool.failures)
        modifies this`place, rx.rxbufs, pool`live, pool`refs, pool`failures
      {
        var one := StockOne(i);
        if !one {
          RxBufsFree(i, []);
          return false;
        }
        i := i + 1;
      }
      ok := true;
    }

    method StockOne(i: nat) returns (ok: bool)
      requires Stocking(i, []) && i + 1 < rx.cnt
      modifies this`place, rx.rxbufs, pool`live, pool`refs, pool`failures
      ensures pool.failures == old(pool.failures) + (if ok then 0 else 1)
      ensures ok ==> Stocking(i + 1, [])
      ensures !ok ==> Stocking(i, [])
    {
      hide SlotOf, RingSize, Holds;
      ghost var live0 := pool.live;
      var b := pool.AllocOne();
      if b.frag == 0 {
        return false;
      }
      SlotOfSmall(i, rx.cnt);
      place := Stock(rx.rxbufs[..], 0, i, [], live0, place, b);
      rx.rxbufs[i] := b;
      ok := true;
    }

    /** nfp_net_tx_ring_bufs_free() over an XDP ring stocked up to n: stops
        at the first null slot and leaves the pointers behind. */
    method TxBufsFree(ghost w: nat, ghost n: nat)
      requires n <= xdp.cnt == xdp.txbufs.Length && Stocking(w, xdp.txbufs[..n])
      requires forall j :: n <= j < xdp.cnt ==> xdp.txbufs[j] == NO_BUF
      modifies this`place, pool`live, pool`refs
      ensures Stocking(w, [])
    {
      hide SlotOf, RingSize, Holds;
      var i: nat := 0;
      while i < xdp.cnt
        invariant i <= n && Stocking(w, xdp.txbufs[i..n])
        modifies this`place, pool`live, pool`refs
      {
        if i < n {
          XdpHeadMapped(rx.rxbufs[..], w, xdp.txbufs[i..n], pool.live, place);
        }
        if xdp.txbufs[i].frag == 0 {
          break;
        }
        place := UnstockXdp(rx.rxbufs[..], 0, w, xdp.txbufs[i..n], pool.live, place);
        ReleaseOne(xdp.txbufs[i]);
        i := i + 1;
      }
      assert xdp.txbufs[i..n] == [];
    }

    /** nfp_net_tx_ring_bufs_alloc() of an XDP ring: every slot or none. */
    method TxBufsAlloc(ghost w: nat) returns (ok: bool)
      requires Stocking(w, [])
      requires forall j :: 0 <= j < xdp.cnt ==> xdp.txbufs[j] == NO_BUF
      modifies this`place, xdp.txbufs, pool`live, pool`refs, pool`failures
      ensures pool.failures == old(pool.failures) + (if ok then 0 else 1)
      ensures ok ==> Stocking(w, xdp.txbufs[..])
      ensures !ok ==> Stocking(w, [])
    {
      hide SlotOf, RingSize, Holds;
      var i: nat := 0;
      assert xdp.txbufs[..0] == [];
      while i < xdp.cnt
        invariant i <= xdp.cnt && Stocking(w, xdp.txbufs[..i]) && pool.failures == old(pool.failures)
        invariant forall j :: i <= j < xdp.cnt ==> xdp.txbufs[j] == NO_BUF
        modifies this`place, xdp.txbufs, pool`live, pool`refs, pool`failures
      {
        var one := StockXdpOne(w, i);
        if !one {
          TxBufsFree(w, i);
          return false;
        }
        i := i + 1;
      }
      assert xdp.txbufs[..i] == xdp.txbufs[..];
      ok := true;
    }

    method StockXdpOne(ghost w: nat, i: nat) returns (ok: bool)
      requires i < xdp.cnt == xdp.txbufs.Length && Stocking(w, xdp.txbufs[..i])
      requires forall j :: i <= j < xdp.cnt ==> xdp.txbufs[j] == NO_BUF
      modifies this`place, xdp.txbufs, pool`live, pool`refs, pool`failures
      ensures forall j :: i < j < xdp.cnt ==> xdp.txbufs[j] == NO_BUF
      ensures pool.failures == old(pool.failures) + (if ok then 0 else 1)
      ensures ok ==> Stocking(w, xdp.txbufs[..i + 1])
      ensures !ok ==> Stocking(w, xdp.txbufs[..i]) && xdp.txbufs[i] == NO_BUF
    {
      hide SlotOf, RingSize, Holds;
      ghost var live0, stocked := pool.live, xdp.txbufs[..i];
      var b := pool.AllocOne();
      if b.frag == 0 {
        return false;
      }
      place := StockXdp(rx.rxbufs[..], 0, w, stocked, live0, place, b);
      xdp.txbufs[i] := b;
      assert xdp.txbufs[..i + 1] == stocked + [b];
      ok := true;
    }

    /** Buffers for both rings, or none at all. */
    method Prepare() returns (ok: bool)
      requires Blank()
      modifies this`place, rx.rxbufs, xdp.txbufs, pool`live, pool`refs, pool`failures
      ensures pool.failures == old(pool.failures) + (if ok then 0 else 1)
      ensures ok ==> Prepared()
      ensures !ok ==> pool.live == map[] && pool.refs == map[] && pool.skbs == {}
    {
      RingSizeBounds(rx.cnt);
      ok := RxBufsAlloc();
      if ok && hasXdp {
        ok := TxBufsAlloc(rx.cnt - 1);
        if !ok {
          RxBufsFree(rx.cnt - 1, []);
        }
      }
      if !ok {
        NothingHeld(rx.rxbufs[..], 0, pool.live, place);
      }
    }

    /** Release both rings' buffers. */
    method FreeAll()
      requires Prepared()
      modifies this`place, rx.rxbufs, pool`live, pool`refs
      ensures pool.live == map[] && pool.refs == map[] && pool.skbs == {}
    {
      RingSizeBounds(rx.cnt);
      RxBufsFree(rx.cnt - 1, XdpBufs());
      if hasXdp {
        assert xdp.txbufs[..xdp.cnt] == xdp.txbufs[..];
        TxBufsFree(0, xdp.cnt);
      }
      NothingHeld(rx.rxbufs[..], 0, pool.live, place);
    }
  }

  /** Buffers the RX device may still write, and buffers the XDP transmit
      device may still read, never coincide. */
  lemma DevicesDisjoint(v: RxVec)
    requires v.Running() && v.hasXdp
    ensures forall n, d :: v.rx.devDone <= n < v.rx.wr && v.xdp.devRd <= d < v.xdp.wr ==>
      v.rx.rxbufs[..][SlotOf(n, |v.rx.rxbufs[..]|)].frag != v.xdp.txbufs[..][SlotOf(d, |v.xdp.txbufs[..]|)].frag
  {
    AllDistinct(v.rx.rxbufs[..], v.rx.rd, v.rx.wr, v.XdpBufs(), v.pool.live, v.place, Empty);
  }

  // --- Runs ------------------------------------------------------------------------

  /** A poll to be made: its budget and the verdicts on its packets. */
  datatype Request = Request(budget: nat, verdicts: nat -> Verdict)

  /** One poll: what became of its packets, the buffers it passed to the
      stack, failed allocations, packets put on the XDP ring, what the device
      had finished and was left waiting, and the buffers mapped afterwards. */
  datatype Poll = Poll(handled: seq<Handled>, passed: seq<RxBuf>, failed: nat, bounced: nat, waiting: nat, buffers: nat)

  /** Every packet meets a fate its own verdict allows; exactly those to be
      passed up are, in order, unless memory ran out, and as many are put on
      the XDP ring as were bounced and not refused. A poll stops short of its
      budget only for want of packets, and keeps the number of buffers. */
  ghost predicate PollOk(p: Poll, r: Request, hasXdp: bool, buffers: nat) {
    && |p.handled| <= r.budget
    && (|p.handled| < r.budget ==> p.waiting == 0)
    && (forall k :: 0 <= k < |p.handled| ==> FateFits(hasXdp, r.verdicts(k), p.handled[k].fate))
    && p.passed == Bufs(p.handled, ToStack) && p.failed == |Bufs(p.handled, NoMemory)|
    && p.bounced == |Bufs(p.handled, Bounced)|
    && p.buffers == buffers
  }

  ghost predicate SessionOk(polls: seq<Poll>, requests: seq<Request>, hasXdp: bool, buffers: nat) {
    |polls| == |requests| && forall k :: 0 <= k < |polls| ==> PollOk(polls[k], requests[k], hasXdp, buffers)
  }

  /** All that a session, or several, passed to the stack. */
  ghost function PassedBy(polls: seq<Poll>): seq<RxBuf> {
    if polls == [] then [] else PassedBy(polls[..|polls| - 1]) + polls[|polls| - 1].passed
  }

  ghost function PassedByAll(sessions: seq<seq<Poll>>): seq<RxBuf> {
    if sessions == [] then [] else PassedByAll(sessions[..|sessions| - 1]) + PassedBy(sessions[|sessions| - 1])
  }

  ghost function FailedIn(polls: seq<Poll>): nat {
    if polls == [] then 0 else FailedIn(polls[..|polls| - 1]) + polls[|polls| - 1].failed
  }

  ghost function FailedInAll(sessions: seq<seq<Poll>>): nat {
    if sessions == [] then 0 else FailedInAll(sessions[..|sessions| - 1]) + FailedIn(sessions[|sessions| - 1])
  }

  /** A life of a vector: stock the rings, then start, poll and stop as often
      as is asked, then release. */
  method AnyRun(rxCnt: u32, txCnt: u32, hasXdp: bool, requests: seq<seq<Request>>)
    returns (ok: bool, v: RxVec, ghost sessions: seq<seq<Poll>>)
    requires RingSize(rxCnt) && RingSize(txCnt)
    ensures ok ==> |sessions| == |requests|
    ensures ok ==> forall i :: 0 <= i < |requests| ==>
              SessionOk(sessions[i], requests[i], hasXdp, rxCnt - 1 + (if hasXdp then txCnt else 0))
    ensures ok ==> v.pool.passed == PassedByAll(sessions) && v.pool.failures == FailedInAll(sessions)
    ensures !ok ==> v.pool.failures > 0 && v.pool.passed == []
    ensures v.pool.live == map[] && v.pool.refs == map[] && v.pool.skbs == {}
  {
    hide RxVec.Prepared, SessionOk, PassedBy, FailedIn, PassedByAll, FailedInAll;
    v := new RxVec(rxCnt, txCnt, hasXdp);
    sessions := [];
    ok := v.Prepare();
    if !ok {
      return;
    }
    ghost var buffers := rxCnt - 1 + (if hasXdp then txCnt else 0);
    PreparedCount(v);
    SessionsOneMore([], []);
    for i := 0 to |requests|
      invariant v.Prepared() && v.rx.cnt == rxCnt && v.xdp.cnt == txCnt && v.hasXdp == hasXdp
      invariant |v.pool.live| == buffers && |sessions| == i
      invariant fresh(v) && fresh(v.rx) && fresh(v.xdp) && fresh(v.pool)
      invariant fresh(v.rx.rxbufs) && fresh(v.rx.dd) && fresh(v.xdp.txbufs)
      invariant forall k :: 0 <= k < i ==> SessionOk(sessions[k], requests[k], hasXdp, buffers)
      invariant v.pool.passed == PassedByAll(sessions) && v.pool.failures == FailedInAll(sessions)
    {
      ghost var polls := Session(v, requests[i]);
      SessionsOneMore(sessions, polls);
      sessions := sessions + [polls];
    }
    v.FreeAll();
  }

  lemma SessionsOneMore(sessions: seq<seq<Poll>>, polls: seq<Poll>)
    ensures PassedByAll([]) == [] && FailedInAll([]) == 0
    ensures PassedByAll(sessions + [polls]) == PassedByAll(sessions) + PassedBy(polls)
    ensures FailedInAll(sessions + [polls]) == FailedInAll(sessions) + FailedIn(polls)
  {
    hide PassedBy, FailedIn;
    assert (sessions + [polls])[..|sessions|] == sessions;
  }

  lemma PreparedCount(v: RxVec)
    requires v.Prepared()
    ensures |v.pool.live| == v.rx.cnt - 1 + (if v.hasXdp then v.xdp.cnt else 0)
  {
  }

  method Session(v: RxVec, requests: seq<Request>) returns (ghost polls: seq<Poll>)
    requires v.Prepared()
    modifies v, v.rx, v.rx.rxbufs, v.rx.dd, v.pool, v.xdp, v.xdp.txbufs
    ensures v.Prepared() && |v.pool.live| == |old(v.pool.live)|
    ensures SessionOk(polls, requests, v.hasXdp, |old(v.pool.live)|)
    ensures v.pool.passed == old(v.pool.passed) + PassedBy(polls)
    ensures v.pool.failures == old(v.pool.failures) + FailedIn(polls)
  {
    hide RxVec.Prepared, RxVec.Running, PollOk;
    v.FillFreelist();
    polls := [];
    for k := 0 to |requests|
      invariant v.Running() && |v.pool.live| == |old(v.pool.live)| && |polls| == k
      invariant forall m :: 0 <= m < k ==> PollOk(polls[m], requests[m], v.hasXdp, |old(v.pool.live)|)
      invariant v.pool.passed == old(v.pool.passed) + PassedBy(polls)
      invariant v.pool.failures == old(v.pool.failures) + FailedIn(polls)
    {
      ghost var p := OnePoll(v, requests[k]);
      assert (polls + [p])[..k] == polls;
      polls := polls + [p];
    }
    v.Reset();
  }

  method OnePoll(v: RxVec, r: Request) returns (ghost p: Poll)
    requires v.Running()
    modifies v`place, v.rx, v.rx.rxbufs, v.rx.dd, v.pool, v.xdp, v.xdp.txbufs
    ensures v.Running() && |v.pool.live| == |old(v.pool.live)|
    ensures PollOk(p, r, v.hasXdp, |old(v.pool.live)|)
    ensures v.pool.passed == old(v.pool.passed) + p.passed
    ensures v.pool.failures == old(v.pool.failures) + p.failed
  {
    hide RxVec.Running, FateFits, RingsAfter;
    ghost var passed0, failures0, wr0 := |v.pool.passed|, v.pool.failures, v.xdp.wr;
    var _, h := v.Rx(r.budget, r.verdicts);
    RunningIsInOrder(v);
    p := Poll(h, v.pool.passed[passed0..], v.pool.failures - failures0, v.xdp.wr - wr0,
              v.rx.devDone - v.rx.rd, |v.pool.live|);
  }

  lemma RunningIsInOrder(v: RxVec)
    requires v.Running()
    ensures v.rx.rd <= v.rx.devDone && v.xdp.rd <= v.xdp.devRd <= v.xdp.devWr <= v.xdp.wr
  {
  }
}
