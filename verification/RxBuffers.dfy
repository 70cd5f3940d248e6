/** Who holds which receive buffer. A buffer is in one place at a time: an RX
    ring position, an XDP transmit slot, or the hands of the receive loop.
    These lemmas say how each hand-over moves buffers; the ring code follows
    them one for one. */
module RxBuffers {
  import opened Words

  /** struct nfp_net_rx_buf; frag 0 is the null pointer. */
  datatype RxBuf = RxBuf(frag: nat, dma: nat)

  const NO_BUF := RxBuf(0, 0)

  datatype Place = InRx(n: nat) | InXdp(j: nat) | InHand

  datatype Hand = Empty | Carries(buf: RxBuf)

  predicate Mapped(b: RxBuf, live: map<nat, nat>) {
    b.frag != 0 && b.frag in live && live[b.frag] == b.dma
  }

  /** Positions rd..wr of the RX ring, every XDP slot and the hand hold live
      buffers, no two the same, and between them hold all live buffers. */
  ghost predicate Holds(rxbufs: seq<RxBuf>, rd: nat, wr: nat, xdp: seq<RxBuf>, live: map<nat, nat>,
                        place: map<nat, Place>, hand: Hand)
  {
    && |rxbufs| > 0 && rd <= wr <= rd + |rxbufs|
    && (forall n :: rd <= n < wr ==> At(rxbufs[SlotOf(n, |rxbufs|)], live, place, InRx(n)))
    && (forall j :: 0 <= j < |xdp| ==> At(xdp[j], live, place, InXdp(j)))
    && (hand.Carries? ==> At(hand.buf, live, place, InHand))
    && (forall f :: f in live ==> f in place && Really(rxbufs, rd, wr, xdp, hand, f, place[f]))
  }

  predicate At(b: RxBuf, live: map<nat, nat>, place: map<nat, Place>, p: Place) {
    Mapped(b, live) && b.frag in place && place[b.frag] == p
  }

  predicate Really(rxbufs: seq<RxBuf>, rd: nat, wr: nat, xdp: seq<RxBuf>, hand: Hand, f: nat, p: Place)
    requires |rxbufs| > 0
  {
    match p
    case InRx(n) => rd <= n < wr && rxbufs[SlotOf(n, |rxbufs|)].frag == f
    case InXdp(j) => j < |xdp| && xdp[j].frag == f
    case InHand => hand.Carries? && hand.buf.frag == f
  }

  lemma CarriedIsMapped(rxbufs: seq<RxBuf>, rd: nat, wr: nat, xdp: seq<RxBuf>, live: map<nat, nat>,
                        place: map<nat, Place>, b: RxBuf)
    requires Holds(rxbufs, rd, wr, xdp, live, place, Carries(b))
    ensures Mapped(b, live)
  {
  }

  /** The receive loop takes the oldest buffer off the ring. */
  lemma Take(rxbufs: seq<RxBuf>, rd: nat, wr: nat, xdp: seq<RxBuf>, live: map<nat, nat>, place: map<nat, Place>)
    returns (place': map<nat, Place>)
    requires Holds(rxbufs, rd, wr, xdp, live, place, Empty) && rd < wr
    ensures Holds(rxbufs, rd + 1, wr, xdp, live, place', Carries(rxbufs[SlotOf(rd, |rxbufs|)]))
  {
    hide SlotOf;
    place' := place[rxbufs[SlotOf(rd, |rxbufs|)].frag := InHand];
  }

  /** nfp_net_rx_give_one(): the carried buffer goes to the write position. */
  lemma Give(rxbufs: seq<RxBuf>, rd: nat, wr: nat, xdp: seq<RxBuf>, live: map<nat, nat>,
             place: map<nat, Place>, b: RxBuf) returns (place': map<nat, Place>)
    requires Holds(rxbufs, rd, wr, xdp, live, place, Carries(b)) && wr < rd + |rxbufs|
    ensures Holds(rxbufs[SlotOf(wr, |rxbufs|) := b], rd, wr + 1, xdp, live, place', Empty)
  {
    hide SlotOf;
    place' := place[b.frag := InRx(wr)];
    OtherSlots(wr, rd, |rxbufs|);
  }

  /** XDP transmit: the carried buffer and the one in slot j trade places. */
  lemma Exchange(rxbufs: seq<RxBuf>, rd: nat, wr: nat, xdp: seq<RxBuf>, live: map<nat, nat>,
                 place: map<nat, Place>, b: RxBuf, j: nat) returns (place': map<nat, Place>)
    requires Holds(rxbufs, rd, wr, xdp, live, place, Carries(b)) && j < |xdp|
    ensures Holds(rxbufs, rd, wr, xdp[j := b], live, place', Carries(xdp[j]))
  {
    hide SlotOf;
    place' := place[b.frag := InXdp(j)][xdp[j].frag := InHand];
  }

  /** The carried buffer leaves for the stack, a fresh one takes its place. */
  lemma Replace(rxbufs: seq<RxBuf>, rd: nat, wr: nat, xdp: seq<RxBuf>, live: map<nat, nat>,
                place: map<nat, Place>, b: RxBuf, b': RxBuf) returns (place': map<nat, Place>)
    requires Holds(rxbufs, rd, wr, xdp, live, place, Carries(b)) && b'.frag != 0 && b'.frag !in live
    ensures Holds(rxbufs, rd, wr, xdp, (live - {b.frag})[b'.frag := b'.dma], place', Carries(b'))
  {
    hide SlotOf;
    place' := place[b'.frag := InHand];
  }

  /** The number of live buffers does not change when one replaces another. */
  lemma ReplaceKeepsCount(live: map<nat, nat>, f: nat, f': nat, dma: nat)
    requires f in live && f' !in live
    ensures |(live - {f})[f' := dma]| == |live|
  {
    assert (live - {f}).Keys == live.Keys - {f};
    assert (live - {f})[f' := dma].Keys == live.Keys - {f} + {f'};
  }

  // --- Stocking and emptying ---------------------------------------------------------

  /** A fresh buffer is put in the next RX position. */
  lemma Stock(rxbufs: seq<RxBuf>, rd: nat, wr: nat, xdp: seq<RxBuf>, live: map<nat, nat>, place: map<nat, Place>,
              b: RxBuf) returns (place': map<nat, Place>)
    requires Holds(rxbufs, rd, wr, xdp, live, place, Empty) && wr < rd + |rxbufs|
    requires b.frag != 0 && b.frag !in live
    ensures Holds(rxbufs[SlotOf(wr, |rxbufs|) := b], rd, wr + 1, xdp, live[b.frag := b.dma], place', Empty)
  {
    hide SlotOf;
    place' := place[b.frag := InRx(wr)];
    OtherSlots(wr, rd, |rxbufs|);
  }

  /** The oldest RX buffer is released and its slot cleared. */
  lemma Unstock(rxbufs: seq<RxBuf>, rd: nat, wr: nat, xdp: seq<RxBuf>, live: map<nat, nat>, place: map<nat, Place>)
    requires Holds(rxbufs, rd, wr, xdp, live, place, Empty) && rd < wr
    ensures var s := SlotOf(rd, |rxbufs|);
      && Mapped(rxbufs[s], live)
      && Holds(rxbufs[s := NO_BUF], rd + 1, wr, xdp, live - {rxbufs[s].frag}, place, Empty)
  {
    hide SlotOf;
    OtherSlots(rd, rd, |rxbufs|);
  }

  lemma StockXdp(rxbufs: seq<RxBuf>, rd: nat, wr: nat, xdp: seq<RxBuf>, live: map<nat, nat>, place: map<nat, Place>,
                 b: RxBuf) returns (place': map<nat, Place>)
    requires Holds(rxbufs, rd, wr, xdp, live, place, Empty) && b.frag != 0 && b.frag !in live
    ensures Holds(rxbufs, rd, wr, xdp + [b], live[b.frag := b.dma], place', Empty)
  {
    hide SlotOf;
    place' := place[b.frag := InXdp(|xdp|)];
  }

  lemma XdpHeadMapped(rxbufs: seq<RxBuf>, wr: nat, xdp: seq<RxBuf>, live: map<nat, nat>, place: map<nat, Place>)
    requires Holds(rxbufs, 0, wr, xdp, live, place, Empty) && xdp != []
    ensures Mapped(xdp[0], live)
  {
  }

  /** Releasing the buffer of one place leaves the others' live. */
  lemma StillAt(b: RxBuf, gone: RxBuf, live: map<nat, nat>, place: map<nat, Place>, p: Place, q: Place)
    requires At(b, live, place, p) && At(gone, live, place, q) && p != q
    ensures b.frag != gone.frag && Mapped(b, live - {gone.frag}) && place[b.frag] == p
  {
  }

  /** Where the buffers are when the XDP slots have moved down by one. */
  function ShiftedPlaces(place: map<nat, Place>, gone: nat): map<nat, Place> {
    map f | f in place && f != gone ::
      if place[f].InXdp? && place[f].j > 0 then InXdp(place[f].j - 1) else place[f]
  }

  lemma UnstockXdp(rxbufs: seq<RxBuf>, rd: nat, wr: nat, xdp: seq<RxBuf>, live: map<nat, nat>, place: map<nat, Place>)
    returns (place': map<nat, Place>)
    requires Holds(rxbufs, rd, wr, xdp, live, place, Empty) && xdp != []
    ensures Mapped(xdp[0], live)
    ensures Holds(rxbufs, rd, wr, xdp[1..], live - {xdp[0].frag}, place', Empty)
  {
    hide SlotOf, Mapped, Really;
    var gone := xdp[0].frag;
    place' := ShiftedPlaces(place, gone);
    var live' := live - {gone};
    assert At(xdp[0], live, place, InXdp(0));
    forall n | rd <= n < wr ensures At(rxbufs[SlotOf(n, |rxbufs|)], live', place', InRx(n)) {
      StillAt(rxbufs[SlotOf(n, |rxbufs|)], xdp[0], live, place, InRx(n), InXdp(0));
    }
    forall j | 0 <= j < |xdp| - 1 ensures At(xdp[1..][j], live', place', InXdp(j)) {
      StillAt(xdp[j + 1], xdp[0], live, place, InXdp(j + 1), InXdp(0));
    }
    forall f | f in live' ensures f in place' && Really(rxbufs, rd, wr, xdp[1..], Empty, f, place'[f]) {
      ShiftedReally(rxbufs, rd, wr, xdp, f, place, gone);
    }
  }

  lemma ShiftedReally(rxbufs: seq<RxBuf>, rd: nat, wr: nat, xdp: seq<RxBuf>, f: nat, place: map<nat, Place>, gone: nat)
    requires |rxbufs| > 0 && xdp != [] && gone == xdp[0].frag && f != gone
    requires f in place && Really(rxbufs, rd, wr, xdp, Empty, f, place[f])
    ensures var place' := ShiftedPlaces(place, gone);
      f in place' && Really(rxbufs, rd, wr, xdp[1..], Empty, f, place'[f])
  {
    hide SlotOf;
  }

  /** Nothing held anywhere: nothing is live. */
  lemma NothingHeld(rxbufs: seq<RxBuf>, rd: nat, live: map<nat, nat>, place: map<nat, Place>)
    requires Holds(rxbufs, rd, rd, [], live, place, Empty)
    ensures live == map[]
  {
    assert live.Keys == {};
  }

  /** With no RX position in use, the counters and slots do not matter. */
  lemma Rebase(rxbufs: seq<RxBuf>, rd: nat, rxbufs': seq<RxBuf>, xdp: seq<RxBuf>, live: map<nat, nat>,
               place: map<nat, Place>)
    requires Holds(rxbufs, rd, rd, xdp, live, place, Empty) && |rxbufs'| > 0
    ensures Holds(rxbufs', 0, 0, xdp, live, place, Empty)
  {
  }

  /** All the places hold different buffers: RX positions among themselves,
      XDP slots among themselves, and the one kind against the other. */
  lemma AllDistinct(rxbufs: seq<RxBuf>, rd: nat, wr: nat, xdp: seq<RxBuf>, live: map<nat, nat>,
                    place: map<nat, Place>, hand: Hand)
    requires Holds(rxbufs, rd, wr, xdp, live, place, hand)
    ensures forall m, n :: rd <= m < n < wr ==> rxbufs[SlotOf(m, |rxbufs|)].frag != rxbufs[SlotOf(n, |rxbufs|)].frag
    ensures forall i, j :: 0 <= i < j < |xdp| ==> xdp[i].frag != xdp[j].frag
    ensures forall n, j :: rd <= n < wr && 0 <= j < |xdp| ==> rxbufs[SlotOf(n, |rxbufs|)].frag != xdp[j].frag
    ensures hand.Carries? ==> forall n :: rd <= n < wr ==> rxbufs[SlotOf(n, |rxbufs|)].frag != hand.buf.frag
    ensures hand.Carries? ==> forall j :: 0 <= j < |xdp| ==> xdp[j].frag != hand.buf.frag
  {
    hide SlotOf;
  }

  // --- nfp_net_rx_ring_reset() -----------------------------------------------------

  /** Move the last slot's buffer into the empty slot e, and clear the last. */
  function Pack(rxbufs: seq<RxBuf>, e: nat): (p: seq<RxBuf>)
    requires e < |rxbufs|
    ensures |p| == |rxbufs|
  {
    rxbufs[e := rxbufs[|rxbufs| - 1]][|rxbufs| - 1 := NO_BUF]
  }

  /** Where packing moves the buffer of slot i. */
  function PackedSlot(i: nat, e: nat, cnt: nat): nat {
    if i == cnt - 1 then e else i
  }

  function PackedPlaces(place: map<nat, Place>, e: nat, cnt: nat): map<nat, Place>
    requires cnt > 0
  {
    map f | f in place ::
      if place[f].InRx? then InRx(PackedSlot(SlotOf(place[f].n, cnt), e, cnt)) else place[f]
  }

  /** On a filled ring packing leaves every buffer of the ring in slots
      0..cnt-2, one each, ready to be given again or freed. */
  lemma PackFilled(rxbufs: seq<RxBuf>, rd: nat, xdp: seq<RxBuf>, live: map<nat, nat>, place: map<nat, Place>)
    returns (place': map<nat, Place>)
    requires |rxbufs| > 0 && Holds(rxbufs, rd, rd + |rxbufs| - 1, xdp, live, place, Empty)
    ensures Holds(Pack(rxbufs, SlotOf(rd + |rxbufs| - 1, |rxbufs|)), 0, |rxbufs| - 1, xdp, live, place', Empty)
  {
    hide SlotOf, Pack;
    var c := |rxbufs|;
    var e := SlotOf(rd + c - 1, c);
    var p := Pack(rxbufs, e);
    place' := PackedPlaces(place, e, c);
    forall i | 0 <= i < c - 1 ensures At(p[SlotOf(i, c)], live, place', InRx(i)) {
      PackedAt(rxbufs, rd, xdp, live, place, i);
    }
    forall f | f in live ensures f in place' && Really(p, 0, c - 1, xdp, Empty, f, place'[f]) {
      PackedReally(rxbufs, rd, xdp, live, place, f);
    }
  }

  lemma PackedAt(rxbufs: seq<RxBuf>, rd: nat, xdp: seq<RxBuf>, live: map<nat, nat>, place: map<nat, Place>, i: nat)
    requires |rxbufs| > 0 && Holds(rxbufs, rd, rd + |rxbufs| - 1, xdp, live, place, Empty) && i < |rxbufs| - 1
    ensures var c := |rxbufs|; var e := SlotOf(rd + c - 1, c);
      At(Pack(rxbufs, e)[SlotOf(i, c)], live, PackedPlaces(place, e, c), InRx(i))
  {
    var c := |rxbufs|;
    var e := SlotOf(rd + c - 1, c);
    Small(i, c);
    var source := if i == e then c - 1 else i;
    assert Pack(rxbufs, e)[i] == rxbufs[source];
    var n := SlotCovered(rd, source, c);
    Small(source, c);
    assert n != rd + c - 1;
    assert At(rxbufs[SlotOf(n, c)], live, place, InRx(n));
  }

  lemma PackedReally(rxbufs: seq<RxBuf>, rd: nat, xdp: seq<RxBuf>, live: map<nat, nat>, place: map<nat, Place>, f: nat)
    requires |rxbufs| > 0 && Holds(rxbufs, rd, rd + |rxbufs| - 1, xdp, live, place, Empty) && f in live
    ensures var c := |rxbufs|; var e := SlotOf(rd + c - 1, c); var place' := PackedPlaces(place, e, c);
      f in place' && Really(Pack(rxbufs, e), 0, c - 1, xdp, Empty, f, place'[f])
  {
    var c := |rxbufs|;
    var e := SlotOf(rd + c - 1, c);
    assert f in place && Really(rxbufs, rd, rd + c - 1, xdp, Empty, f, place[f]);
    if place[f].InRx? {
      var n := place[f].n;
      OtherSlots(rd + c - 1, rd, c);
      Small(PackedSlot(SlotOf(n, c), e, c), c);
    }
  }

  /** Packing loses a buffer exactly when the slot at the write pointer holds
      one that no other slot holds. */
  lemma PackLosesIff(rxbufs: seq<RxBuf>, e: nat)
    requires e < |rxbufs|
    ensures (exists b :: b in rxbufs && b.frag != 0 && b !in Pack(rxbufs, e))
       <==> rxbufs[e].frag != 0 && forall i :: 0 <= i < |rxbufs| && i != e ==> rxbufs[i] != rxbufs[e]
  {
    var p, last := Pack(rxbufs, e), |rxbufs| - 1;
    forall i | 0 <= i < |rxbufs| && i != e ensures rxbufs[i] in p || rxbufs[i].frag == 0 {
      var k := if i == last then e else i;
      if e != last || i != last {
        assert p[k] == rxbufs[i];
      }
    }
    if forall i :: 0 <= i < |rxbufs| && i != e ==> rxbufs[i] != rxbufs[e] {
      assert forall i :: 0 <= i < |p| ==>
          p[i] == NO_BUF || exists k :: 0 <= k < |rxbufs| && k != e && p[i] == rxbufs[k] by
      {
        forall i | 0 <= i < |p| && p[i] != NO_BUF
          ensures exists k :: 0 <= k < |rxbufs| && k != e && p[i] == rxbufs[k]
        {
          var k := if i == e then last else i;
          assert k != e && p[i] == rxbufs[k];
        }
      }
      assert rxbufs[e].frag != 0 ==> rxbufs[e] !in p;
      assert rxbufs[e] in rxbufs;
    }
  }

  /** Resetting a ring that was stocked but never given to the device: the
      write pointer still stands at slot 0, so that slot's buffer is lost. */
  lemma ResetUnfilledLoses(rxbufs: seq<RxBuf>, xdp: seq<RxBuf>, live: map<nat, nat>, place: map<nat, Place>)
    requires |rxbufs| >= 2 && rxbufs[|rxbufs| - 1] == NO_BUF
    requires Holds(rxbufs, 0, |rxbufs| - 1, xdp, live, place, Empty)
    ensures exists b :: b in rxbufs && b.frag != 0 && b !in Pack(rxbufs, 0)
  {
    var c := |rxbufs|;
    AllDistinct(rxbufs, 0, c - 1, xdp, live, place, Empty);
    SlotOfSmall(0, c);
    forall i | 0 <= i < c && i != 0 ensures rxbufs[i] != rxbufs[0] {
      SlotOfSmall(i, c);
    }
    PackLosesIff(rxbufs, 0);
  }
}
