/** The control channel: a software queue of messages in front of a TX ring,
    nfp_ctrl_tx(), __nfp_ctrl_tx_queued() and nfp_ctrl_poll(), all under the
    vector's lock. */
module CtrlQueue {
  import opened Words
  import opened TxRings
  import opened TxLifecycle

  /** Message numbers below n that are not in `dropped`, in order. */
  function Survivors(n: nat, dropped: set<nat>): seq<nat> {
    if n == 0 then []
    else Survivors(n - 1, dropped) + (if n - 1 in dropped then [] else [n - 1])
  }

  lemma {:induction false} SurvivorsIncrease(n: nat, dropped: set<nat>)
    ensures var s := Survivors(n, dropped);
      && (forall i :: 0 <= i < |s| ==> s[i] < n && s[i] !in dropped)
      && (forall i, j :: 0 <= i < j < |s| ==> s[i] < s[j])
      && (forall m: nat :: m < n && m !in dropped ==> m in s)
  {
    if n > 0 {
      SurvivorsIncrease(n - 1, dropped);
    }
  }

  lemma {:induction false} FutureDropIsHarmless(n: nat, dropped: set<nat>, m: nat)
    requires m >= n
    ensures Survivors(n, dropped + {m}) == Survivors(n, dropped)
  {
    if n > 0 {
      FutureDropIsHarmless(n - 1, dropped, m);
    }
  }

  /** Dropping one waiting message takes just that message out of the order. */
  lemma {:induction false} DropOne(n: nat, dropped: set<nat>, a: seq<nat>, m: nat, b: seq<nat>)
    requires Survivors(n, dropped) == a + [m] + b
    ensures m < n && m !in dropped
    ensures Survivors(n, dropped + {m}) == a + b
  {
    var init := Survivors(n - 1, dropped);
    if n - 1 in dropped {
      DropOne(n - 1, dropped, a, m, b);
    } else {
      SplitLast(init, n - 1, a, m, b);
      if b == [] {
        FutureDropIsHarmless(n - 1, dropped, m);
        assert a + b == a;
      } else {
        var b' := b[..|b| - 1];
        DropOne(n - 1, dropped, a, m, b');
        assert a + b == (a + b') + [n - 1];
      }
    }
  }

  lemma SplitLast<T>(init: seq<T>, x: T, a: seq<T>, m: T, b: seq<T>)
    requires init + [x] == a + [m] + b
    ensures b == [] ==> a == init && m == x
    ensures b != [] ==> b == b[..|b| - 1] + [x] && init == a + [m] + b[..|b| - 1]
  {
    var s := init + [x];
    assert s[..|s| - 1] == init && s[|s| - 1] == x;
    if b == [] {
      assert s == a + [m];
    } else {
      assert s == (a + [m] + b[..|b| - 1]) + [b[|b| - 1]];
    }
  }

  /** What the order equation means: messages reach the ring in submission
      order, those still waiting were submitted after every one sent, and a
      message that is in neither place was dropped. */
  lemma OrderMeans(n: nat, dropped: set<nat>, sent: seq<nat>, waiting: seq<nat>)
    requires sent + waiting == Survivors(n, dropped)
    ensures forall i, j :: 0 <= i < j < |sent| ==> sent[i] < sent[j]
    ensures forall i, j :: 0 <= i < |sent| && 0 <= j < |waiting| ==> sent[i] < waiting[j]
    ensures forall i, j :: 0 <= i < j < |waiting| ==> waiting[i] < waiting[j]
    ensures forall m: nat :: m < n ==> (m in dropped <==> m !in sent && m !in waiting)
  {
    hide Survivors;
    SurvivorsIncrease(n, dropped);
    var s := Survivors(n, dropped);
    assert s == sent + waiting;
    forall i, j | 0 <= i < |sent| && 0 <= j < |waiting| ensures sent[i] < waiting[j] {
      assert s[i] == sent[i] && s[|sent| + j] == waiting[j];
    }
    forall i, j | 0 <= i < j < |waiting| ensures waiting[i] < waiting[j] {
      assert s[|sent| + i] == waiting[i] && s[|sent| + j] == waiting[j];
    }
    forall i, j | 0 <= i < j < |sent| ensures sent[i] < sent[j] {
      assert s[i] == sent[i] && s[j] == sent[j];
    }
    forall m: nat | m < n ensures m in dropped <==> m !in sent && m !in waiting {
      assert m in s <==> m in sent || m in waiting;
    }
  }

  /** The message as it goes on the ring: two words of metadata in front. */
  function Prepared(skb: Skb, hasMeta: bool): Skb {
    if hasMeta && skb.headroom >= 8 then skb.(headroom := skb.headroom - 8, headLen := skb.headLen + 8) else skb
  }

  /** Message `skb` as it must be on the ring: in one piece and, if the
      application has metadata, 8 bytes longer at the front, all of it mapped. */
  ghost predicate Carries(b: TxBuf, mapped: map<nat, Mapping>, skb: Skb, hasMeta: bool) {
    var meta := if hasMeta then 8 else 0;
    && b.skb.Some? && b.fidx == -1 && b.skb.value.id == skb.id && b.skb.value.fragLens == []
    && b.skb.value.headroom == skb.headroom - meta
    && b.dma in mapped && mapped[b.dma] == Single(skb.headLen + meta)
  }

  /** The ring holds the last messages sent, the queue the ones waiting. */
  ghost predicate Tracks(inRing: seq<TxBuf>, queue: seq<Skb>, submitted: seq<Skb>, sent: seq<nat>,
                         waiting: seq<nat>, hasMeta: bool)
  {
    && |inRing| <= |sent| && |queue| == |waiting|
    && (forall i :: 0 <= i < |sent| ==> sent[i] < |submitted|)
    && (forall i :: 0 <= i < |waiting| ==> waiting[i] < |submitted| && queue[i] == submitted[waiting[i]])
    && (forall i :: 0 <= i < |inRing| ==>
          inRing[i].skb == Some(Prepared(submitted[sent[|sent| - |inRing| + i]], hasMeta)))
    && (forall i, j :: 0 <= i < j < |submitted| ==> submitted[i].id != submitted[j].id)
  }

  lemma TracksSend(inRing: seq<TxBuf>, queue: seq<Skb>, submitted: seq<Skb>, sent: seq<nat>,
                   waiting: seq<nat>, hasMeta: bool, m: nat, b: TxBuf)
    requires Tracks(inRing, queue, submitted, sent, waiting, hasMeta)
    requires m < |submitted| && b.skb == Some(Prepared(submitted[m], hasMeta))
    ensures Tracks(inRing + [b], queue, submitted, sent + [m], waiting, hasMeta)
  {
  }

  lemma TracksComplete(inRing: seq<TxBuf>, queue: seq<Skb>, submitted: seq<Skb>, sent: seq<nat>,
                       waiting: seq<nat>, hasMeta: bool, k: int)
    requires Tracks(inRing, queue, submitted, sent, waiting, hasMeta)
    ensures Tracks(Drop(inRing, k), queue, submitted, sent, waiting, hasMeta)
  {
    var left := Drop(inRing, k);
    forall i | 0 <= i < |left|
      ensures left[i].skb == Some(Prepared(submitted[sent[|sent| - |left| + i]], hasMeta))
    {
      assert left[i] == inRing[|inRing| - |left| + i];
    }
  }

  /** A message not yet sent shares no buffer with the ring. */
  lemma NotInRing(inRing: seq<TxBuf>, queue: seq<Skb>, submitted: seq<Skb>, sent: seq<nat>,
                  waiting: seq<nat>, hasMeta: bool, dropped: set<nat>, m: nat, skbs: set<Skb>)
    requires Tracks(inRing, queue, submitted, sent, waiting, hasMeta) && HoldsExactly(inRing, skbs)
    requires m < |submitted| && sent + [m] + waiting == Survivors(|submitted|, dropped)
    ensures Prepared(submitted[m], hasMeta) !in skbs
  {
    var p := Prepared(submitted[m], hasMeta);
    assert sent + ([m] + waiting) == sent + [m] + waiting;
    OrderMeans(|submitted|, dropped, sent, [m] + waiting);
    forall i | 0 <= i < |inRing| ensures inRing[i].skb != Some(p) {
      var j := |sent| - |inRing| + i;
      assert sent[j] < ([m] + waiting)[0];
    }
  }

  class CtrlVec {
    const tq: TxQueue
    const hasMeta: bool
    var queue: seq<Skb>

    /** Every message handed to nfp_ctrl_tx(), in order. */
    ghost var submitted: seq<Skb>
    ghost var dropped: set<nat>
    /** Numbers of the messages put on the ring, and of those in the queue. */
    ghost var sent: seq<nat>
    ghost var waiting: seq<nat>

    ghost predicate Core()
      reads this, tq, tq.ring, tq.ring.txbufs, tq.ledger
    {
      && tq.Valid() && !tq.stopped && tq.ring.wrPtrAdd == 0
      && (forall m :: m in dropped ==> m < |submitted|)
      && Tracks(tq.q, queue, submitted, sent, waiting, hasMeta)
    }

    /** Holds whenever the vector's lock is free. */
    ghost predicate Valid()
      reads this, tq, tq.ring, tq.ring.txbufs, tq.ledger
    {
      && Core()
      && sent + waiting == Survivors(|submitted|, dropped)
      && (queue != [] ==> tq.ring.Full(1))
    }

    constructor (cnt: u32, hasMeta: bool)
      requires RingSize(cnt)
      ensures Valid() && submitted == [] && queue == []
      ensures fresh(tq) && fresh(tq.ring) && fresh(tq.ring.txbufs) && fresh(tq.ledger)
    {
      tq := new TxQueue(cnt);
      this.hasMeta := hasMeta;
      queue := [];
      submitted, dropped, sent, waiting := [], {}, [], [];
    }

    /** One piece, and room in front of it for the metadata if there is any. */
    predicate Sendable(skb: Skb) {
      skb.fragLens == [] && (hasMeta ==> skb.headroom >= 8)
    }

    /** Messages dropped since, although there was nothing wrong with them. */
    ghost function Lost(dropped0: set<nat>): set<nat>
      requires forall m :: m in dropped ==> m < |submitted|
      reads this
    {
      set m | m in dropped && m !in dropped0 && Sendable(submitted[m])
    }

    /** The newest descriptor carries `skb`. */
    ghost predicate JustSent(skb: Skb)
      reads this, tq, tq.ledger
    {
      tq.q != [] && Carries(tq.q[|tq.q| - 1], tq.ledger.mapped, skb, hasMeta)
    }

    /** nfp_ctrl_tx_one() for message number m, which `requeue` says was just
        taken from the head of the queue rather than newly submitted. */
    method TxOne(skb: Skb, requeue: bool, ghost m: nat) returns (busy: bool)
      requires Core() && m < |submitted| && skb == submitted[m]
      requires requeue ==> sent + [m] + waiting == Survivors(|submitted|, dropped)
      requires !requeue ==> sent + waiting + [m] == Survivors(|submitted|, dropped) && (queue != [] ==> tq.ring.Full(1))
      modifies this`queue, this`dropped, this`sent, this`waiting, tq, tq.ring, tq.ring.txbufs, tq.ledger
      ensures Core() && sent + waiting == Survivors(|submitted|, dropped)
      ensures tq.ring.rd == old(tq.ring.rd) && tq.ring.devRd == old(tq.ring.devRd)
      ensures busy <==> skb.fragLens == [] && old(tq.ring.Full(1))
      ensures busy ==> tq.ring.Full(1) && queue == if requeue then [skb] + old(queue) else old(queue) + [skb]
      ensures busy ==> sent == old(sent) && dropped == old(dropped)
      ensures !busy ==> queue == old(queue) && waiting == old(waiting)
      ensures !busy && queue != [] && !requeue ==> tq.ring.Full(1)
      ensures m !in old(dropped)
      ensures tq.ledger.failures ==
                old(tq.ledger.failures) + (if Sendable(skb) && dropped != old(dropped) then 1 else 0)
      ensures !busy && Sendable(skb) && tq.ledger.failures == old(tq.ledger.failures) ==>
                sent == old(sent) + [m] && dropped == old(dropped) && JustSent(skb)
      ensures !busy && !(Sendable(skb) && tq.ledger.failures == old(tq.ledger.failures)) ==>
                sent == old(sent) && dropped == old(dropped) + {m} && tq.q == old(tq.q)
    {
      hide Survivors, Tracks, TxFull, tq.Valid;
      NotDropped(requeue, m);
      if skb.fragLens != [] {
        DropMessage(requeue, m);
        return false;
      }
      TracksEnqueue(tq.q, queue, submitted, sent, waiting, hasMeta, m);
      if tq.ring.Full(1) {
        if !requeue {
          queue, waiting := queue + [skb], waiting + [m];
          assert sent + (old(waiting) + [m]) == sent + old(waiting) + [m];
        } else {
          queue, waiting := [skb] + queue, [m] + waiting;
          assert sent + ([m] + old(waiting)) == sent + [m] + old(waiting);
        }
        return true;
      }
      if hasMeta && skb.headroom < 8 {
        DropMessage(requeue, m);
        return false;
      }
      assert !requeue ==> waiting == [] && sent + [m] + waiting == sent + waiting + [m];
      var _ := Send(skb, m);
      busy := false;
    }

    lemma NotDropped(requeue: bool, m: nat)
      requires requeue ==> sent + [m] + waiting == Survivors(|submitted|, dropped)
      requires !requeue ==> sent + waiting + [m] == Survivors(|submitted|, dropped)
      ensures m !in dropped
    {
      hide Survivors;
      SurvivorsIncrease(|submitted|, dropped);
      if requeue {
        assert (sent + [m] + waiting)[|sent|] == m;
      } else {
        assert (sent + waiting + [m])[|sent + waiting|] == m;
      }
    }

    /** The err_free path: the message is gone. */
    ghost method DropMessage(requeue: bool, m: nat)
      requires requeue ==> sent + [m] + waiting == Survivors(|submitted|, dropped)
      requires !requeue ==> sent + waiting + [m] == Survivors(|submitted|, dropped)
      modifies this`dropped
      ensures dropped == old(dropped) + {m}
      ensures sent + waiting == Survivors(|submitted|, dropped)
    {
      if requeue {
        DropOne(|submitted|, dropped, sent, m, waiting);
      } else {
        assert sent + waiting + [m] + [] == sent + waiting + [m];
        DropOne(|submitted|, dropped, sent + waiting, m, []);
        assert sent + waiting + [] == sent + waiting;
      }
      dropped := dropped + {m};
    }

    lemma ReadyToSend(skb: Skb, m: nat)
      requires Core() && m < |submitted| && skb == submitted[m] && skb.fragLens == []
      requires sent + [m] + waiting == Survivors(|submitted|, dropped) && !tq.ring.Full(1)
      ensures tq.ring.wr + 1 < tq.ring.rd + tq.ring.cnt
      ensures Prepared(skb, hasMeta) !in tq.ledger.skbs && Prepared(skb, hasMeta).fragLens == []
    {
      hide Owned, Window, Survivors, Tracks, HoldsExactly;
      RingSizeBounds(tq.ring.cnt);
      TxFullExact(tq.ring.wr, tq.ring.rd, tq.ring.cnt, 1);
      OwnedHolds(tq.q, tq.ledger.mapped, tq.ledger.skbs);
      NotInRing(tq.q, queue, submitted, sent, waiting, hasMeta, dropped, m, tq.ledger.skbs);
    }

    /** There is room: map the message and put it on the ring. */
    method Send(skb: Skb, ghost m: nat) returns (ok: bool)
      requires Core() && m < |submitted| && skb == submitted[m] && skb.fragLens == []
      requires sent + [m] + waiting == Survivors(|submitted|, dropped)
      requires !tq.ring.Full(1)
      modifies this`dropped, this`sent, tq, tq.ring, tq.ring.txbufs, tq.ledger
      ensures Core() && sent + waiting == Survivors(|submitted|, dropped)
      ensures tq.ring.rd == old(tq.ring.rd) && tq.ring.devRd == old(tq.ring.devRd)
      ensures tq.ledger.failures == old(tq.ledger.failures) + (if ok then 0 else 1)
      ensures ok ==> sent == old(sent) + [m] && dropped == old(dropped) && (Sendable(skb) ==> JustSent(skb))
      ensures !ok ==> sent == old(sent) && dropped == old(dropped) + {m} && tq.q == old(tq.q)
    {
      hide Survivors, Tracks, Carries, Owned, Prepared, TxQueue.Valid, TxFull;
      var p := Prepared(skb, hasMeta);
      ReadyToSend(skb, m);
      ghost var q0 := tq.q;
      ghost var handles;
      ok, handles := tq.TransmitSingle(p);
      if ok {
        NoteSent(skb, m, q0, handles[0]);
      } else {
        DropMessage(true, m);
      }
    }

    ghost method NoteSent(skb: Skb, m: nat, q0: seq<TxBuf>, h: nat)
      requires tq.Valid() && tq.q == q0 + [TxBuf(Some(Prepared(skb, hasMeta)), h, -1)]
      requires Tracks(q0, queue, submitted, sent, waiting, hasMeta)
      requires m < |submitted| && skb == submitted[m] && skb.fragLens == []
      modifies this`sent
      ensures sent == old(sent) + [m] && Tracks(tq.q, queue, submitted, sent, waiting, hasMeta)
      ensures Sendable(skb) ==> JustSent(skb)
    {
      hide Tracks, Carries, Owned, Prepared, TxQueue.Valid;
      TracksSend(q0, queue, submitted, sent, waiting, hasMeta, m, TxBuf(Some(Prepared(skb, hasMeta)), h, -1));
      OwnedNow(tq);
      NewestCarries(tq.q, tq.ledger.mapped, tq.ledger.skbs, skb, hasMeta);
      sent := sent + [m];
    }

    /** nfp_ctrl_tx(): the lock is taken and released around one message. */
    method CtrlTx(skb: Skb) returns (busy: bool)
      requires Valid() && forall i :: 0 <= i < |submitted| ==> submitted[i].id != skb.id
      modifies this, tq, tq.ring, tq.ring.txbufs, tq.ledger
      ensures Valid() && submitted == old(submitted) + [skb]
      ensures busy <==> skb.fragLens == [] && old(tq.ring.Full(1))
      ensures busy ==> queue == old(queue) + [skb] && sent == old(sent) && dropped == old(dropped)
      ensures !busy ==> queue == old(queue)
      ensures !busy && Sendable(skb) && tq.ledger.failures == old(tq.ledger.failures) ==>
                sent == old(sent) + [|old(submitted)|] && dropped == old(dropped) && JustSent(skb)
      ensures !busy && !(Sendable(skb) && tq.ledger.failures == old(tq.ledger.failures)) ==>
                sent == old(sent) && dropped == old(dropped) + {|old(submitted)|} && tq.q == old(tq.q)
    {
      hide Window, RingSize, Owned;
      ghost var m := |submitted|;
      submitted := submitted + [skb];
      OrderExtends(m, dropped, sent, waiting);
      busy := TxOne(skb, false, m);
    }

    /** __nfp_ctrl_tx_queued(): refill the ring from the queue. Entered with
        the order intact but, after completions, room on the ring. */
    method TxQueued()
      requires Core() && sent + waiting == Survivors(|submitted|, dropped)
      modifies this`queue, this`waiting, this`dropped, this`sent, tq, tq.ring, tq.ring.txbufs, tq.ledger
      ensures Valid()
      ensures tq.ring.rd == old(tq.ring.rd) && tq.ring.devRd == old(tq.ring.devRd)
      ensures old(sent) <= sent && |waiting| <= |old(waiting)|
      ensures old(dropped) <= dropped && old(tq.ledger.failures) + |Lost(old(dropped))| == tq.ledger.failures
    {
      hide Window, RingSize, Owned, Survivors, Tracks;
      while queue != []
        invariant Core() && sent + waiting == Survivors(|submitted|, dropped)
        invariant tq.ring.rd == old(tq.ring.rd) && tq.ring.devRd == old(tq.ring.devRd)
        invariant old(sent) <= sent && |waiting| <= |old(waiting)|
        invariant old(dropped) <= dropped && old(tq.ledger.failures) + |Lost(old(dropped))| == tq.ledger.failures
        decreases |queue|
        modifies this`queue, this`waiting, this`dropped, this`sent, tq, tq.ring, tq.ring.txbufs, tq.ledger
      {
        TracksDequeue(tq.q, queue, submitted, sent, waiting, hasMeta);
        var skb := queue[0];
        ghost var m := waiting[0];
        queue, waiting := queue[1..], waiting[1..];
        assert sent + [m] + waiting == sent + ([m] + waiting);
        ghost var lost, dropped1 := Lost(old(dropped)), dropped;
        var busy := TxOne(skb, true, m);
        assert Lost(old(dropped)) == if dropped == dropped1 || !Sendable(skb) then lost else lost + {m};
        if busy {
          return;
        }
      }
    }

    /** nfp_net_tx_complete() on the control ring. */
    method CompleteCtrl()
      requires Core()
      modifies tq, tq.ring, tq.ring.txbufs, tq.ledger
      ensures Core() && old(tq.ring.rd) <= tq.ring.rd == tq.ring.devRd && old(tq.ring.devRd) <= tq.ring.devRd
      ensures tq.ledger.failures == old(tq.ledger.failures)
    {
      hide Window, RingSize, Owned, Tracks, ShouldWake, TxFull, SlotOf;
      ghost var q0, rd0 := tq.q, tq.ring.rd;
      tq.Complete();
      TracksComplete(q0, queue, submitted, sent, waiting, hasMeta, tq.ring.rd - rd0);
    }

    /** nfp_ctrl_poll(), the part under the lock. */
    method Poll()
      requires Valid()
      modifies this`queue, this`waiting, this`dropped, this`sent, tq, tq.ring, tq.ring.txbufs, tq.ledger
      ensures Valid() && old(tq.ring.rd) <= tq.ring.rd == tq.ring.devRd && old(tq.ring.devRd) <= tq.ring.devRd
      ensures old(sent) <= sent && |waiting| <= |old(waiting)|
      ensures old(dropped) <= dropped && old(tq.ledger.failures) + |Lost(old(dropped))| == tq.ledger.failures
    {
      hide Core, Survivors, TxFull;
      CompleteCtrl();
      TxQueued();
    }
  }

  lemma OwnedHolds(q: seq<TxBuf>, mapped: map<nat, Mapping>, skbs: set<Skb>)
    requires Owned(q, mapped, skbs)
    ensures HoldsExactly(q, skbs)
  {
  }

  lemma NewestCarries(q: seq<TxBuf>, mapped: map<nat, Mapping>, skbs: set<Skb>, skb: Skb, hasMeta: bool)
    requires q != [] && Owned(q, mapped, skbs) && skb.fragLens == []
    requires q[|q| - 1].skb == Some(Prepared(skb, hasMeta)) && q[|q| - 1].fidx == -1
    ensures (hasMeta ==> skb.headroom >= 8) ==> Carries(q[|q| - 1], mapped, skb, hasMeta)
  {
  }

  lemma TracksEnqueue(inRing: seq<TxBuf>, queue: seq<Skb>, submitted: seq<Skb>, sent: seq<nat>,
                      waiting: seq<nat>, hasMeta: bool, m: nat)
    requires Tracks(inRing, queue, submitted, sent, waiting, hasMeta) && m < |submitted|
    ensures |queue| == |waiting|
    ensures Tracks(inRing, queue + [submitted[m]], submitted, sent, waiting + [m], hasMeta)
    ensures Tracks(inRing, [submitted[m]] + queue, submitted, sent, [m] + waiting, hasMeta)
  {
  }

  lemma TracksDequeue(inRing: seq<TxBuf>, queue: seq<Skb>, submitted: seq<Skb>, sent: seq<nat>,
                      waiting: seq<nat>, hasMeta: bool)
    requires Tracks(inRing, queue, submitted, sent, waiting, hasMeta) && queue != []
    ensures |waiting| == |queue| && waiting[0] < |submitted| && queue[0] == submitted[waiting[0]]
    ensures Tracks(inRing, queue[1..], submitted, sent, waiting[1..], hasMeta)
    ensures waiting == [waiting[0]] + waiting[1..]
  {
  }

  lemma OrderExtends(n: nat, dropped: set<nat>, sent: seq<nat>, waiting: seq<nat>)
    requires sent + waiting == Survivors(n, dropped) && n !in dropped
    ensures sent + waiting + [n] == Survivors(n + 1, dropped)
  {
  }
}
