/** Changing the ring configuration as a transaction: nfp_net_ring_reconfig()
    with the preparation, swap and rollback it is made of. */
module RingReconfig {
  import opened Words

  const PAGE_SIZE: nat := 4096

  datatype Kind = Rx | Tx

  /** The parts of struct nfp_net_dp that decide what is allocated. Ring arrays
      are named by numbers; 0 is the null pointer. */
  datatype Dp = Dp(
    numTxRings: nat, numStackTxRings: nat, numRxRings: nat, numRVecs: nat,
    mtu: nat, txdCnt: nat, rxdCnt: nat, xdp: bool, flBufsz: nat,
    txRings: nat, rxRings: nat)
  {
    function Id(k: Kind): nat { if k.Rx? then rxRings else txRings }

    function Count(k: Kind): nat { if k.Rx? then numRxRings else numTxRings }

    /** The "bias" of nfp_net_tx_rings_prepare(): where the XDP rings start. */
    function Bias(r: nat): nat { if r >= numStackTxRings then numStackTxRings else 0 }

    /** The vector that ring r is set up with. */
    function Owner(k: Kind, r: nat): int { if k.Rx? then r else r - Bias(r) }

    /** RX rings own packet buffers, and so do the TX rings marked is_xdp. */
    predicate HasBufs(k: Kind, r: nat) { k.Rx? || Bias(r) != 0 }

    function WithRings(k: Kind, id: nat): Dp {
      if k.Rx? then this.(rxRings := id) else this.(txRings := id)
    }
  }

  /** Live allocations: an array of ring structures, and of one ring the
      descriptors, the software list beside them, and the packet buffers. */
  datatype Alloc =
    | Array(k: Kind, id: nat)
    | Descs(k: Kind, id: nat, r: nat)
    | Soft(k: Kind, id: nat, r: nat)
    | Bufs(k: Kind, id: nat, r: nat)

  /** The interrupts for exceptions and for link state changes. */
  datatype Aux = Exn | Lsc

  datatype Ref = Null | Ring(id: nat, idx: nat)

  /** Rings an interrupt vector serves. */
  datatype VecRings = VecRings(rx: Ref, tx: Ref, xdp: Ref)

  datatype Error = Ok | EINVAL | ENOMEM | EIRQ | EQUEUES | EPORT | EFIRMWARE

  /** How a reconfiguration ended. */
  datatype Outcome =
    | Done        // the new configuration is in force
    | Refused     // failed the configuration check
    | Unprepared  // ran out of memory or interrupts; the device was never stopped
    | Restored    // the new configuration would not start, the old one did
    | Lost        // neither would start

  function Max(a: nat, b: nat): nat { if a > b then a else b }

  /** The vectors 0..n-1. */
  ghost function Upto(n: nat): (s: set<nat>)
    ensures forall r: nat :: r in s <==> r < n
  {
    if n == 0 then {} else Upto(n - 1) + {n - 1}
  }

  /** What rings 0..n-1 of the array hold. */
  ghost function Tokens(k: Kind, d: Dp, n: nat): set<Alloc> {
    (set r: nat | r < n :: Descs(k, d.Id(k), r)) +
    (set r: nat | r < n :: Soft(k, d.Id(k), r)) +
    (set r: nat | r < n && d.HasBufs(k, r) :: Bufs(k, d.Id(k), r))
  }

  /** The memory of ring r alone. */
  ghost function MemTokens(k: Kind, d: Dp, r: nat): set<Alloc> {
    {Descs(k, d.Id(k), r), Soft(k, d.Id(k), r)}
  }

  /** The packet buffers on ring r alone. */
  ghost function BufTokens(k: Kind, d: Dp, r: nat): set<Alloc> {
    if d.HasBufs(k, r) then {Bufs(k, d.Id(k), r)} else {}
  }

  /** Everything nfp_net_{rx,tx}_rings_prepare() allocates. */
  ghost function Heap(k: Kind, d: Dp): set<Alloc> {
    {Array(k, d.Id(k))} + Tokens(k, d, d.Count(k))
  }

  /** All that a configuration owns. */
  ghost function Owned(d: Dp): set<Alloc> { Heap(Rx, d) + Heap(Tx, d) }

  lemma Grow(k: Kind, d: Dp, n: nat)
    ensures Tokens(k, d, n + 1) == Tokens(k, d, n) + MemTokens(k, d, n) + BufTokens(k, d, n)
    ensures Tokens(k, d, n) !! (MemTokens(k, d, n) + BufTokens(k, d, n))
  {
  }

  lemma NoTokens(k: Kind, d: Dp)
    ensures Tokens(k, d, 0) == {}
  {
  }

  lemma TokensIds(k: Kind, d: Dp, n: nat)
    ensures forall a :: a in Tokens(k, d, n) ==> a.k == k && a.id == d.Id(k) && !a.Array?
  {
  }

  lemma HeapIds(k: Kind, d: Dp)
    ensures forall a :: a in Heap(k, d) ==> a.k == k && a.id == d.Id(k)
    ensures Array(k, d.Id(k)) in Heap(k, d)
  {
  }

  /** Nothing in "keep" is part of d's ring arrays. */
  ghost predicate Foreign(keep: set<Alloc>, d: Dp) {
    forall a :: a in keep ==> a.id != d.Id(a.k)
  }

  lemma OwnApart(a: Dp, b: Dp)
    requires a.rxRings != b.rxRings && a.txRings != b.txRings
    ensures Foreign(Owned(a), b) && Foreign(Owned(b), a)
  {
    hide Heap;
    HeapIds(Rx, a);
    HeapIds(Tx, a);
    HeapIds(Rx, b);
    HeapIds(Tx, b);
  }

  /** Preparing the rings of one kind does not touch those of the other. */
  lemma OtherRings(d: Dp, id: nat)
    ensures Heap(Rx, d.WithRings(Tx, id)) == Heap(Rx, d)
    ensures Heap(Tx, d.WithRings(Rx, id)) == Heap(Tx, d)
  {
    var e, f := d.WithRings(Tx, id), d.WithRings(Rx, id);
    assert forall r: nat :: e.HasBufs(Rx, r) == d.HasBufs(Rx, r) && f.HasBufs(Tx, r) == d.HasBufs(Tx, r);
  }

  lemma {:induction false} TokensMonotone(k: Kind, d: Dp, m: nat, n: nat)
    requires m <= n
    ensures Tokens(k, d, m) <= Tokens(k, d, n)
    decreases n
  {
    if m < n {
      TokensMonotone(k, d, m, n - 1);
      Grow(k, d, n - 1);
    }
  }

  /** nfp_net_vector_assign_rings() */
  function Assigned(dp: Dp, idx: nat): VecRings {
    VecRings(
      if idx < dp.numRxRings then Ring(dp.rxRings, idx) else Null,
      if idx < dp.numStackTxRings then Ring(dp.txRings, idx) else Null,
      if idx < dp.numTxRings - dp.numStackTxRings then Ring(dp.txRings, dp.numStackTxRings + idx) else Null)
  }

  /** A configuration as the driver keeps it: with an XDP program every RX ring
      has a TX ring of its own after the stack's, and there is a vector for
      every ring. */
  predicate Shaped(dp: Dp, maxRVecs: nat) {
    && dp.numRxRings >= 1 && dp.numStackTxRings >= 1
    && dp.numTxRings == dp.numStackTxRings + (if dp.xdp then dp.numRxRings else 0)
    && Max(dp.numRxRings, dp.numStackTxRings) <= dp.numRVecs <= maxRVecs
  }

  /** The counts every caller of nfp_net_ring_reconfig() provides. */
  predicate Requestable(dp: Dp, maxRVecs: nat) {
    && 1 <= dp.numRxRings <= maxRVecs
    && 1 <= dp.numTxRings - (if dp.xdp then dp.numRxRings else 0) <= maxRVecs
  }

  /** The counts nfp_net_ring_reconfig() derives first. */
  function Derived(dp: Dp, flBufsz: nat, maxRVecs: nat): (d: Dp)
    requires Requestable(dp, maxRVecs)
    ensures Shaped(d, maxRVecs) && SameSettings(d, dp)
  {
    var stack := if dp.xdp then dp.numTxRings - dp.numRxRings else dp.numTxRings;
    dp.(flBufsz := flBufsz, numStackTxRings := stack, numRVecs := Max(dp.numRxRings, stack))
  }

  predicate SameSettings(a: Dp, b: Dp) {
    && a.numTxRings == b.numTxRings && a.numRxRings == b.numRxRings && a.mtu == b.mtu
    && a.txdCnt == b.txdCnt && a.rxdCnt == b.rxdCnt && a.xdp == b.xdp
  }

  /** nfp_net_check_config() */
  predicate Acceptable(d: Dp, maxTxRings: nat) {
    d.xdp ==> d.flBufsz <= PAGE_SIZE && d.numTxRings <= maxTxRings
  }

  lemma MaxCommutes(a: nat, b: nat)
    ensures Max(a, b) == Max(b, a)
  {
  }

  lemma UsesAVector(dp: Dp, maxRVecs: nat)
    requires Shaped(dp, maxRVecs)
    ensures 1 <= dp.numRVecs <= maxRVecs
  {
  }

  // --- Rings and vectors agree ------------------------------------------------------

  /** The vector a TX ring is given when it is set up is the vector that is
      given the ring, that vector is one of those in use, and no other vector
      serves the ring in any role. */
  lemma TxRingHasOneVector(dp: Dp, maxRVecs: nat, r: nat, i: nat)
    requires Shaped(dp, maxRVecs) && r < dp.numTxRings
    ensures 0 <= dp.Owner(Tx, r) < dp.numRVecs
    ensures Assigned(dp, i).tx == Ring(dp.txRings, r) || Assigned(dp, i).xdp == Ring(dp.txRings, r)
            <==> i == dp.Owner(Tx, r)
    ensures Assigned(dp, i).xdp == Ring(dp.txRings, r) ==> dp.HasBufs(Tx, r)
    ensures Assigned(dp, i).tx == Ring(dp.txRings, r) ==> !dp.HasBufs(Tx, r)
  {
  }

  /** So is every RX ring: ring r belongs to vector r alone. */
  lemma RxRingHasOneVector(dp: Dp, maxRVecs: nat, r: nat, i: nat)
    requires Shaped(dp, maxRVecs) && r < dp.numRxRings
    ensures dp.Owner(Rx, r) == r < dp.numRVecs
    ensures Assigned(dp, i).rx == Ring(dp.rxRings, r) <==> i == r
  {
  }

  /** No more vectors are taken than there are rings for. */
  lemma EveryVectorHasARing(dp: Dp, flBufsz: nat, maxRVecs: nat, i: nat)
    requires Requestable(dp, maxRVecs) && i < Derived(dp, flBufsz, maxRVecs).numRVecs
    ensures var v := Assigned(Derived(dp, flBufsz, maxRVecs), i); v.rx != Null || v.tx != Null
  {
  }

  /** With an XDP program every vector that receives also has an XDP ring to
      exchange buffers with; without one, none has. */
  lemma XdpRingsPairWithRx(dp: Dp, maxRVecs: nat, i: nat)
    requires Shaped(dp, maxRVecs)
    ensures Assigned(dp, i).xdp != Null <==> dp.xdp && Assigned(dp, i).rx != Null
    ensures Assigned(dp, i) != VecRings(Null, Null, Null) ==> i < dp.numRVecs
  {
  }

  class Net {
    const maxRVecs: nat
    const maxTxRings: nat
    var running: bool
    var dp: Dp
    var netdevMtu: nat
    /** Vectors with NAPI and an interrupt set up; those enabled among them. */
    var prepared: set<nat>
    var active: set<nat>
    /** Auxiliary interrupts requested, and whether the link one is enabled. */
    var aux: set<Aux>
    var lscOn: bool
    var portUp: bool
    var heap: set<Alloc>
    var nextId: nat
    /** How often the kernel or the firmware has failed a request. */
    ghost var faults: nat
    var vecs: seq<VecRings>
    var realRx: nat
    var realTx: nat
    /** Whether the firmware runs, and on which ring arrays. */
    var enabled: bool
    var hwRx: nat
    var hwTx: nat

    ghost predicate Fresh()
      reads this`heap, this`nextId
    {
      nextId > 0 && (forall a :: a in heap ==> a.id < nextId)
    }

    ghost predicate Consistent()
      reads this
    {
      && maxRVecs < TWO_32 && |vecs| == maxRVecs
      && Shaped(dp, maxRVecs) && netdevMtu == dp.mtu
      && Fresh()
    }

    /** The stack and the device work on dp's rings. */
    ghost predicate InForce(dp: Dp)
      reads this
    {
      && enabled && hwRx == dp.rxRings && hwTx == dp.txRings
      && realRx == dp.numRxRings && realTx == dp.numStackTxRings
    }

    /** While the interface runs, exactly the vectors in use are prepared and
        enabled, exactly the rings in use exist, every vector points at its
        rings, and the device, if the firmware runs, uses no others. */
    ghost predicate Valid()
      reads this
    {
      && Consistent()
      && (running ==>
            && prepared == active == Upto(dp.numRVecs) && aux == {Exn, Lsc} && lscOn
            && heap == Owned(dp)
            && (forall i :: 0 <= i < maxRVecs ==> vecs[i] == Assigned(dp, i))
            && (enabled ==> hwRx == dp.rxRings && hwTx == dp.txRings))
      && (!running ==> prepared == active == {} && aux == {} && !lscOn && heap == {} && !enabled)
    }

    /** Every ring a vector points at is live, with its buffers if it has any. */
    lemma VectorsPointAtLiveRings(i: nat)
      requires Valid() && running && i < maxRVecs
      ensures vecs[i].rx.Ring? ==>
                {Array(Rx, vecs[i].rx.id), Descs(Rx, vecs[i].rx.id, vecs[i].rx.idx),
                 Soft(Rx, vecs[i].rx.id, vecs[i].rx.idx),
                 Bufs(Rx, vecs[i].rx.id, vecs[i].rx.idx)} <= heap
      ensures vecs[i].tx.Ring? ==>
                {Array(Tx, vecs[i].tx.id), Descs(Tx, vecs[i].tx.id, vecs[i].tx.idx),
                 Soft(Tx, vecs[i].tx.id, vecs[i].tx.idx)} <= heap
      ensures vecs[i].xdp.Ring? ==>
                {Array(Tx, vecs[i].xdp.id), Descs(Tx, vecs[i].xdp.id, vecs[i].xdp.idx),
                 Soft(Tx, vecs[i].xdp.id, vecs[i].xdp.idx),
                 Bufs(Tx, vecs[i].xdp.id, vecs[i].xdp.idx)} <= heap
      ensures vecs[i] != VecRings(Null, Null, Null) ==> i in active
    {
      assert vecs[i] == Assigned(dp, i);
    }

    /** While the interface runs, RX ring r is polled by vector r and by no
        other, and that vector is enabled. */
    lemma RxRingIsServed(r: nat, i: nat)
      requires Valid() && running && r < dp.numRxRings && i < maxRVecs
      ensures r in active && (vecs[i].rx == Ring(dp.rxRings, r) <==> i == r)
    {
      RxRingHasOneVector(dp, maxRVecs, r, i);
      assert vecs[i] == Assigned(dp, i);
    }

    /** Every ring that exists is served: by the vector it was set up with,
        which is enabled, and by no other. */
    lemma LiveRingIsServed(a: Alloc, i: nat)
      requires Valid() && running && a in heap && !a.Array? && i < maxRVecs
      ensures a.id == dp.Id(a.k) && dp.Owner(a.k, a.r) in active
      ensures a.k.Rx? ==> (vecs[i].rx == Ring(a.id, a.r) <==> i == dp.Owner(Rx, a.r))
      ensures a.k.Tx? ==> (vecs[i].tx == Ring(a.id, a.r) || vecs[i].xdp == Ring(a.id, a.r) <==> i == dp.Owner(Tx, a.r))
      ensures a.k.Tx? && a.Bufs? ==> vecs[i].tx != Ring(a.id, a.r)
    {
      assert vecs[i] == Assigned(dp, i);
      assert a.r < dp.Count(a.k);
      if a.k.Rx? {
        RxRingHasOneVector(dp, maxRVecs, a.r, i);
      } else {
        TxRingHasOneVector(dp, maxRVecs, a.r, i);
      }
    }

    constructor (maxRVecs: nat, maxTxRings: nat, dp: Dp)
      requires Shaped(dp, maxRVecs) && maxRVecs < TWO_32
      ensures Valid() && !running && this.dp == dp
      ensures this.maxRVecs == maxRVecs && this.maxTxRings == maxTxRings
    {
      this.maxRVecs, this.maxTxRings, this.dp := maxRVecs, maxTxRings, dp;
      running, netdevMtu, prepared, active, heap, nextId := false, dp.mtu, {}, {}, {}, 1;
      vecs := seq(maxRVecs, i => VecRings(Null, Null, Null));
      realRx, realTx, enabled, hwRx, hwTx, faults := 0, 0, false, 0, 0, 0;
      aux, lscOn, portUp := {}, false, false;
    }

    // --- Services -----------------------------------------------------------------

    /** kcalloc() of an array of ring structures. */
    method AllocArray(k: Kind) returns (id: nat)
      requires Fresh()
      modifies this`heap, this`nextId, this`faults
      ensures Fresh()
      ensures faults == old(faults) + (if id == 0 then 1 else 0)
      ensures id == 0 ==> heap == old(heap) && nextId == old(nextId)
      ensures id != 0 ==> id == old(nextId) && nextId == id + 1 && heap == old(heap) + {Array(k, id)}
    {
      if * {
        faults := faults + 1;
        return 0;
      }
      id := nextId;
      nextId := nextId + 1;
      heap := heap + {Array(k, id)};
    }

    /** Any other allocation; a failed one leaves nothing behind. */
    method AllocOne(a: Alloc) returns (ok: bool)
      requires Fresh() && a.id < nextId && a !in heap
      modifies this`heap, this`faults
      ensures Fresh()
      ensures faults == old(faults) + (if ok then 0 else 1)
      ensures heap == if ok then old(heap) + {a} else old(heap)
    {
      ok := *;
      if ok {
        heap := heap + {a};
      } else {
        faults := faults + 1;
      }
    }

    /** Memory is freed once, and never under a running device. */
    method Free(a: Alloc)
      requires Fresh() && a in heap
      requires enabled ==> a.id != if a.k.Rx? then hwRx else hwTx
      modifies this`heap
      ensures Fresh() && heap == old(heap) - {a}
    {
      heap := heap - {a};
    }

    /** nfp_net_prepare_vector(): a vector is not set up twice. */
    method PrepareVector(r: nat) returns (err: Error)
      requires r !in prepared
      modifies this`prepared, this`faults
      ensures err == Ok || err == EIRQ
      ensures faults == old(faults) + (if err == Ok then 0 else 1)
      ensures prepared == if err == Ok then old(prepared) + {r} else old(prepared)
    {
      if * {
        faults := faults + 1;
        return EIRQ;
      }
      prepared := prepared + {r};
      return Ok;
    }

    /** nfp_net_cleanup_vector(): of a vector that is set up and quiet. */
    method CleanupVector(r: nat)
      requires r in prepared && r !in active
      modifies this`prepared
      ensures prepared == old(prepared) - {r}
    {
      prepared := prepared - {r};
    }

    /** nfp_net_aux_irq_request() */
    method AuxRequest(a: Aux) returns (err: Error)
      requires a !in aux
      modifies this`aux, this`faults
      ensures err == Ok || err == EIRQ
      ensures faults == old(faults) + (if err == Ok then 0 else 1)
      ensures aux == if err == Ok then old(aux) + {a} else old(aux)
    {
      if * {
        faults := faults + 1;
        return EIRQ;
      }
      aux := aux + {a};
      return Ok;
    }

    /** nfp_net_aux_irq_free(): of an interrupt that is requested. */
    method AuxFree(a: Aux)
      requires a in aux
      modifies this`aux
      ensures aux == old(aux) - {a}
    {
      aux := aux - {a};
    }

    /** nfp_port_configure(): a failure leaves the port as it was. */
    method PortConfigure(up: bool) returns (err: Error)
      modifies this`portUp, this`faults
      ensures err == Ok || err == EPORT
      ensures faults == old(faults) + (if err == Ok then 0 else 1)
      ensures portUp == if err == Ok then up else old(portUp)
    {
      if * {
        faults := faults + 1;
        return EPORT;
      }
      portUp := up;
      return Ok;
    }

    // --- Rings ----------------------------------------------------------------------

    /** nfp_net_{rx,tx}_ring_bufs_alloc(), which has nothing to do for a TX ring
        of the stack. */
    method RingBufsAlloc(k: Kind, d: Dp, r: nat) returns (ok: bool)
      requires Fresh() && d.Id(k) < nextId && BufTokens(k, d, r) !! heap
      modifies this`heap, this`faults
      ensures Fresh()
      ensures faults == old(faults) + (if ok then 0 else 1)
      ensures heap == if ok then old(heap) + BufTokens(k, d, r) else old(heap)
    {
      if !d.HasBufs(k, r) {
        return true;
      }
      ok := AllocOne(Bufs(k, d.Id(k), r));
    }

    /** nfp_net_{rx,tx}_ring_alloc(): descriptors and software list, or neither. */
    method RingMemAlloc(k: Kind, d: Dp, r: nat) returns (ok: bool)
      requires Fresh() && d.Id(k) < nextId && MemTokens(k, d, r) !! heap
      requires enabled ==> d.Id(k) != if k.Rx? then hwRx else hwTx
      modifies this`heap, this`faults
      ensures Fresh()
      ensures faults == old(faults) + (if ok then 0 else 1)
      ensures heap == if ok then old(heap) + MemTokens(k, d, r) else old(heap)
    {
      ok := AllocOne(Descs(k, d.Id(k), r));
      if ok {
        ok := AllocOne(Soft(k, d.Id(k), r));
      }
      if !ok {
        RingMemFree(k, d, r);
      }
    }

    /** nfp_net_{rx,tx}_ring_free(), also of a ring half set up: what there is
        of the ring's memory goes. */
    method RingMemFree(k: Kind, d: Dp, r: nat)
      requires Fresh()
      requires enabled ==> d.Id(k) != if k.Rx? then hwRx else hwTx
      modifies this`heap
      ensures Fresh() && heap == old(heap) - MemTokens(k, d, r)
    {
      if Soft(k, d.Id(k), r) in heap {
        Free(Soft(k, d.Id(k), r));
      }
      if Descs(k, d.Id(k), r) in heap {
        Free(Descs(k, d.Id(k), r));
      }
    }

    /** nfp_net_{rx,tx}_ring_bufs_free() and nfp_net_{rx,tx}_ring_free() */
    method RingFree(k: Kind, d: Dp, r: nat)
      requires Fresh() && MemTokens(k, d, r) + BufTokens(k, d, r) <= heap
      requires enabled ==> d.Id(k) != if k.Rx? then hwRx else hwTx
      modifies this`heap
      ensures Fresh() && heap == old(heap) - MemTokens(k, d, r) - BufTokens(k, d, r)
    {
      if d.HasBufs(k, r) {
        Free(Bufs(k, d.Id(k), r));
      }
      RingMemFree(k, d, r);
    }

    /** nfp_net_{rx,tx}_rings_prepare() with its error paths: every ring of the
        configuration, or nothing. */
    method RingsPrepare(k: Kind, d: Dp) returns (err: Error, d': Dp)
      requires Fresh() && (enabled ==> hwRx < nextId && hwTx < nextId)
      modifies this`heap, this`nextId, this`faults
      ensures Fresh() && old(nextId) <= nextId
      ensures err == Ok || err == ENOMEM
      ensures faults == old(faults) + (if err == Ok then 0 else 1)
      ensures d' == d.WithRings(k, d'.Id(k))
      ensures err == Ok ==> old(nextId) <= d'.Id(k) < nextId
      ensures heap == if err == Ok then old(heap) + Heap(k, d') else old(heap)
    {
      hide Tokens;
      var id := AllocArray(k);
      d' := d.WithRings(k, id);
      if id == 0 {
        return ENOMEM, d';
      }
      ghost var base := heap;
      NoTokens(k, d');
      var r: nat := 0;
      while r < d.Count(k)
        invariant r <= d.Count(k) && Fresh() && nextId == id + 1
        invariant heap == base + Tokens(k, d', r) && faults == old(faults)
      {
        Grow(k, d', r);
        TokensIds(k, d', r + 1);
        var ok := RingMemAlloc(k, d', r);
        if !ok {
          FreePrev(k, d', r, base);
          return ENOMEM, d';
        }
        ok := RingBufsAlloc(k, d', r);
        if !ok {
          RingMemFree(k, d', r);
          FreePrev(k, d', r, base);
          return ENOMEM, d';
        }
        r := r + 1;
      }
      err := Ok;
    }

    /** The err_free_prev path: rings n-1 down to 0, then the array. */
    method FreePrev(k: Kind, d: Dp, n: nat, ghost base: set<Alloc>)
      requires Fresh() && heap == base + Tokens(k, d, n)
      requires base !! Tokens(k, d, n) && Array(k, d.Id(k)) in base
      requires enabled ==> d.Id(k) != if k.Rx? then hwRx else hwTx
      modifies this`heap
      ensures Fresh() && heap == base - {Array(k, d.Id(k))}
    {
      hide Tokens;
      var r: nat := n;
      while r > 0
        invariant r <= n && Fresh()
        invariant heap == base + Tokens(k, d, r) && base !! Tokens(k, d, r)
      {
        r := r - 1;
        Grow(k, d, r);
        RingFree(k, d, r);
      }
      NoTokens(k, d);
      Free(Array(k, d.Id(k)));
    }

    /** nfp_net_{rx,tx}_rings_free() */
    method RingsFree(k: Kind, d: Dp)
      requires Fresh() && Heap(k, d) <= heap
      requires enabled ==> d.Id(k) != if k.Rx? then hwRx else hwTx
      modifies this`heap
      ensures Fresh() && heap == old(heap) - Heap(k, d)
    {
      hide Tokens;
      ghost var all := Tokens(k, d, d.Count(k));
      ghost var was := heap;
      NoTokens(k, d);
      TokensIds(k, d, d.Count(k));
      var r: nat := 0;
      while r < d.Count(k)
        invariant r <= d.Count(k) && Fresh()
        invariant Tokens(k, d, r) <= all
        invariant heap == was - Tokens(k, d, r)
      {
        Grow(k, d, r);
        TokensMonotone(k, d, r + 1, d.Count(k));
        RingFree(k, d, r);
        r := r + 1;
      }
      Free(Array(k, d.Id(k)));
    }

    // --- Vectors and the stack -------------------------------------------------------

    /** Prepare the vectors a larger configuration needs; on failure the number
        returned is one past the last that was set up. */
    method PrepareVectors(n: nat) returns (err: Error, n': nat)
      requires dp.numRVecs <= maxRVecs && prepared == Upto(dp.numRVecs)
      modifies this`prepared, this`faults
      ensures err == Ok || err == EIRQ
      ensures faults == old(faults) + (if err == Ok then 0 else 1)
      ensures err == Ok ==> n' == n
      ensures prepared == Upto(Max(dp.numRVecs, n')) && (n' == n || dp.numRVecs <= n' < n)
    {
      var r: nat := dp.numRVecs;
      while r < n
        invariant dp.numRVecs <= r <= Max(dp.numRVecs, n)
        invariant prepared == Upto(r) && faults == old(faults)
      {
        err := PrepareVector(r);
        if err != Ok {
          return err, r;
        }
        r := r + 1;
      }
      return Ok, n;
    }

    /** Clean up the vectors of "other" that dp does not use. The loop variable
        is an int compared with an unsigned count, so the loop ends because dp
        uses at least one vector. */
    method CleanupVectors(other: nat)
      requires 1 <= dp.numRVecs < TWO_32 && 1 <= other < TWO_32
      requires prepared == Upto(Max(dp.numRVecs, other)) && active <= Upto(dp.numRVecs)
      modifies this`prepared
      ensures prepared == Upto(dp.numRVecs)
    {
      var r: int := other - 1;
      while r % TWO_32 >= dp.numRVecs
        invariant 0 <= r < TWO_32
        invariant prepared == Upto(Max(dp.numRVecs, r + 1))
        decreases r
      {
        CleanupVector(r);
        r := r - 1;
      }
    }

    /** nfp_net_close_stack(): the link interrupt and the vectors are disabled,
        which they may only be while they are enabled. */
    method CloseStack()
      requires active == Upto(dp.numRVecs) && Lsc in aux && lscOn
      modifies this`active, this`lscOn
      ensures active == {} && !lscOn
    {
      lscOn := false;
      var r: nat := 0;
      while r < dp.numRVecs
        invariant r <= dp.numRVecs && active == Upto(dp.numRVecs) - Upto(r)
        modifies this`active
      {
        assert r in active;
        active := active - {r};
        r := r + 1;
      }
    }

    /** nfp_net_open_stack(): and enabled only on a vector that is set up and
        not enabled yet. */
    method OpenStack()
      requires active == {} && prepared == Upto(dp.numRVecs) && Lsc in aux && !lscOn
      modifies this`active, this`lscOn
      ensures active == Upto(dp.numRVecs) && lscOn
    {
      var r: nat := 0;
      while r < dp.numRVecs
        invariant r <= dp.numRVecs && active == Upto(r)
        modifies this`active
      {
        assert r in prepared && r !in active;
        active := active + {r};
        r := r + 1;
      }
      lscOn := true;
    }

    /** nfp_net_clear_config_and_disable() */
    method ClearConfigAndDisable()
      modifies this`enabled
      ensures !enabled
    {
      enabled := false;
    }

    /** nfp_net_set_config_and_enable(): on the rings of dp, which must exist. */
    method SetConfigAndEnable() returns (err: Error)
      requires Owned(dp) <= heap
      modifies this`enabled, this`hwRx, this`hwTx, this`faults
      ensures err == Ok || err == EFIRMWARE
      ensures faults == old(faults) + (if err == Ok then 0 else 1)
      ensures enabled == (err == Ok)
      ensures hwRx == dp.rxRings && hwTx == dp.txRings
    {
      enabled, hwRx, hwTx := *, dp.rxRings, dp.txRings;
      if enabled {
        return Ok;
      }
      faults := faults + 1;
      ClearConfigAndDisable();
      return EFIRMWARE;
    }

    // --- The transaction -----------------------------------------------------------

    /** nfp_net_dp_swap() */
    method DpSwap(d: Dp) returns (d': Dp)
      modifies this`dp, this`netdevMtu
      ensures dp == d && d' == old(dp) && netdevMtu == d.mtu
    {
      d' := dp;
      dp := d;
      netdevMtu := d.mtu;
    }

    /** nfp_net_dp_swap_enable(): the configurations trade places and the
        vectors follow whether or not the firmware then starts. */
    method DpSwapEnable(d: Dp) returns (err: Error, d': Dp)
      requires !enabled && |vecs| == maxRVecs && Owned(d) <= heap
      modifies this`dp, this`netdevMtu, this`vecs, this`realRx, this`realTx, this`enabled, this`hwRx, this`hwTx,
               this`faults
      ensures faults == old(faults) + (if err == Ok then 0 else 1)
      ensures dp == d && d' == old(dp) && netdevMtu == d.mtu
      ensures |vecs| == maxRVecs && forall i :: 0 <= i < maxRVecs ==> vecs[i] == Assigned(d, i)
      ensures err in {Ok, EQUEUES, EFIRMWARE}
      ensures err == Ok ==> InForce(d)
      ensures err != Ok ==> !enabled
    {
      hide Heap;
      d' := DpSwap(d);
      AssignAll();
      if * {
        faults := faults + 1;
        return EQUEUES, d';
      }
      realRx := dp.numRxRings;
      if realTx != dp.numStackTxRings {
        if * {
          faults := faults + 1;
          return EQUEUES, d';
        }
        realTx := dp.numStackTxRings;
      }
      err := SetConfigAndEnable();
    }

    /** Both arrays of rings of a configuration, or neither: the second half of
        what nfp_net_ring_reconfig() and nfp_net_open_alloc_all() prepare. */
    method PrepareBoth(d: Dp) returns (err: Error, d': Dp)
      requires Fresh() && (enabled ==> hwRx < nextId && hwTx < nextId)
      modifies this`heap, this`nextId, this`faults
      ensures Fresh() && old(nextId) <= nextId
      ensures err in {Ok, ENOMEM}
      ensures faults == old(faults) + (if err == Ok then 0 else 1)
      ensures d' == d.(rxRings := d'.rxRings, txRings := d'.txRings)
      ensures err == Ok ==> old(nextId) <= d'.rxRings && old(nextId) <= d'.txRings
      ensures heap == if err == Ok then old(heap) + Owned(d') else old(heap)
    {
      hide Heap;
      err, d' := RingsPrepare(Rx, d);
      if err != Ok {
        return;
      }
      HeapIds(Rx, d');
      ghost var rx := d';
      err, d' := RingsPrepare(Tx, d');
      OtherRings(rx, d'.txRings);
      if err != Ok {
        RingsFree(Rx, d');
      }
    }

    /** Everything nfp_net_ring_reconfig() allocates before it touches the
        device, or nothing at all. */
    method PrepareAll(d: Dp) returns (err: Error, d': Dp)
      requires Valid() && running && Shaped(d, maxRVecs)
      modifies this`prepared, this`heap, this`nextId, this`faults
      ensures Fresh() && old(nextId) <= nextId
      ensures err in {Ok, EIRQ, ENOMEM}
      ensures faults == old(faults) + (if err == Ok then 0 else 1)
      ensures err == Ok ==> d' == d.(rxRings := d'.rxRings, txRings := d'.txRings)
      ensures err == Ok ==> prepared == Upto(Max(dp.numRVecs, d.numRVecs))
      ensures err == Ok ==> old(nextId) <= d'.rxRings && old(nextId) <= d'.txRings
      ensures err == Ok ==> heap == old(heap) + Owned(d')
      ensures err != Ok ==> prepared == old(prepared) && heap == old(heap)
    {
      hide Heap;
      HeapIds(Rx, dp);
      HeapIds(Tx, dp);
      var n: nat;
      d' := d;
      err, n := PrepareVectors(d.numRVecs);
      d' := d'.(numRVecs := n);
      if err != Ok {
        CleanupVectors(d'.numRVecs);
        return;
      }
      err, d' := PrepareBoth(d');
      if err != Ok {
        CleanupVectors(d'.numRVecs);
      }
    }

    /** Start d, and the old configuration again if d does not start; returns
        the configuration that was not kept. */
    method SwapOrRestore(d: Dp) returns (err: Error, other: Dp, ghost restored: bool)
      requires |vecs| == maxRVecs
      requires Owned(dp) <= heap && Owned(d) <= heap
      modifies this`dp, this`netdevMtu, this`vecs, this`realRx, this`realTx, this`enabled, this`hwRx, this`hwTx,
               this`faults
      ensures err in {Ok, EQUEUES, EFIRMWARE}
      ensures faults == old(faults) + (if err == Ok then 0 else if restored then 1 else 2)
      ensures dp == (if err == Ok then d else old(dp)) && other == (if err == Ok then old(dp) else d)
      ensures netdevMtu == dp.mtu
      ensures |vecs| == maxRVecs && forall i :: 0 <= i < maxRVecs ==> vecs[i] == Assigned(dp, i)
      ensures if err == Ok || restored then InForce(dp) else !enabled
    {
      hide Heap;
      restored := false;
      ClearConfigAndDisable();
      err, other := DpSwapEnable(d);
      if err != Ok {
        var err2;
        ClearConfigAndDisable();
        err2, other := DpSwapEnable(other);
        restored := err2 == Ok;
      }
    }

    /** Free both ring arrays of a configuration that is not in force. */
    method Release(d: Dp, ghost keep: set<Alloc>)
      requires Fresh() && heap == keep + Owned(d)
      requires Foreign(keep, d)
      requires enabled ==> hwRx != d.rxRings && hwTx != d.txRings
      modifies this`heap
      ensures Fresh() && heap == keep
    {
      hide Heap;
      HeapIds(Rx, d);
      HeapIds(Tx, d);
      RingsFree(Rx, d);
      RingsFree(Tx, d);
    }

    /** The middle of nfp_net_ring_reconfig(): stop, swap in the configuration
        d, swap the old one back if d does not start, release whichever is left
        over, and start the stack. */
    method Switch(d: Dp) returns (err: Error, ghost restored: bool)
      requires Consistent() && running && Shaped(d, maxRVecs) && aux == {Exn, Lsc} && lscOn
      requires prepared == Upto(Max(dp.numRVecs, d.numRVecs)) && active == Upto(dp.numRVecs)
      requires heap == Owned(dp) + Owned(d)
      requires dp.rxRings != d.rxRings && dp.txRings != d.txRings
      modifies this`dp, this`netdevMtu, this`vecs, this`realRx, this`realTx, this`enabled, this`hwRx, this`hwTx,
               this`prepared, this`active, this`lscOn, this`heap, this`faults
      ensures Valid()
      ensures faults == old(faults) + (if err == Ok then 0 else if restored then 1 else 2)
      ensures err in {Ok, EQUEUES, EFIRMWARE}
      ensures dp == if err == Ok then d else old(dp)
      ensures if err == Ok || restored then InForce(dp) else !enabled
    {
      hide Owned, Foreign, Heap, Shaped, Assigned, Max, Upto, Net.Fresh;
      OwnApart(dp, d);
      var other;
      CloseStack();
      err, other, restored := SwapOrRestore(d);
      UsesAVector(dp, maxRVecs);
      UsesAVector(other, maxRVecs);
      MaxCommutes(dp.numRVecs, other.numRVecs);
      CleanupVectors(other.numRVecs);
      Release(other, Owned(dp));
      OpenStack();
    }

    /** nfp_net_ring_reconfig(): the requested configuration is in force, or the
        old one is untouched or put back, and nothing of the other is left. */
    method RingReconfig(req: Dp, flBufsz: nat) returns (err: Error, ghost outcome: Outcome)
      requires Valid() && Requestable(req, maxRVecs)
      modifies this
      ensures Valid() && running == old(running)
      ensures err == Ok ==> outcome == Done && SameSettings(dp, req) && dp.flBufsz == flBufsz
      ensures err == Ok ==> dp.numRVecs == Max(dp.numRxRings, dp.numStackTxRings)
      ensures err == Ok && running ==> InForce(dp)
      ensures err != Ok ==> dp == old(dp)
      ensures err == EINVAL <==> req.xdp && (flBufsz > PAGE_SIZE || req.numTxRings > maxTxRings)
      ensures outcome == Done <==> err == Ok
      ensures outcome == Refused <==> err == EINVAL
      ensures outcome in {Refused, Unprepared} ==>
                enabled == old(enabled) && realRx == old(realRx) && realTx == old(realTx) && vecs == old(vecs)
      ensures outcome == Unprepared <==> err in {EIRQ, ENOMEM}
      ensures outcome in {Restored, Lost} <==> err in {EQUEUES, EFIRMWARE}
      ensures outcome == Restored ==> InForce(dp)
      ensures outcome == Lost ==> !enabled
      ensures !running ==> err in {Ok, EINVAL}
      ensures faults == old(faults) + (if outcome in {Done, Refused} then 0 else if outcome == Lost then 2 else 1)
    {
      hide Heap;
      var d := Derived(req, flBufsz, maxRVecs);
      if !Acceptable(d, maxTxRings) {
        return EINVAL, Refused;
      }
      if !running {
        d := DpSwap(d);
        return Ok, Done;
      }
      HeapIds(Rx, dp);
      HeapIds(Tx, dp);
      err, d := PrepareAll(d);
      if err != Ok {
        return err, Unprepared;
      }
      ghost var restored;
      err, restored := Switch(d);
      outcome := if err == Ok then Done else if restored then Restored else Lost;
    }

    // --- Opening and closing ---------------------------------------------------------

    /** nfp_net_vector_assign_rings() for every vector. */
    method AssignAll()
      requires |vecs| == maxRVecs
      modifies this`vecs
      ensures |vecs| == maxRVecs && forall i :: 0 <= i < maxRVecs ==> vecs[i] == Assigned(dp, i)
    {
      var r: nat := 0;
      while r < maxRVecs
        invariant r <= maxRVecs && |vecs| == maxRVecs
        invariant forall i :: 0 <= i < r ==> vecs[i] == Assigned(dp, i)
      {
        vecs := vecs[r := Assigned(dp, r)];
        r := r + 1;
      }
    }

    /** The err_cleanup_vec paths: vectors n-1 down to 0. */
    method CleanupFirst(n: nat)
      requires prepared == Upto(n) && active == {}
      modifies this`prepared
      ensures prepared == {}
    {
      var r: nat := n;
      while r > 0
        invariant prepared == Upto(r)
      {
        r := r - 1;
        CleanupVector(r);
      }
    }

    /** nfp_net_open_alloc_all(): both auxiliary interrupts, all the vectors and
        all the rings of dp, or nothing. */
    method OpenAllocAll() returns (err: Error)
      requires Valid() && !running
      modifies this`dp, this`prepared, this`aux, this`heap, this`nextId, this`vecs, this`faults
      ensures faults == old(faults) + (if err == Ok then 0 else 1)
      ensures Consistent() && SameSettings(dp, old(dp))
      ensures err in {Ok, EIRQ, ENOMEM}
      ensures err == Ok ==> prepared == Upto(dp.numRVecs) && aux == {Exn, Lsc} && heap == Owned(dp)
      ensures err == Ok ==> forall i :: 0 <= i < maxRVecs ==> vecs[i] == Assigned(dp, i)
      ensures err != Ok ==> prepared == {} && aux == {} && heap == {}
    {
      hide Heap, Owned, Assigned, Upto, Max, Net.Fresh;
      err := AuxRequest(Exn);
      if err != Ok {
        return;
      }
      err := AuxRequest(Lsc);
      if err != Ok {
        AuxFree(Exn);
        return;
      }
      err := OpenVectors();
      if err == Ok {
        err, dp := PrepareBoth(dp);
        if err != Ok {
          CleanupFirst(dp.numRVecs);
        }
      }
      if err != Ok {
        AuxFree(Lsc);
        AuxFree(Exn);
        return;
      }
      AssignAll();
    }

    /** Its vector half: every vector of dp, or none. */
    method OpenVectors() returns (err: Error)
      requires prepared == {} && active == {}
      modifies this`prepared, this`faults
      ensures faults == old(faults) + (if err == Ok then 0 else 1)
      ensures err == Ok || err == EIRQ
      ensures prepared == if err == Ok then Upto(dp.numRVecs) else {}
    {
      var r: nat := 0;
      while r < dp.numRVecs
        invariant r <= dp.numRVecs && prepared == Upto(r) && faults == old(faults)
      {
        err := PrepareVector(r);
        if err != Ok {
          CleanupFirst(r);
          return;
        }
        r := r + 1;
      }
      return Ok;
    }

    /** nfp_net_close_free_all() */
    method CloseFreeAll()
      requires Fresh() && !enabled && active == {} && prepared == Upto(dp.numRVecs) && heap == Owned(dp)
      requires aux == {Exn, Lsc}
      modifies this`prepared, this`aux, this`heap
      ensures Fresh() && prepared == {} && aux == {} && heap == {}
    {
      hide Heap;
      HeapIds(Rx, dp);
      HeapIds(Tx, dp);
      RingsFree(Tx, dp);
      RingsFree(Rx, dp);
      var r: nat := 0;
      while r < dp.numRVecs
        invariant r <= dp.numRVecs && prepared == Upto(dp.numRVecs) - Upto(r)
        modifies this`prepared
      {
        CleanupVector(r);
        r := r + 1;
      }
      AuxFree(Lsc);
      AuxFree(Exn);
    }

    /** nfp_net_netdev_open(): either everything is up, or nothing is left but
        perhaps a port that would not go down. */
    method Open() returns (err: Error)
      requires Valid() && !running
      modifies this
      ensures Valid() && running == enabled == (err == Ok)
      ensures SameSettings(dp, old(dp))
      ensures running ==> InForce(dp) && portUp
      ensures old(faults) <= faults && (err == Ok <==> faults == old(faults))
      ensures !running && portUp ==> old(portUp) || faults >= old(faults) + 2
    {
      hide Heap, Owned, Assigned, Upto, Max;
      err := OpenAllocAll();
      if err != Ok {
        return;
      }
      err := StartDevice();
      if err != Ok {
        CloseFreeAll();
        return;
      }
      OpenStack();
      running := true;
    }

    /** The steps of nfp_net_netdev_open() between allocation and the stack. */
    method StartDevice() returns (err: Error)
      requires !enabled && Owned(dp) <= heap
      modifies this`realRx, this`realTx, this`enabled, this`hwRx, this`hwTx, this`portUp, this`faults
      ensures old(faults) <= faults && (err == Ok <==> faults == old(faults))
      ensures if err == Ok then InForce(dp) && portUp else !enabled
      ensures err != Ok && portUp ==> old(portUp) || faults >= old(faults) + 2
    {
      if * {
        faults := faults + 1;
        return EQUEUES;
      }
      realTx := dp.numStackTxRings;
      if * {
        faults := faults + 1;
        return EQUEUES;
      }
      realRx := dp.numRxRings;
      err := PortConfigure(true);
      if err != Ok {
        return;
      }
      err := SetConfigAndEnable();
      if err != Ok {
        var _ := PortConfigure(false);
      }
    }

    /** nfp_net_netdev_close(): that the port would not go down is ignored. */
    method Close()
      requires Valid() && running
      modifies this
      ensures Valid() && !running && dp == old(dp)
      ensures portUp ==> old(portUp) && faults > old(faults)
    {
      hide Heap, Owned;
      CloseStack();
      ClearConfigAndDisable();
      var _ := PortConfigure(false);
      CloseFreeAll();
      running := false;
    }
  }

  // --- Runs ------------------------------------------------------------------------

  datatype Op = OpOpen | OpClose | OpReconfig(req: Dp, flBufsz: nat)

  datatype Moment = Moment(
    running: bool, enabled: bool, dp: Dp, prepared: set<nat>, active: set<nat>,
    heap: set<Alloc>, vecs: seq<VecRings>, faults: nat)

  ghost function Now(nn: Net): Moment
    reads nn
  {
    Moment(nn.running, nn.enabled, nn.dp, nn.prepared, nn.active, nn.heap, nn.vecs, nn.faults)
  }

  /** A running interface has exactly the vectors and rings of its
      configuration, one that is down has nothing. */
  ghost predicate Kept(m: Moment) {
    if m.running then
      && m.prepared == m.active == Upto(m.dp.numRVecs) && m.heap == Owned(m.dp)
      && forall i :: 0 <= i < |m.vecs| ==> m.vecs[i] == Assigned(m.dp, i)
    else m.prepared == m.active == {} && m.heap == {} && !m.enabled
  }

  /** What one operation does, given how many requests fail in it. Opening what
      is open and closing what is closed do nothing. */
  ghost predicate Moves(maxRVecs: nat, maxTxRings: nat, m: Moment, op: Op, m': Moment) {
    match op
    case OpOpen =>
      if m.running then m' == m
      else
        && SameSettings(m'.dp, m.dp) && m.faults <= m'.faults
        && m'.running == m'.enabled == (m'.faults == m.faults)
    case OpClose =>
      if m.running then !m'.running && m'.dp == m.dp else m' == m
    case OpReconfig(req, flBufsz) =>
      && m'.running == m.running && m.faults <= m'.faults <= m.faults + 2
      && (Requestable(req, maxRVecs) ==>
            if req.xdp && (flBufsz > PAGE_SIZE || req.numTxRings > maxTxRings) then
              m'.dp == m.dp && m'.enabled == m.enabled && m'.faults == m.faults
            else if m'.faults == m.faults then
              && SameSettings(m'.dp, req) && m'.dp.flBufsz == flBufsz && (m.running ==> m'.enabled)
              && m'.dp.numRVecs == Max(m'.dp.numRxRings, m'.dp.numStackTxRings)
            else
              && m'.dp == m.dp && m.running
              && (if m'.faults == m.faults + 1 then m.enabled ==> m'.enabled else !m'.enabled))
  }

  /** A run of opens, closes and reconfigurations on a new interface, with
      anything failing anywhere. */
  method AnyRun(maxRVecs: nat, maxTxRings: nat, dp: Dp, ops: seq<Op>) returns (nn: Net, ghost trace: seq<Moment>)
    requires Shaped(dp, maxRVecs) && maxRVecs < TWO_32
    requires forall op :: op in ops && op.OpReconfig? ==> Requestable(op.req, maxRVecs)
    ensures nn.Valid() && |trace| == |ops| + 1 && trace[|ops|] == Now(nn)
    ensures !trace[0].running && trace[0].dp == dp
    ensures forall k :: 0 <= k < |ops| ==> Moves(maxRVecs, maxTxRings, trace[k], ops[k], trace[k + 1])
    ensures forall k :: 0 <= k <= |ops| ==> Kept(trace[k])
  {
    hide Moves, Kept, Shaped, Requestable;
    nn := new Net(maxRVecs, maxTxRings, dp);
    trace := [Now(nn)];
    ValidIsKept(nn);
    for k := 0 to |ops|
      invariant nn.Valid() && fresh(nn) && nn.maxRVecs == maxRVecs && nn.maxTxRings == maxTxRings
      invariant |trace| == k + 1 && trace[k] == Now(nn) && !trace[0].running && trace[0].dp == dp
      invariant forall i :: 0 <= i < k ==> Moves(maxRVecs, maxTxRings, trace[i], ops[i], trace[i + 1])
      invariant forall i :: 0 <= i <= k ==> Kept(trace[i])
    {
      OneOp(nn, ops[k]);
      ValidIsKept(nn);
      trace := trace + [Now(nn)];
    }
  }

  lemma ValidIsKept(nn: Net)
    requires nn.Valid()
    ensures Kept(Now(nn))
  {
  }

  method OneOp(nn: Net, op: Op)
    requires nn.Valid() && (op.OpReconfig? ==> Requestable(op.req, nn.maxRVecs))
    modifies nn
    ensures nn.Valid() && Moves(nn.maxRVecs, nn.maxTxRings, old(Now(nn)), op, Now(nn))
  {
    hide Net.Valid;
    match op
    case OpOpen =>
      if !nn.running {
        var _ := nn.Open();
      }
    case OpClose =>
      if nn.running {
        nn.Close();
      }
    case OpReconfig(req, flBufsz) =>
      ghost var outcome;
      var err;
      err, outcome := nn.RingReconfig(req, flBufsz);
  }
}
