/** The kernel's books beside the interleaved transmit machine: which DMA
    mapping is live, which packet it belongs to, and which packets' buffers are
    not freed yet. The books follow what the slots say, step by step; undoing a
    mapping that is not live, or freeing or reading a buffer that is gone, is
    counted as misuse. */
module TxOwnership {
  import opened Words
  import opened TxRings
  import opened TxInterleaving

  /** Descriptors and packets go by number. `owner` has the live mappings,
      `held` the unfreed packets, `ends` the last descriptors of packets;
      `hand` is the packet transmit works on. */
  datatype Books = Books(owner: map<nat, nat>, held: set<nat>, ends: set<nat>, hand: nat, serial: nat, misuse: nat)
  {
    /** The stack hands over a packet. */
    function Begin(): Books { this.(hand := serial, held := held + {serial}, serial := serial + 1) }

    function Mapped(d: nat): Books { this.(owner := owner[d := hand]) }

    function Ended(d: nat): Books { this.(ends := ends + {d}) }

    function Freed(p: nat): Books {
      if p in held then this.(held := held - {p}) else this.(misuse := misuse + 1)
    }

    function Read(p: nat): Books { if p in held then this else this.(misuse := misuse + 1) }

    function Unmapped(d: nat): Books {
      if d in owner then this.(owner := owner - {d}) else this.(misuse := misuse + 1)
    }

    /** Completion of the descriptor found in a slot: its packet is read and
        its mapping undone; with the last one the packet is freed. */
    function Retired(d: nat): Books {
      if d !in owner then this.(misuse := misuse + 1)
      else
        var b := Read(owner[d]).Unmapped(d);
        if d in ends then b.Freed(owner[d]).(ends := ends - {d}) else b
    }
  }

  const NEW := Books(map[], {}, {}, 0, 0, 0)

  function TxBooks(s: State, b: Books, n: nat, mapFails: bool): Books {
    match s.tx
    case TxIdle => if TxStep(s, n, mapFails, false).tx.Filling? then b.Begin() else b
    case Filling(n, f) =>
      if f >= n then (if n > 0 then b.Ended(s.wr + n - 1) else b)
      else if mapFails then b
      else b.Mapped(s.wr + f)
    case Unwinding(f) =>
      if f == 0 then b.Freed(b.hand)
      else
        var slot := SlotAt(s, s.wr + f - 1);
        if slot.Holds? then b.Unmapped(slot.n) else b
    case Flushing(_) => b.Read(b.hand)
    case _ => b
  }

  function CplBooks(s: State, b: Books): Books {
    if s.cpl.Clearing? then
      var slot := SlotAt(s, s.cpl.n);
      if slot.Holds? then b.Retired(slot.n) else b
    else b
  }

  function SlotAt(s: State, n: int): Slot {
    if s.cnt > 0 && SlotOf(n, s.cnt) < |s.slots| then s.slots[SlotOf(n, s.cnt)] else Vacant
  }

  function Account(s: State, b: Books, a: Action): Books {
    match a
    case Tx(n, mapFails, _) => TxBooks(s, b, n, mapFails)
    case Completion(_) => CplBooks(s, b)
    case Device(_) => b
  }

  /** The books after a run that starts with b in state s. */
  function Kept(s: State, b: Books, acts: seq<Action>): Books
    requires s.cnt > 0
  {
    if acts == [] then b
    else Account(Run(s, acts[..|acts| - 1]), Kept(s, b, acts[..|acts| - 1]), acts[|acts| - 1])
  }

  // --- When the books are right -------------------------------------------------------

  /** Exactly descriptors lo..hi-1 have live mappings. */
  ghost predicate Spans(b: Books, lo: nat, hi: nat) {
    forall d :: d in b.owner <==> lo <= d < hi
  }

  /** Exactly the packets with a live mapping, and the one in hand while there
      is one, are unfreed. */
  ghost predicate Holding(b: Books, active: bool) {
    && (active ==> b.hand in b.held && b.hand + 1 == b.serial)
    && (forall d :: d in b.owner ==> b.owner[d] in b.held)
    && (forall p :: p in b.held ==> p < b.serial && ((active && p == b.hand) || HasDesc(b, p)))
  }

  ghost predicate HasDesc(b: Books, p: nat) {
    exists d :: d in b.owner && b.owner[d] == p
  }

  /** The descriptors of the packet in hand are those from `first` on. */
  ghost predicate InHandFrom(b: Books, first: int) {
    forall d :: d in b.owner ==> (b.owner[d] == b.hand <==> d >= first)
  }

  /** Packets lie one after another; a published descriptor is the last of its
      packet or is followed by the next one of the same packet. */
  ghost predicate Ordered(b: Books, wr: nat) {
    && (forall d :: d in b.ends ==> d in b.owner && d < wr)
    && (forall d, e :: d in b.owner && e in b.owner && d < e ==>
          b.owner[d] <= b.owner[e] && (d in b.ends ==> b.owner[d] < b.owner[e]))
    && (forall d :: d in b.owner && d < wr && d !in b.ends ==> GoesOn(b, d, wr))
  }

  predicate GoesOn(b: Books, d: nat, wr: nat) {
    d + 1 < wr && d in b.owner && d + 1 in b.owner && b.owner[d + 1] == b.owner[d]
  }

  /** The books when descriptors lo..hi-1 are in use and those from wr on are
      not published yet. */
  ghost predicate Right(b: Books, lo: nat, wr: nat, hi: nat, active: bool, first: int) {
    && b.misuse == 0 && lo <= wr <= hi && (active ==> lo <= first <= wr)
    && Spans(b, lo, hi) && Holding(b, active) && (active ==> InHandFrom(b, first)) && Ordered(b, wr)
  }

  /** Every other packet keeps a descriptor. */
  lemma StillHasDesc(b: Books, c: Books, p: nat, gone: nat)
    requires HasDesc(b, p)
    requires gone in b.owner ==> b.owner[gone] != p || (gone + 1 in c.owner && c.owner[gone + 1] == p)
    requires forall d :: d in b.owner && d != gone ==> d in c.owner && c.owner[d] == b.owner[d]
    ensures HasDesc(c, p)
  {
    var d :| d in b.owner && b.owner[d] == p;
    if d != gone {
      assert d in c.owner && c.owner[d] == p;
    }
  }

  lemma BeginIsRight(b: Books, lo: nat, wr: nat, first: int)
    requires Right(b, lo, wr, wr, false, first)
    ensures Right(b.Begin(), lo, wr, wr, true, wr)
  {
    hide Ordered;
    var c := b.Begin();
    forall p | p in b.held ensures HasDesc(c, p) {
      StillHasDesc(b, c, p, wr);
    }
    SameOrder(b, c, wr);
  }

  lemma SameOrder(b: Books, c: Books, wr: nat)
    requires Ordered(b, wr) && c.owner == b.owner && c.ends == b.ends
    ensures Ordered(c, wr)
  {
    assert forall d :: GoesOn(b, d, wr) ==> GoesOn(c, d, wr);
  }

  lemma MapIsRight(b: Books, lo: nat, wr: nat, hi: nat)
    requires Right(b, lo, wr, hi, true, wr)
    ensures Right(b.Mapped(hi), lo, wr, hi + 1, true, wr)
  {
    hide Spans, Holding, InHandFrom, Ordered;
    MapSpans(b, lo, wr, hi);
    MapHolds(b, lo, wr, hi);
    MapOrdered(b, b.Mapped(hi), lo, wr, hi);
  }

  lemma MapSpans(b: Books, lo: nat, wr: nat, hi: nat)
    requires Right(b, lo, wr, hi, true, wr)
    ensures Spans(b.Mapped(hi), lo, hi + 1) && InHandFrom(b.Mapped(hi), wr)
  {
    hide Holding, Ordered;
  }

  lemma MapHolds(b: Books, lo: nat, wr: nat, hi: nat)
    requires Right(b, lo, wr, hi, true, wr)
    ensures Holding(b.Mapped(hi), true)
  {
    hide Ordered, InHandFrom;
    var c := b.Mapped(hi);
    forall p | p in b.held && p != b.hand ensures HasDesc(c, p) {
      StillHasDesc(b, c, p, hi);
    }
  }

  lemma MapOrdered(b: Books, c: Books, lo: nat, wr: nat, hi: nat)
    requires Right(b, lo, wr, hi, true, wr) && c == b.Mapped(hi)
    ensures Ordered(c, wr)
  {
    forall d | d in b.owner ensures b.owner[d] <= b.hand {
      assert b.owner[d] in b.held;
    }
    forall d | d in c.owner && d < wr && d !in c.ends ensures GoesOn(c, d, wr) {
      assert GoesOn(b, d, wr);
    }
  }

  lemma UnmapIsRight(b: Books, lo: nat, wr: nat, hi: nat)
    requires Right(b, lo, wr, hi, true, wr) && hi > wr
    ensures Right(b.Unmapped(hi - 1), lo, wr, hi - 1, true, wr)
  {
    hide Spans, Holding, InHandFrom, Ordered;
    var c := b.Unmapped(hi - 1);
    UnmapSpans(b, lo, wr, hi);
    UnmapHolds(b, c, lo, wr, hi);
    OrderedWithout(b, c, wr, hi - 1);
  }

  lemma UnmapSpans(b: Books, lo: nat, wr: nat, hi: nat)
    requires Right(b, lo, wr, hi, true, wr) && hi > wr
    ensures var c := b.Unmapped(hi - 1);
      c == b.(owner := b.owner - {hi - 1}) && Spans(c, lo, hi - 1) && InHandFrom(c, wr)
  {
    hide Holding, Ordered;
  }

  lemma UnmapHolds(b: Books, c: Books, lo: nat, wr: nat, hi: nat)
    requires Right(b, lo, wr, hi, true, wr) && hi > wr && c == b.(owner := b.owner - {hi - 1})
    ensures Holding(c, true)
  {
    hide Ordered;
    forall p | p in b.held && p != b.hand ensures HasDesc(c, p) {
      StillHasDesc(b, c, p, hi - 1);
    }
  }

  /** Taking away a descriptor that nothing published goes on to. */
  lemma OrderedWithout(b: Books, c: Books, wr: nat, gone: nat)
    requires Ordered(b, wr) && c.owner == b.owner - {gone}
    requires (gone >= wr && c.ends == b.ends) || (c.ends == b.ends - {gone} && forall d :: d in b.owner ==> d >= gone)
    ensures Ordered(c, wr)
  {
    forall d | d in c.owner && d < wr && d !in c.ends ensures GoesOn(c, d, wr) {
      assert GoesOn(b, d, wr);
    }
  }

  lemma FreeIsRight(b: Books, lo: nat, wr: nat)
    requires Right(b, lo, wr, wr, true, wr)
    ensures Right(b.Freed(b.hand), lo, wr, wr, false, wr)
  {
    hide Ordered;
    var c := b.Freed(b.hand);
    forall p | p in c.held ensures HasDesc(c, p) {
      StillHasDesc(b, c, p, wr);
    }
    SameOrder(b, c, wr);
  }

  lemma PublishIsRight(b: Books, lo: nat, wr: nat, hi: nat)
    requires Right(b, lo, wr, hi, true, wr) && hi > wr
    ensures Right(b.Ended(hi - 1), lo, hi, hi, true, wr)
  {
    hide Spans, Holding, InHandFrom, Ordered;
    var c := b.Ended(hi - 1);
    PublishHolds(b, c);
    PublishOrdered(b, lo, wr, hi);
  }

  /** What does not depend on where packets end. */
  lemma PublishHolds(b: Books, c: Books)
    requires c == b.(ends := c.ends)
    ensures Holding(b, true) ==> Holding(c, true)
    ensures forall lo: nat, hi: nat :: Spans(b, lo, hi) ==> Spans(c, lo, hi)
    ensures forall first :: InHandFrom(b, first) ==> InHandFrom(c, first)
  {
    assert forall p: nat :: HasDesc(b, p) ==> HasDesc(c, p);
  }

  lemma PublishOrdered(b: Books, lo: nat, wr: nat, hi: nat)
    requires Right(b, lo, wr, hi, true, wr) && hi > wr
    ensures Ordered(b.Ended(hi - 1), hi)
  {
    hide Holding;
    var c := b.Ended(hi - 1);
    forall d | d in c.owner && d < hi && d !in c.ends ensures GoesOn(c, d, hi) {
      if d < wr {
        assert GoesOn(b, d, wr);
      }
    }
  }

  lemma FinishIsRight(b: Books, lo: nat, wr: nat, first: int)
    requires Right(b, lo, wr, wr, true, first) && first < wr
    ensures b.Read(b.hand) == b && Right(b, lo, wr, wr, false, wr)
  {
    assert HasDesc(b, b.hand) by {
      assert wr - 1 in b.owner;
    }
  }

  lemma RetireIsRight(b: Books, lo: nat, wr: nat, hi: nat, active: bool, first: int)
    requires Right(b, lo, wr, hi, active, first) && lo < wr && (active ==> lo < first)
    ensures Right(b.Retired(lo), lo + 1, wr, hi, active, first)
  {
    OldestIsOnlyItsEnd(b, lo, wr, hi, active, first);
    RetiredMeans(b, lo);
    hide Books.Retired;
    var c := b.Retired(lo);
    assert Spans(c, lo + 1, hi) && (active ==> InHandFrom(c, first)) by {
      hide Holding, Ordered;
    }
    assert forall d :: d in b.owner ==> d >= lo;
    hide Spans, InHandFrom;
    RetireHolds(b, c, lo, wr, active);
    OrderedWithout(b, c, wr, lo);
    hide Holding, Ordered;
  }

  lemma RetiredMeans(b: Books, d: nat)
    requires d in b.owner && b.owner[d] in b.held
    ensures var c := b.Retired(d);
      && c.owner == b.owner - {d} && c.ends == b.ends - {d}
      && c.held == (if d in b.ends then b.held - {b.owner[d]} else b.held)
      && c.misuse == b.misuse && c.hand == b.hand && c.serial == b.serial
  {
  }

  lemma RetireHolds(b: Books, c: Books, lo: nat, wr: nat, active: bool)
    requires Holding(b, active) && lo in b.owner && OnlyItsEnd(b, lo) && (active ==> b.owner[lo] != b.hand)
    requires c.owner == b.owner - {lo} && c.hand == b.hand && c.serial == b.serial
    requires c.held == if lo in b.ends then b.held - {b.owner[lo]} else b.held
    ensures Holding(c, active)
  {
    forall p | p in c.held && !(active && p == b.hand) ensures HasDesc(c, p) {
      StillHasDesc(b, c, p, lo);
    }
  }

  /** With its last descriptor a packet is gone from the ring; before that, the
      next descriptor is the packet's too. */
  ghost predicate OnlyItsEnd(b: Books, d: nat)
    requires d in b.owner
  {
    if d in b.ends then forall e :: e in b.owner && e != d ==> b.owner[e] != b.owner[d]
    else d + 1 in b.owner && b.owner[d + 1] == b.owner[d]
  }

  lemma OldestIsOnlyItsEnd(b: Books, lo: nat, wr: nat, hi: nat, active: bool, first: int)
    requires Right(b, lo, wr, hi, active, first) && lo < wr && (active ==> lo < first)
    ensures lo in b.owner && OnlyItsEnd(b, lo) && (active ==> b.owner[lo] != b.hand)
  {
    hide Holding;
    if lo !in b.ends {
      assert GoesOn(b, lo, wr);
    }
  }

  // --- Steps and runs ----------------------------------------------------------------

  /** Transmit is working on a packet. */
  predicate Active(s: State) { !s.tx.TxIdle? && !s.tx.BusyStopping? && !s.tx.BusyFlushing? }

  predicate Publishing(s: State) { Active(s) && !s.tx.Filling? && !s.tx.Unwinding? }

  ghost predicate BooksOk(s: State, b: Books) {
    && Right(b, Oldest(s), s.wr, s.wr + Staged(s), Active(s), s.wr - InHand(s))
    && (s.tx.Filling? ==> s.tx.n >= 1) && (Publishing(s) ==> InHand(s) >= 1)
  }

  lemma LiveSlot(s: State, n: nat)
    requires Inv(s) && Oldest(s) <= n < s.wr + Staged(s)
    ensures SlotAt(s, n) == Holds(n)
  {
  }

  lemma TxKeepsBooks(s: State, b: Books, n: nat, mapFails: bool, more: bool)
    requires Inv(s) && BooksOk(s, b)
    ensures BooksOk(TxStep(s, n, mapFails, more), TxBooks(s, b, n, mapFails))
  {
    hide Right, RingOk, SavedOk, WakeOk, KickOk, RingSize, TxFull, ShouldStop, ShouldWake, SlotOf, SlotAt;
    var lo := Oldest(s);
    match s.tx
    case TxIdle => BeginIsRight(b, lo, s.wr, s.wr);
    case Filling(_, _) => FillingKeepsBooks(s, b, n, mapFails, more);
    case Unwinding(_) => UnwindingKeepsBooks(s, b, n, mapFails, more);
    case Flushing(k) => FinishIsRight(b, lo, s.wr, s.wr - k);
    case _ =>
  }

  lemma FillingKeepsBooks(s: State, b: Books, n: nat, mapFails: bool, more: bool)
    requires Inv(s) && BooksOk(s, b) && s.tx.Filling?
    ensures BooksOk(TxStep(s, n, mapFails, more), TxBooks(s, b, n, mapFails))
  {
    hide Right, RingOk, SavedOk, WakeOk, KickOk, RingSize, TxFull, ShouldStop, ShouldWake, SlotOf, SlotAt;
    var lo, hi := Oldest(s), s.wr + s.tx.f;
    if s.tx.f >= s.tx.n {
      PublishIsRight(b, lo, s.wr, hi);
    } else if !mapFails {
      MapIsRight(b, lo, s.wr, hi);
    }
  }

  lemma UnwindingKeepsBooks(s: State, b: Books, n: nat, mapFails: bool, more: bool)
    requires Inv(s) && BooksOk(s, b) && s.tx.Unwinding?
    ensures BooksOk(TxStep(s, n, mapFails, more), TxBooks(s, b, n, mapFails))
  {
    hide Right, RingOk, SavedOk, WakeOk, KickOk, RingSize, TxFull, ShouldStop, ShouldWake, SlotOf, SlotAt;
    var lo, hi := Oldest(s), s.wr + s.tx.f;
    if s.tx.f == 0 {
      FreeIsRight(b, lo, s.wr);
    } else {
      LiveSlot(s, hi - 1);
      UnmapIsRight(b, lo, s.wr, hi);
    }
  }

  lemma CplKeepsBooks(s: State, b: Books, v: u32)
    requires Inv(s) && BooksOk(s, b)
    ensures BooksOk(CplStep(s, v), CplBooks(s, b))
  {
    hide Right, RingOk, SavedOk, WakeOk, KickOk, RingSize, TxFull, ShouldStop, ShouldWake, SlotOf, SlotAt, Todo;
    if s.cpl.Clearing? {
      LiveSlot(s, s.cpl.n);
      RetireIsRight(b, s.cpl.n, s.wr, s.wr + Staged(s), Active(s), s.wr - InHand(s));
    }
  }

  lemma StepKeepsBooks(s: State, b: Books, a: Action)
    requires Inv(s) && BooksOk(s, b)
    ensures BooksOk(Step(s, a), Account(s, b, a))
  {
    hide Right, Inv, TxStep, CplStep, TxBooks, CplBooks;
    match a
    case Tx(n, mapFails, more) => TxKeepsBooks(s, b, n, mapFails, more);
    case Completion(v) => CplKeepsBooks(s, b, v);
    case Device(k) =>
  }

  lemma {:induction false} RunKeepsBooks(cnt: u32, acts: seq<Action>)
    requires RingSize(cnt) && cnt > 0
    ensures BooksOk(Run(Init(cnt), acts), Kept(Init(cnt), NEW, acts))
  {
    hide Inv, Account, BooksOk;
    if acts == [] {
      NewIsRight(cnt);
    } else {
      var init := acts[..|acts| - 1];
      RunKeepsBooks(cnt, init);
      RunKeepsInv(cnt, init);
      StepKeepsBooks(Run(Init(cnt), init), Kept(Init(cnt), NEW, init), acts[|acts| - 1]);
    }
  }

  lemma NewIsRight(cnt: u32)
    ensures BooksOk(Init(cnt), NEW)
  {
  }

  /** In every interleaving of transmit, completion and the device, no mapping
      is undone twice, no buffer is freed twice or read after it is freed;
      exactly the descriptors in the ring, and those of the packet being
      written, have live mappings, and exactly their packets are unfreed. */
  lemma EachExactlyOnce(cnt: u32, acts: seq<Action>)
    requires RingSize(cnt) && cnt > 0
    ensures var s, b := Run(Init(cnt), acts), Kept(Init(cnt), NEW, acts);
      && b.misuse == 0
      && (forall d :: d in b.owner <==> Oldest(s) <= d < s.wr + Staged(s))
      && (forall p :: p in b.held <==> (Active(s) && p == b.hand) || HasDesc(b, p))
  {
    RunKeepsBooks(cnt, acts);
    var b := Kept(Init(cnt), NEW, acts);
    forall p | HasDesc(b, p) ensures p in b.held {
      var d :| d in b.owner && b.owner[d] == p;
    }
  }

  /** With both threads between their calls and nothing in the ring, no mapping
      is live and no buffer is held. */
  lemma NothingIsForgotten(cnt: u32, acts: seq<Action>)
    requires RingSize(cnt) && cnt > 0
    requires var s := Run(Init(cnt), acts); s.Idle() && s.rd == s.wr
    ensures var b := Kept(Init(cnt), NEW, acts); b.owner == map[] && b.held == {}
  {
    EachExactlyOnce(cnt, acts);
    var b := Kept(Init(cnt), NEW, acts);
    assert b.owner.Keys == {};
  }
}
