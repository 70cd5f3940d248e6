/** Transmit and completion running concurrently on one stack TX ring, one
    memory access at a time, with a device that moves on its own.

    nfp_net_tx_complete() advances the read counter before it reads the slot
    it has just given up, nfp_net_tx() decides on a read counter that may be
    stale a moment later, and the two race on the stopped flag. Steps are
    sequentially consistent. A slot remembers which descriptor it holds. */
module TxInterleaving {
  import opened Words
  import opened TxRings

  datatype Slot = Vacant | Holds(n: nat)

  /** Where nfp_net_tx() is. */
  datatype TxPc =
    | TxIdle
    | Filling(n: nat, f: nat)      // room for n checked, f slots written
    | Unwinding(f: nat)            // a mapping failed, f slots left to clear
    | Published(n: nat)            // write counter moved
    | Stopping(n: nat)
    | Rechecking(n: nat)
    | Restarting(n: nat)
    | Accounting(n: nat)
    | Flushing(n: nat)
    | BusyStopping
    | BusyFlushing

  /** Where nfp_net_tx_complete() is; `seen` is the register value it read. */
  datatype CplPc =
    | CplIdle
    | Looping(todo: nat, seen: u32)
    | Clearing(n: nat, todo: nat, seen: u32)
    | WakeTest
    | StopTest
    | Waking

  datatype State = State(
    cnt: u32, wr: nat, rd: nat, saved: u32, wrPtrAdd: nat, devWr: nat, devRd: nat,
    slots: seq<Slot>, stopped: bool, stoppedByRing: bool, tx: TxPc, cpl: CplPc)
  {
    function WrP(): u32 { wr % TWO_32 }
    function RdP(): u32 { rd % TWO_32 }
    predicate Stop() { ShouldStop(WrP(), RdP(), cnt) }
    predicate Wake() { ShouldWake(WrP(), RdP(), cnt) }
    predicate Idle() { tx.TxIdle? && cpl.CplIdle? }

    function Flushed(): State { this.(devWr := devWr + wrPtrAdd, wrPtrAdd := 0) }

    function Put(n: nat, v: Slot): State {
      if cnt > 0 && SlotOf(n, cnt) < |slots| then this.(slots := slots[SlotOf(n, cnt) := v]) else this
    }
  }

  /** One step of some thread. The environment chooses the packet size, whether
      a mapping fails, whether more packets are announced, what the pointer
      register reads, and how far the device gets. */
  datatype Action =
    | Tx(n: nat, mapFails: bool, more: bool)
    | Completion(v: u32)
    | Device(k: nat)

  function TxStep(s: State, n: nat, mapFails: bool, more: bool): State {
    match s.tx
    case TxIdle =>
      if s.stopped || n == 0 || n > MAX_SKB_FRAGS + 1 then s
      else if TxFull(s.WrP(), s.RdP(), s.cnt, n) then s.(tx := BusyStopping)
      else s.(tx := Filling(n, 0))
    case Filling(n, f) =>
      if f >= n then s.(wr := s.wr + n, tx := Published(n))
      else if mapFails then s.(tx := Unwinding(f))
      else s.Put(s.wr + f, Holds(s.wr + f)).(tx := Filling(n, f + 1))
    case Unwinding(f) =>
      if f == 0 then s.Flushed().(tx := TxIdle)
      else s.Put(s.wr + f - 1, Vacant).(tx := Unwinding(f - 1))
    case Published(n) => s.(tx := if s.Stop() then Stopping(n) else Accounting(n))
    case Stopping(n) => s.(stopped := true, stoppedByRing := true, tx := Rechecking(n))
    case Rechecking(n) => s.(tx := if s.Wake() then Restarting(n) else Accounting(n))
    case Restarting(n) => s.(stopped := false, tx := Accounting(n))
    case Accounting(n) => s.(wrPtrAdd := s.wrPtrAdd + n, tx := Flushing(n))
    case Flushing(_) => (if !more || s.stopped then s.Flushed() else s).(tx := TxIdle)
    case BusyStopping => s.(stopped := true, stoppedByRing := false, tx := BusyFlushing)
    case BusyFlushing => s.Flushed().(tx := TxIdle)
  }

  function CplStep(s: State, v: u32): State
    requires s.cnt > 0
  {
    match s.cpl
    case CplIdle =>
      if s.WrP() == s.RdP() || v > QCP_PTR_MASK || v % s.cnt != s.devRd % s.cnt || v == s.saved then s
      else s.(cpl := Looping(Todo(s.cnt, v, s.saved), v))
    case Looping(todo, seen) =>
      if todo == 0 then s.(saved := seen, cpl := WakeTest)
      else s.(rd := s.rd + 1, cpl := Clearing(s.rd, todo - 1, seen))
    case Clearing(n, todo, seen) => s.Put(n, Vacant).(cpl := Looping(todo, seen))
    case WakeTest => s.(cpl := if s.Wake() then StopTest else CplIdle)
    case StopTest => s.(cpl := if s.stopped then Waking else CplIdle)
    case Waking => s.(stopped := false, cpl := CplIdle)
  }

  function Step(s: State, a: Action): (t: State)
    requires s.cnt > 0
    ensures t.cnt == s.cnt
  {
    match a
    case Tx(n, mapFails, more) => TxStep(s, n, mapFails, more)
    case Completion(v) => CplStep(s, v)
    case Device(k) => if s.devRd + k <= s.devWr then s.(devRd := s.devRd + k) else s
  }

  function Init(cnt: u32): (s: State)
    ensures s.cnt == cnt
  {
    State(cnt, 0, 0, 0, 0, 0, 0, seq(cnt, i => Vacant), false, false, TxIdle, CplIdle)
  }

  function Run(s: State, acts: seq<Action>): (r: State)
    requires s.cnt > 0
    ensures r.cnt == s.cnt
  {
    if acts == [] then s else Step(Run(s, acts[..|acts| - 1]), acts[|acts| - 1])
  }

  // --- What every reachable state satisfies --------------------------------------

  /** Slots transmit has written beyond the write counter. */
  function Staged(s: State): nat {
    match s.tx
    case Filling(n, f) => f
    case Unwinding(f) => f
    case _ => 0
  }

  /** Slots transmit may still write beyond the write counter. */
  function Reserved(s: State): nat {
    match s.tx
    case Filling(n, f) => n
    case Unwinding(f) => f
    case _ => 0
  }

  /** Published but not yet added to wrPtrAdd. */
  function Unaccounted(s: State): nat {
    match s.tx
    case Published(n) => n
    case Stopping(n) => n
    case Rechecking(n) => n
    case Restarting(n) => n
    case Accounting(n) => n
    case _ => 0
  }

  function TodoLeft(s: State): nat {
    match s.cpl
    case Looping(todo, _) => todo
    case Clearing(_, todo, _) => todo
    case _ => 0
  }

  /** Oldest descriptor whose slot is still in use; completion lags its own
      read counter by one while it is clearing. */
  function Oldest(s: State): nat {
    if s.cpl.Clearing? then s.cpl.n else s.rd
  }

  ghost predicate CountersOk(s: State) {
    && RingSize(s.cnt)
    && s.rd + TodoLeft(s) <= s.devRd <= s.devWr <= s.wr
    && s.wr + Reserved(s) < s.rd + s.cnt
    && s.devWr + s.wrPtrAdd + Unaccounted(s) == s.wr
    && (s.tx.Filling? ==> s.tx.f <= s.tx.n)
    && (s.tx.Flushing? ==> s.tx.n <= s.wrPtrAdd)
    && (s.cpl.Clearing? ==> s.cpl.n + 1 == s.rd)
  }

  predicate SavedOk(s: State)
    requires s.cnt > 0
  {
    match s.cpl
    case Looping(todo, seen) => seen % s.cnt == (s.rd + todo) % s.cnt
    case Clearing(_, todo, seen) => seen % s.cnt == (s.rd + todo) % s.cnt
    case _ => s.saved % s.cnt == s.rd % s.cnt
  }

  ghost predicate SlotsOk(slots: seq<Slot>, lo: nat, hi: nat) {
    && |slots| > 0 && lo <= hi <= lo + |slots|
    && (forall n :: lo <= n < hi ==> slots[SlotOf(n, |slots|)] == Holds(n))
    && (forall n :: hi <= n < lo + |slots| ==> slots[SlotOf(n, |slots|)] == Vacant)
  }

  /** A queue stopped by the ring while it has room again has someone about
      to look at it. */
  predicate WakeOk(s: State) {
    s.stopped && s.stoppedByRing && s.Wake() ==>
      s.tx.Rechecking? || s.tx.Restarting? || !s.cpl.CplIdle?
  }

  /** Transmit leaves no descriptor unannounced on a queue it leaves stopped. */
  predicate KickOk(s: State) {
    s.stopped ==>
      || s.tx.Rechecking? || s.tx.Restarting? || s.tx.Accounting? || s.tx.Flushing? || s.tx.BusyFlushing?
      || (s.tx.TxIdle? && s.wrPtrAdd == 0)
  }

  ghost predicate RingOk(s: State) {
    |s.slots| == s.cnt && SlotsOk(s.slots, Oldest(s), s.wr + Staged(s))
  }

  ghost predicate Inv(s: State) {
    CountersOk(s) && s.cnt > 0 && SavedOk(s) && RingOk(s) && WakeOk(s) && KickOk(s)
  }

  lemma SlotsGrow(slots: seq<Slot>, lo: nat, hi: nat)
    requires SlotsOk(slots, lo, hi) && hi < lo + |slots|
    ensures slots[SlotOf(hi, |slots|)] == Vacant
    ensures SlotsOk(slots[SlotOf(hi, |slots|) := Holds(hi)], lo, hi + 1)
  {
    OtherSlots(hi, lo, |slots|);
  }

  lemma SlotsShrink(slots: seq<Slot>, lo: nat, hi: nat)
    requires SlotsOk(slots, lo, hi) && lo < hi
    ensures SlotsOk(slots[SlotOf(hi - 1, |slots|) := Vacant], lo, hi - 1)
  {
    OtherSlots(hi - 1, lo, |slots|);
  }

  lemma SlotsRetire(slots: seq<Slot>, lo: nat, hi: nat)
    requires SlotsOk(slots, lo, hi) && lo < hi
    ensures slots[SlotOf(lo, |slots|)] == Holds(lo)
    ensures SlotsOk(slots[SlotOf(lo, |slots|) := Vacant], lo + 1, hi)
  {
    OtherSlots(lo, lo, |slots|);
    AddOne(lo, |slots|);
    assert SlotOf(lo + |slots|, |slots|) == SlotOf(lo, |slots|);
  }

  lemma InitOk(cnt: u32)
    requires RingSize(cnt)
    ensures Inv(Init(cnt))
  {
    RingSizeBounds(cnt);
    Small(0, cnt);
  }

  // --- Steps of transmit -----------------------------------------------------------

  /** The room test holds good even though completion may move on meanwhile. */
  lemma TxReserveKeepsCounters(s: State, n: nat, mapFails: bool, more: bool)
    requires Inv(s) && (s.tx.TxIdle? || s.tx.Filling? || s.tx.Unwinding?)
    ensures CountersOk(TxStep(s, n, mapFails, more))
  {
    hide SlotsOk, SlotOf, RingSize, SavedOk, WakeOk, TxFull, ShouldWake, ShouldStop;
    RingSizeBounds(s.cnt);
    if s.tx.TxIdle? && 1 <= n <= MAX_SKB_FRAGS + 1 {
      StaleReadIsSafe(s.wr, s.rd, s.rd, s.cnt, n);
    }
  }

  lemma TxFinishKeepsCounters(s: State, n: nat, mapFails: bool, more: bool)
    requires Inv(s) && !(s.tx.TxIdle? || s.tx.Filling? || s.tx.Unwinding?)
    ensures CountersOk(TxStep(s, n, mapFails, more))
  {
    hide SlotsOk, SlotOf, RingSize, SavedOk, WakeOk, TxFull, ShouldWake, ShouldStop;
  }

  /** Transmit only ever writes vacant slots, and clears only its own. */
  lemma TxKeepsSlots(s: State, n: nat, mapFails: bool, more: bool)
    requires Inv(s)
    ensures RingOk(TxStep(s, n, mapFails, more))
    ensures s.tx.Filling? && s.tx.f < s.tx.n ==> s.slots[SlotOf(s.wr + s.tx.f, s.cnt)] == Vacant
  {
    hide SlotsOk, SlotOf, RingSize, SavedOk, WakeOk, TxFull, ShouldWake, ShouldStop;
    if s.tx.Filling? && s.tx.f < s.tx.n {
      SlotsGrow(s.slots, Oldest(s), s.wr + s.tx.f);
    } else if s.tx.Unwinding? && s.tx.f > 0 {
      SlotsShrink(s.slots, Oldest(s), s.wr + s.tx.f);
    }
  }

  lemma TxKeepsWake(s: State, n: nat, mapFails: bool, more: bool)
    requires Inv(s)
    ensures WakeOk(TxStep(s, n, mapFails, more)) && KickOk(TxStep(s, n, mapFails, more))
  {
    hide SlotsOk, SlotOf, RingSize, SavedOk, TxFull, ShouldWake, ShouldStop;
    if s.tx.Filling? && s.tx.f == s.tx.n {
      WakeIsMonotone(s.wr, s.wr + s.tx.n, s.rd, s.cnt);
    }
  }

  /** Publishing descriptors never makes a ring more fit to be woken. */
  lemma WakeIsMonotone(wr: nat, wr': nat, rd: nat, cnt: u32)
    requires RingSize(cnt) && rd <= wr <= wr' < rd + cnt
    ensures ShouldWake(wr' % TWO_32, rd % TWO_32, cnt) ==> ShouldWake(wr % TWO_32, rd % TWO_32, cnt)
  {
    RingSizeBounds(cnt);
    TxFullExact(wr, rd, cnt, MAX_SKB_FRAGS * 4);
    TxFullExact(wr', rd, cnt, MAX_SKB_FRAGS * 4);
  }

  lemma TxKeepsSaved(s: State, n: nat, mapFails: bool, more: bool)
    requires Inv(s)
    ensures TxStep(s, n, mapFails, more).cnt == s.cnt && SavedOk(TxStep(s, n, mapFails, more))
  {
    hide SlotsOk, SlotOf, RingSize, WakeOk, TxFull, ShouldWake, ShouldStop;
  }

  lemma TxKeepsInv(s: State, n: nat, mapFails: bool, more: bool)
    requires Inv(s)
    ensures Inv(TxStep(s, n, mapFails, more))
  {
    hide RingOk, SavedOk, RingSize, WakeOk, KickOk, TxStep, CountersOk;
    TxKeepsSaved(s, n, mapFails, more);
    if s.tx.TxIdle? || s.tx.Filling? || s.tx.Unwinding? {
      TxReserveKeepsCounters(s, n, mapFails, more);
    } else {
      TxFinishKeepsCounters(s, n, mapFails, more);
    }
    TxKeepsSlots(s, n, mapFails, more);
    TxKeepsWake(s, n, mapFails, more);
  }

  // --- Steps of completion ---------------------------------------------------------

  /** The number of completions taken is the number the device has made. */
  lemma PollIsExact(s: State, v: u32)
    requires Inv(s) && s.cpl.CplIdle? && v % s.cnt == s.devRd % s.cnt
    ensures Todo(s.cnt, v, s.saved) == s.devRd - s.rd
    ensures v == s.saved ==> s.devRd == s.rd
  {
    TodoExact(s.cnt, v, s.saved, s.devRd, s.rd);
  }

  lemma CplKeepsCounters(s: State, v: u32)
    requires Inv(s)
    ensures CplStep(s, v).cnt == s.cnt && CountersOk(CplStep(s, v))
  {
    hide SlotsOk, RingOk, SavedOk, SlotOf, RingSize, WakeOk, KickOk, TxFull, ShouldWake, ShouldStop, Todo;
    if s.cpl.CplIdle? && v % s.cnt == s.devRd % s.cnt {
      PollIsExact(s, v);
    }
  }

  lemma CplKeepsSaved(s: State, v: u32)
    requires Inv(s)
    ensures CplStep(s, v).cnt == s.cnt && SavedOk(CplStep(s, v))
  {
    hide SlotsOk, RingOk, CountersOk, SlotOf, RingSize, WakeOk, KickOk, TxFull, ShouldWake, ShouldStop, Todo;
    if s.cpl.CplIdle? && v % s.cnt == s.devRd % s.cnt {
      PollIsExact(s, v);
    }
  }

  /** Completion reads and clears the very descriptor it gave up, although
      the read counter that protects it has already moved past. */
  lemma CplKeepsSlots(s: State, v: u32)
    requires Inv(s)
    ensures RingOk(CplStep(s, v))
    ensures s.cpl.Clearing? ==> s.slots[SlotOf(s.cpl.n, s.cnt)] == Holds(s.cpl.n)
  {
    hide SlotsOk, SlotOf, RingSize, WakeOk, TxFull, ShouldWake, ShouldStop, Todo, SavedOk;
    if s.cpl.Clearing? {
      SlotsRetire(s.slots, s.cpl.n, s.wr + Staged(s));
    }
  }

  lemma CplKeepsWake(s: State, v: u32)
    requires Inv(s)
    ensures WakeOk(CplStep(s, v)) && KickOk(CplStep(s, v))
  {
    hide SlotsOk, SlotOf, RingSize, SavedOk, TxFull, ShouldWake, ShouldStop, Todo;
  }

  lemma CplKeepsInv(s: State, v: u32)
    requires Inv(s)
    ensures Inv(CplStep(s, v))
  {
    hide RingOk, SavedOk, RingSize, WakeOk, KickOk, CplStep, CountersOk;
    CplKeepsCounters(s, v);
    CplKeepsSaved(s, v);
    CplKeepsSlots(s, v);
    CplKeepsWake(s, v);
  }

  // --- Runs ------------------------------------------------------------------------

  lemma StepKeepsInv(s: State, a: Action)
    requires Inv(s)
    ensures Inv(Step(s, a))
  {
    match a
    case Tx(n, mapFails, more) => TxKeepsInv(s, n, mapFails, more);
    case Completion(v) => CplKeepsInv(s, v);
    case Device(k) => hide RingSize, TxFull, SlotOf;
  }

  /** Every state of every run of every ring satisfies the invariant. */
  lemma {:induction false} RunKeepsInv(cnt: u32, acts: seq<Action>)
    requires RingSize(cnt) && cnt > 0
    ensures Inv(Run(Init(cnt), acts))
  {
    if acts == [] {
      InitOk(cnt);
    } else {
      RunKeepsInv(cnt, acts[..|acts| - 1]);
      StepKeepsInv(Run(Init(cnt), acts[..|acts| - 1]), acts[|acts| - 1]);
    }
  }

  /** No lost wake-up: with both threads idle, a queue that the ring stopped
      stays stopped only while the ring really is too full to be woken. */
  lemma NoLostWakeUp(cnt: u32, acts: seq<Action>)
    requires RingSize(cnt) && cnt > 0
    ensures var s := Run(Init(cnt), acts);
      s.Idle() && s.stopped && s.stoppedByRing ==> s.wr - s.rd + MAX_SKB_FRAGS * 4 >= cnt
  {
    RunKeepsInv(cnt, acts);
    var s := Run(Init(cnt), acts);
    RingSizeBounds(cnt);
    TxFullExact(s.wr, s.rd, cnt, MAX_SKB_FRAGS * 4);
  }

  /** The one-slot gap: descriptors in the ring, and those transmit is still
      entitled to write, never fill it; and the device pointer plus the
      pending addition is the write counter whenever transmit is idle, with
      nothing pending on a stopped queue. */
  lemma CountersAgree(cnt: u32, acts: seq<Action>)
    requires RingSize(cnt) && cnt > 0
    ensures var s := Run(Init(cnt), acts);
      && Sub32(s.WrP(), s.RdP()) == s.wr - s.rd
      && s.wr + Reserved(s) - s.rd < cnt
      && s.rd <= s.devRd <= s.devWr <= s.wr
      && (s.tx.TxIdle? ==> s.devWr + s.wrPtrAdd == s.wr)
      && (s.tx.TxIdle? && s.stopped ==> s.devWr == s.wr)
  {
    RunKeepsInv(cnt, acts);
    var s := Run(Init(cnt), acts);
    RingSizeBounds(cnt);
    CounterDistance(s.wr, s.rd);
  }

  /** Descriptors of the packet transmit has published and still looks at. */
  function InHand(s: State): nat {
    if s.tx.Flushing? then s.tx.n else Unaccounted(s)
  }

  /** Transmit reads the socket buffer once more after it has moved the write
      counter, when it decides about the doorbell. By then completion cannot
      have freed it: the device has not been told of any of its descriptors,
      and each of them is still in its slot. */
  lemma NotFreedWhileRead(cnt: u32, acts: seq<Action>)
    requires RingSize(cnt) && cnt > 0
    ensures var s := Run(Init(cnt), acts);
      && |s.slots| == cnt
      && s.rd <= s.devRd <= s.devWr <= s.wr - InHand(s)
      && forall d: nat :: s.wr - InHand(s) <= d < s.wr ==> s.slots[SlotOf(d, cnt)] == Holds(d)
  {
    RunKeepsInv(cnt, acts);
  }

  /** Neither thread ever touches a slot the other is using. */
  lemma NoSlotIsClobbered(cnt: u32, acts: seq<Action>)
    requires RingSize(cnt) && cnt > 0
    ensures var s := Run(Init(cnt), acts);
      && |s.slots| == cnt
      && (s.cpl.Clearing? ==> s.slots[SlotOf(s.cpl.n, cnt)] == Holds(s.cpl.n))
      && (s.tx.Filling? && s.tx.f < s.tx.n ==> s.slots[SlotOf(s.wr + s.tx.f, cnt)] == Vacant)
  {
    RunKeepsInv(cnt, acts);
    var s := Run(Init(cnt), acts);
    TxKeepsSlots(s, 0, false, false);
    CplKeepsSlots(s, 0);
  }

  // --- Every start and stop has its reason -----------------------------------------

  /** Room enough to let the stack start again. */
  predicate HasWakeRoom(s: State) {
    s.wr - s.rd + MAX_SKB_FRAGS * 4 < s.cnt
  }

  /** Too little room for the largest packet the stack may hand over next. */
  predicate NearlyFull(s: State) {
    s.wr - s.rd + MAX_SKB_FRAGS + 1 >= s.cnt
  }

  lemma TestsAreExact(s: State)
    requires Inv(s)
    ensures s.Wake() <==> HasWakeRoom(s)
    ensures s.Stop() <==> NearlyFull(s)
    ensures forall n: nat :: n <= MAX_SKB_FRAGS + 1 ==>
      (TxFull(s.WrP(), s.RdP(), s.cnt, n) <==> s.wr - s.rd + n >= s.cnt)
    ensures NearlyFull(s) ==> !HasWakeRoom(s)
  {
    RingSizeBounds(s.cnt);
    TxFullExact(s.wr, s.rd, s.cnt, MAX_SKB_FRAGS * 4);
    forall n: nat | n <= MAX_SKB_FRAGS + 1 { TxFullExact(s.wr, s.rd, s.cnt, n); }
  }

  /** What either thread may have made up its mind to do about the queue. */
  datatype Decision = Wake | Restart | RingStop | BusyStop

  predicate Decided(s: State, d: Decision) {
    match d
    case Wake => s.cpl.StopTest? || s.cpl.Waking?
    case Restart => s.tx.Restarting?
    case RingStop => s.tx.Stopping?
    case BusyStop => s.tx.BusyStopping?
  }

  /** The moment of decision, and what the thread saw then in true counts. */
  predicate Grounds(s: State, a: Action, d: Decision) {
    match d
    case Wake => a.Completion? && s.cpl.WakeTest? && HasWakeRoom(s)
    case Restart => a.Tx? && s.tx.Rechecking? && HasWakeRoom(s)
    case RingStop => a.Tx? && s.tx.Published? && NearlyFull(s)
    case BusyStop => a.Tx? && s.tx.TxIdle? && !s.stopped && s.wr - s.rd + a.n >= s.cnt
  }

  lemma DecisionStep(s: State, a: Action, d: Decision)
    requires Inv(s) && Decided(Step(s, a), d)
    ensures Decided(s, d) || Grounds(s, a, d)
  {
    hide SlotsOk, RingOk, SavedOk, WakeOk, KickOk, SlotOf, RingSize, TxFull, ShouldWake, ShouldStop, CountersOk;
    hide HasWakeRoom, NearlyFull, Todo;
    TestsAreExact(s);
  }

  /** The decision was made by step j, on good grounds, and has stood since. */
  ghost predicate HadGrounds(cnt: u32, acts: seq<Action>, d: Decision, j: nat)
    requires cnt > 0
  {
    && j < |acts| && Grounds(Run(Init(cnt), acts[..j]), acts[j], d)
    && forall k :: j < k <= |acts| ==> Decided(Run(Init(cnt), acts[..k]), d)
  }

  lemma {:induction false} DecisionHasGrounds(cnt: u32, acts: seq<Action>, d: Decision) returns (j: nat)
    requires RingSize(cnt) && cnt > 0 && Decided(Run(Init(cnt), acts), d)
    ensures HadGrounds(cnt, acts, d, j)
  {
    hide Step, Grounds, Decided, RingSize;
    if acts == [] {
      NothingDecided(cnt, d);
    } else {
      var init, a := acts[..|acts| - 1], acts[|acts| - 1];
      RunKeepsInv(cnt, init);
      DecisionStep(Run(Init(cnt), init), a, d);
      j := |init|;
      if Decided(Run(Init(cnt), init), d) {
        j := DecisionHasGrounds(cnt, init, d);
      }
      assert acts[..|acts|] == acts && init[..j] == acts[..j];
      forall k | j < k <= |acts| ensures Decided(Run(Init(cnt), acts[..k]), d) {
        assert k < |acts| ==> acts[..k] == init[..k];
      }
    }
  }

  lemma NothingDecided(cnt: u32, d: Decision)
    ensures !Decided(Init(cnt), d)
  {
  }

  /** The queue is started only by a thread that saw room for it, completion
      at its wake test or transmit at its recheck, and has done nothing else
      since; it is stopped only by a transmit that saw the ring nearly full,
      or without room for its packet. */
  lemma StartsAndStopsHaveGrounds(cnt: u32, acts: seq<Action>, a: Action)
    requires RingSize(cnt) && cnt > 0
    ensures var s, t := Run(Init(cnt), acts), Step(Run(Init(cnt), acts), a);
      var d := if a.Completion? then Wake else Restart;
      && (s.stopped && !t.stopped ==> exists j: nat :: HadGrounds(cnt, acts, d, j))
      && (!s.stopped && t.stopped ==>
            exists j: nat :: HadGrounds(cnt, acts, RingStop, j) || HadGrounds(cnt, acts, BusyStop, j))
  {
    hide HadGrounds, RingSize;
    var s, t := Run(Init(cnt), acts), Step(Run(Init(cnt), acts), a);
    if s.stopped && !t.stopped {
      var j := DecisionHasGrounds(cnt, acts, if a.Completion? then Wake else Restart);
    } else if !s.stopped && t.stopped {
      var j := DecisionHasGrounds(cnt, acts, if s.tx.Stopping? then RingStop else BusyStop);
    }
  }

  // --- Undisturbed, the threads are the sequential operations ------------------------

  /** `steps` steps of transmit with nobody else moving. */
  function TxAlone(s: State, n: nat, more: bool, steps: nat): State
    decreases steps
  {
    if steps == 0 then s else TxStep(TxAlone(s, n, more, steps - 1), n, false, more)
  }

  /** A packet that has been published leaves the queue stopped exactly if it
      was or the ring is nearly full, and the device is told of everything
      unless more is announced on a running queue. */
  lemma PublishedAlone(s: State, more: bool)
    requires Inv(s) && s.tx.Published?
    ensures var t := TxAlone(s, 0, more, if NearlyFull(s) then 5 else 3);
      && t.tx.TxIdle? && t.wr == s.wr && t.rd == s.rd && t.slots == s.slots
      && t.stopped == (s.stopped || NearlyFull(s))
      && t.devWr == (if more && !t.stopped then s.devWr else t.wr)
  {
    hide SlotsOk, RingOk, SavedOk, WakeOk, KickOk, SlotOf, RingSize, TxFull;
    TestsAreExact(s);
    assert TxAlone(s, 0, more, 0) == s;
    if NearlyFull(s) {
      assert TxAlone(s, 0, more, 1) == s.(tx := Stopping(s.tx.n));
      assert TxAlone(s, 0, more, 2) == s.(stopped := true, stoppedByRing := true, tx := Rechecking(s.tx.n));
      assert TxAlone(s, 0, more, 3) == s.(stopped := true, stoppedByRing := true, tx := Accounting(s.tx.n));
      assert TxAlone(s, 0, more, 4).tx.Flushing?;
    } else {
      assert TxAlone(s, 0, more, 1) == s.(tx := Accounting(s.tx.n));
      assert TxAlone(s, 0, more, 2).tx.Flushing?;
    }
  }

  /** A packet without room stops the queue and has what was announced before
      told to the device; with room, filling begins. */
  lemma RoomTestAlone(s: State, n: nat, more: bool)
    requires Inv(s) && s.tx.TxIdle? && !s.stopped && 1 <= n <= MAX_SKB_FRAGS + 1
    ensures s.wr - s.rd + n < s.cnt ==> TxStep(s, n, false, more) == s.(tx := Filling(n, 0))
    ensures s.wr - s.rd + n >= s.cnt ==>
      TxAlone(s, n, more, 3) == s.(stopped := true, stoppedByRing := false, devWr := s.wr, wrPtrAdd := 0)
  {
    hide SlotsOk, RingOk, SavedOk, WakeOk, KickOk, SlotOf, RingSize, TxFull;
    TestsAreExact(s);
    if s.wr - s.rd + n >= s.cnt {
      assert TxAlone(s, n, more, 0) == s;
      assert TxAlone(s, n, more, 1) == s.(tx := BusyStopping);
      assert TxAlone(s, n, more, 2) == s.(stopped := true, stoppedByRing := false, tx := BusyFlushing);
    }
  }

  lemma {:induction false} FirstStepAlone(s: State, n: nat, more: bool, steps: nat)
    ensures TxAlone(s, n, more, steps + 1) == TxAlone(TxStep(s, n, false, more), n, more, steps)
  {
    if steps > 0 {
      FirstStepAlone(s, n, more, steps - 1);
    }
  }

  /** A packet given up after f of its pieces were mapped moves no counter,
      leaves the queue as it was, and has what was announced before told to
      the device. */
  lemma {:induction false} GivenUpAlone(s: State, more: bool)
    requires Inv(s) && s.tx.Unwinding?
    ensures var t := TxAlone(s, 0, more, s.tx.f + 1);
      t == s.(slots := t.slots, devWr := s.wr, wrPtrAdd := 0, tx := TxIdle) && Inv(t)
    decreases s.tx.f
  {
    hide SlotsOk, RingOk, SavedOk, WakeOk, KickOk, SlotOf, RingSize;
    TxKeepsInv(s, 0, false, more);
    FirstStepAlone(s, 0, more, s.tx.f);
    if s.tx.f > 0 {
      GivenUpAlone(TxStep(s, 0, false, more), more);
    } else {
      assert TxAlone(TxStep(s, 0, false, more), 0, more, 0) == TxStep(s, 0, false, more);
    }
  }

  /** Completion's last steps start the queue exactly if it was stopped and
      there is room. */
  lemma WakeTestAlone(s: State, v: u32)
    requires Inv(s) && s.cpl.WakeTest?
    ensures var t := CplStep(s, v);
      if HasWakeRoom(s) && s.stopped then CplStep(CplStep(t, v), v) == s.(stopped := false, cpl := CplIdle)
      else if HasWakeRoom(s) then CplStep(t, v) == s.(cpl := CplIdle)
      else t == s.(cpl := CplIdle)
  {
    TestsAreExact(s);
  }
}
