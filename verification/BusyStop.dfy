/** The full-ring branch at the head of nfp_net_tx() stops the queue without
    looking at the ring again. This module proves exactly when such a stop is
    for good, and exhibits a run in which it is: a late wake-up makes the
    branch reachable, completion finishes just before the stop, and the queue
    ends up stopped over an empty ring with both threads idle. */
module BusyStop {
  import opened Words
  import opened TxRings
  import opened TxInterleaving

  ghost predicate Reaches(s: State, t: State)
    requires s.cnt > 0
  {
    exists acts :: Run(s, acts) == t
  }

  lemma {:induction false} RunAppend(s: State, a: seq<Action>, b: seq<Action>)
    requires s.cnt > 0
    ensures Run(s, a + b) == Run(Run(s, a), b)
  {
    if b == [] {
      assert a + b == a;
    } else {
      var b' := b[..|b| - 1];
      RunAppend(s, a, b');
      assert (a + b)[..|a + b| - 1] == a + b';
    }
  }

  lemma Stay(s: State)
    requires s.cnt > 0
    ensures Reaches(s, s)
  {
    assert Run(s, []) == s;
  }

  /** Extend a run by one step. */
  lemma Then(s: State, t: State, a: Action) returns (u: State)
    requires s.cnt > 0 && t.cnt == s.cnt && Reaches(s, t)
    ensures u == Step(t, a) && Reaches(s, u)
  {
    var acts :| Run(s, acts) == t;
    u := Step(t, a);
    assert (acts + [a])[..|acts|] == acts;
    assert Run(s, acts + [a]) == u;
  }

  const GO: Action := Tx(18, false, false)

  lemma {:induction false} Fill(s: State, t: State) returns (u: State)
    requires s.cnt > 0 && t.cnt == s.cnt && Reaches(s, t)
    requires t.tx.Filling? && t.tx.f <= t.tx.n
    ensures Reaches(s, u) && u == t.(slots := u.slots, tx := Filling(t.tx.n, t.tx.n))
    decreases t.tx.n - t.tx.f
  {
    if t.tx.f == t.tx.n {
      return t;
    }
    u := Then(s, t, GO);
    u := Fill(s, u);
  }

  /** What the ring tests amount to on a 256-slot ring. */
  lemma Tests(wr: nat, rd: nat)
    requires rd <= wr < 2000 && wr - rd < 256
    ensures wr % TWO_32 == wr && rd % TWO_32 == rd
    ensures TxFull(wr, rd, 256, 18) <==> wr - rd >= 238
    ensures ShouldStop(wr, rd, 256) <==> wr - rd >= 238
    ensures ShouldWake(wr, rd, 256) <==> wr - rd < 188
  {
    Small(wr, TWO_32);
    Small(rd, TWO_32);
    TxFullExact(wr, rd, 256, 18);
    TxFullExact(wr, rd, 256, MAX_SKB_FRAGS * 4);
  }

  /** Transmit up to the moved write counter. */
  lemma Publish(s: State, t: State) returns (u: State)
    requires s.cnt == 256 == t.cnt && Reaches(s, t)
    requires t.tx.TxIdle? && !t.stopped && t.rd <= t.wr < 1000 && t.wr - t.rd + 18 < 256
    ensures Reaches(s, u) && u == t.(wr := t.wr + 18, slots := u.slots, tx := Published(18))
  {
    hide Reaches, TxFull;
    Tests(t.wr, t.rd);
    u := Then(s, t, GO);
    assert u == t.(tx := Filling(18, 0));
    u := Fill(s, u);
    var u' := Then(s, u, GO);
    assert u' == u.(wr := u.wr + 18, tx := Published(18));
    u := u';
  }

  /** The stop test and, on a filling ring, the stop and the recheck. */
  lemma Decide(s: State, t: State) returns (u: State)
    requires s.cnt == 256 == t.cnt && Reaches(s, t)
    requires t.tx == Published(18) && !t.stopped && t.rd <= t.wr < 1018 && t.wr - t.rd < 256
    ensures Reaches(s, u)
    ensures u == if t.wr - t.rd >= 238 then t.(stopped := true, stoppedByRing := true, tx := Accounting(18))
                 else t.(tx := Accounting(18))
  {
    hide Reaches, ShouldStop, ShouldWake;
    Tests(t.wr, t.rd);
    u := Then(s, t, GO);
    if t.wr - t.rd >= 238 {
      assert u == t.(tx := Stopping(18));
      u := Then(s, u, GO);
      assert u == t.(stopped := true, stoppedByRing := true, tx := Rechecking(18));
      u := Then(s, u, GO);
    }
  }

  /** Transmit one 18-descriptor packet while there is room. */
  lemma Send(s: State, t: State) returns (u: State)
    requires s.cnt == 256 == t.cnt && Reaches(s, t)
    requires t.tx.TxIdle? && !t.stopped && t.wrPtrAdd == 0
    requires t.rd <= t.wr < 1000 && t.wr - t.rd + 18 < 256
    ensures Reaches(s, u) && u.wr == t.wr + 18
    ensures var stop := t.wr + 18 - t.rd >= 238;
      u == t.(wr := u.wr, devWr := t.devWr + 18, slots := u.slots, stopped := stop,
              stoppedByRing := if stop then true else t.stoppedByRing)
  {
    hide Reaches;
    u := Publish(s, t);
    u := Decide(s, u);
    var v := Then(s, u, GO);
    assert v == u.(wrPtrAdd := 18, tx := Flushing(18));
    u := Then(s, v, GO);
    assert u == v.(devWr := v.devWr + 18, wrPtrAdd := 0, tx := TxIdle);
  }

  lemma {:induction false} SendMany(s: State, t: State, k: nat) returns (u: State)
    requires s.cnt == 256 == t.cnt && Reaches(s, t)
    requires t.tx.TxIdle? && !t.stopped && t.wrPtrAdd == 0
    requires t.rd <= t.wr && t.wr + 18 * k < 1000 && t.wr - t.rd + 18 * k < 238
    ensures Reaches(s, u) && u == t.(wr := t.wr + 18 * k, devWr := t.devWr + 18 * k, slots := u.slots)
    decreases k
  {
    if k == 0 {
      return t;
    }
    u := Send(s, t);
    u := SendMany(s, u, k - 1);
  }

  lemma {:induction false} Retire(s: State, t: State) returns (u: State)
    requires s.cnt > 0 && t.cnt == s.cnt && Reaches(s, t)
    requires t.cpl.Looping?
    ensures Reaches(s, u)
    ensures u == t.(rd := t.rd + t.cpl.todo, slots := u.slots, saved := t.cpl.seen, cpl := WakeTest)
    ensures Inv(t) ==> Inv(u)
    decreases t.cpl.todo
  {
    hide Reaches, Inv, TxStep, ShouldWake;
    if Inv(t) {
      StepKeepsInv(t, Completion(0));
      StepKeepsInv(Step(t, Completion(0)), Completion(0));
    }
    u := Then(s, t, Completion(0));
    if t.cpl.todo > 0 {
      u := Then(s, u, Completion(0));
      u := Retire(s, u);
    }
  }

  /** The device finishes everything and completion reads its pointer. */
  lemma PollAll(s: State, t: State, v: u32) returns (u: State)
    requires s.cnt == 256 == t.cnt && Reaches(s, t)
    requires t.cpl.CplIdle? && t.rd == t.devRd < t.wr == t.devWr < 1000 && t.wr - t.rd < 256
    requires v % 256 == t.wr % 256 && t.saved % 256 == t.rd % 256 && v != t.saved && v <= QCP_PTR_MASK
    ensures Reaches(s, u)
    ensures u == t.(devRd := t.wr, cpl := Looping(t.wr - t.rd, v))
  {
    hide Reaches, Todo;
    Small(t.wr, TWO_32);
    Small(t.rd, TWO_32);
    assert RingSize(256) by {
      Pow2Table();
      assert 256 == Pow2(8);
    }
    TodoExact(256, v, t.saved, t.wr, t.rd);
    var d := Then(s, t, Device(t.wr - t.rd));
    assert d == t.(devRd := t.wr);
    u := Then(s, d, Completion(v));
  }

  /** ... and takes it all, up to the test of the stopped flag. */
  lemma CompleteAll(s: State, t: State, v: u32) returns (u: State)
    requires s.cnt == 256 == t.cnt && Reaches(s, t)
    requires t.cpl.CplIdle? && t.rd == t.devRd < t.wr == t.devWr < 1000 && t.wr - t.rd < 256
    requires v % 256 == t.wr % 256 && t.saved % 256 == t.rd % 256 && v != t.saved && v <= QCP_PTR_MASK
    ensures Reaches(s, u)
    ensures u == t.(rd := t.wr, devRd := t.wr, slots := u.slots, saved := v, cpl := StopTest)
  {
    hide Reaches, ShouldWake;
    var l := PollAll(s, t, v);
    var w := Retire(s, l);
    Tests(w.wr, w.rd);
    u := Then(s, w, Completion(0));
    assert u == w.(cpl := StopTest);
  }

  // --- When a stop is for good -------------------------------------------------------

  /** Completion has found room, or is past finding it: it starts the queue. */
  lemma WakesUp(s: State, t: State) returns (u: State)
    requires s.cnt > 0 && t.cnt == s.cnt && Reaches(s, t) && t.stopped
    requires (t.cpl.WakeTest? && t.Wake()) || t.cpl.StopTest? || t.cpl.Waking?
    ensures Reaches(s, u) && !u.stopped
  {
    hide Reaches, ShouldWake;
    u := t;
    if u.cpl.WakeTest? {
      u := Then(s, u, Completion(0));
    }
    if u.cpl.StopTest? {
      u := Then(s, u, Completion(0));
    }
    u := Then(s, u, Completion(0));
  }

  /** An empty ring is fit to be woken. */
  lemma EmptyWakes(t: State)
    requires RingSize(t.cnt) && t.rd == t.wr
    ensures t.Wake()
  {
    RingSizeBounds(t.cnt);
    TxFullExact(t.wr, t.rd, t.cnt, MAX_SKB_FRAGS * 4);
  }

  /** With descriptors left in the ring: the device finishes them, the next
      poll retires them all, and completion starts the queue. */
  lemma WakesFromIdle(s: State, t: State) returns (u: State)
    requires s.cnt > 0 && t.cnt == s.cnt && Reaches(s, t) && Inv(t)
    requires t.tx.TxIdle? && t.stopped && t.cpl.CplIdle? && t.rd != t.wr
    ensures Reaches(s, u) && !u.stopped
  {
    hide Reaches, Todo, ShouldWake, RingOk, WakeOk, RingSize;
    RingSizeBounds(t.cnt);
    var v: u32 := t.wr % t.cnt;
    RegisterValue(t, v);
    u := Then(s, t, Device(t.wr - t.devRd));
    assert u == t.(devRd := t.wr);
    var l := Then(s, u, Completion(v));
    assert l == u.(cpl := Looping(t.wr - t.rd, v));
    var w := Retire(s, l);
    EmptyWakes(w);
    u := WakesUp(s, w);
  }

  /** A value the register may show once everything is finished: it differs
      from the saved one, and counts exactly what is left. */
  lemma RegisterValue(t: State, v: u32)
    requires t.cnt > 0 && Inv(t) && t.cpl.CplIdle? && t.rd != t.wr && v == t.wr % t.cnt
    ensures v <= QCP_PTR_MASK && v % t.cnt == t.wr % t.cnt && v != t.saved && t.WrP() != t.RdP()
    ensures Todo(t.cnt, v, t.saved) == t.wr - t.rd
  {
    RingSizeBounds(t.cnt);
    Small(v, t.cnt);
    TodoExact(t.cnt, v, t.saved, t.wr, t.rd);
    if t.WrP() == t.RdP() {
      SameSlot(t.wr, t.rd, TWO_32);
    }
  }

  /** In every other situation than an empty ring seen by idle completion,
      some run starts the queue again. */
  lemma Wakes(s: State, t: State) returns (u: State)
    requires s.cnt > 0 && t.cnt == s.cnt && Reaches(s, t) && Inv(t)
    requires t.tx.TxIdle? && t.stopped && !(t.cpl.CplIdle? && t.wr == t.rd)
    ensures Reaches(s, u) && !u.stopped
  {
    hide Reaches, Inv, ShouldWake;
    u := t;
    if u.cpl.Clearing? {
      StepKeepsInv(u, Completion(0));
      u := Then(s, u, Completion(0));
    }
    if u.cpl.Looping? {
      u := Retire(s, u);
    }
    if u.cpl.WakeTest? && !u.Wake() {
      StillFull(u);
      StepKeepsInv(u, Completion(0));
      u := Then(s, u, Completion(0));
    }
    if u.cpl.CplIdle? {
      u := WakesFromIdle(s, u);
    } else {
      u := WakesUp(s, u);
    }
  }

  lemma StillFull(t: State)
    requires Inv(t) && !t.Wake()
    ensures t.rd != t.wr
  {
    if t.rd == t.wr {
      EmptyWakes(t);
    }
  }

  /** With transmit between packets, a stopped queue is stopped for good
      exactly when the ring is empty and completion is not at work. */
  lemma StoppedForGoodIff(t: State)
    requires t.cnt > 0 && Inv(t) && t.tx.TxIdle? && t.stopped
    ensures (forall acts :: Run(t, acts).stopped) <==> t.cpl.CplIdle? && t.wr == t.rd
  {
    if t.cpl.CplIdle? && t.wr == t.rd {
      forall acts ensures Run(t, acts).stopped {
        StrandedForever(t, acts);
      }
    } else {
      Stay(t);
      var u := Wakes(t, t);
      var acts :| Run(t, acts) == u;
      assert !Run(t, acts).stopped;
    }
  }

  /** The busy branch stops the queue for good exactly when completion has
      already gone idle over an empty ring. */
  lemma BusyStopIsForGoodIff(s: State, a: Action, b: Action)
    requires s.cnt > 0 && Inv(s) && s.tx.BusyStopping? && a.Tx? && b.Tx?
    ensures var t := Step(Step(s, a), b);
      (forall acts :: Run(t, acts).stopped) <==> s.cpl.CplIdle? && s.wr == s.rd
  {
    hide Inv;
    StepKeepsInv(s, a);
    StepKeepsInv(Step(s, a), b);
    StoppedForGoodIff(Step(Step(s, a), b));
  }

  /** The ring's own stop never is. */
  lemma RingStopIsNeverForGood(cnt: u32, acts: seq<Action>)
    requires RingSize(cnt) && cnt > 0
    requires var s := Run(Init(cnt), acts); s.tx.TxIdle? && s.stopped && s.stoppedByRing
    ensures exists more :: !Run(Run(Init(cnt), acts), more).stopped
  {
    hide Inv, SlotsOk, ShouldWake;
    var s := Run(Init(cnt), acts);
    RunKeepsInv(cnt, acts);
    if s.cpl.CplIdle? && s.wr == s.rd {
      NoLostWakeUp(cnt, acts);
      RingSizeBounds(cnt);
      assert false;
    }
    StoppedForGoodIff(s);
  }

  /** Both threads idle, the queue stopped, and nothing in the ring or pending
      on the device. */
  predicate Stranded(s: State) {
    s.Idle() && s.stopped && s.wr == s.rd
  }

  /** Nothing any thread or the device can do ever starts the queue again. */
  lemma {:induction false} StrandedForever(s: State, acts: seq<Action>)
    requires s.cnt > 0 && Inv(s) && Stranded(s)
    ensures Run(s, acts) == s
  {
    hide Inv, Step;
    if acts != [] {
      StrandedForever(s, acts[..|acts| - 1]);
      StrandedStays(s, acts[|acts| - 1]);
    }
  }

  lemma StrandedStays(s: State, a: Action)
    requires s.cnt > 0 && Inv(s) && Stranded(s)
    ensures Step(s, a) == s
  {
    hide RingOk, SavedOk, RingSize, ShouldWake, ShouldStop, TxFull;
  }

  // --- A run in which it is ---------------------------------------------------------

  /** Transmit is about to stop a queue that a late wake-up has started over
      a full ring. */
  lemma Overfull(s: State) returns (t: State)
    requires s == Init(256)
    ensures Reaches(s, t)
    ensures t == s.(wr := 270, devWr := 270, rd := 18, devRd := 18, saved := 18, slots := t.slots,
                    stoppedByRing := true, tx := BusyStopping)
  {
    hide Reaches, TxFull;
    Stay(s);
    t := Send(s, s);
    t := CompleteAll(s, t, 18);       // completion pauses before testing the flag
    t := SendMany(s, t, 13);
    t := Send(s, t);                  // the ring fills up and stops the queue
    Tests(t.wr, t.rd);
    var u := Then(s, t, Completion(0));
    assert u == t.(cpl := Waking);
    t := Then(s, u, Completion(0));   // the late wake-up starts it over a full ring
    assert t == u.(stopped := false, cpl := CplIdle);
    u := Then(s, t, GO);              // so the next packet takes the busy branch
    assert u == t.(tx := BusyStopping);
    t := u;
  }

  /** ... and completion has gone idle over an empty ring just before. */
  lemma TooLate(s: State) returns (t: State)
    requires s == Init(256)
    ensures Reaches(s, t) && t.cnt == 256 && t.tx.BusyStopping? && t.cpl.CplIdle? && t.wr == t.rd
  {
    hide Reaches, ShouldWake;
    t := Overfull(s);
    var u := CompleteAll(s, t, 14);
    t := Then(s, u, Completion(0));   // completion sees a running queue and leaves
    assert t == u.(cpl := CplIdle);
  }

  /** So the busy branch can leave the queue stopped for good. */
  lemma BusyStopCanStrand()
    ensures exists acts :: Stranded(Run(Init(256), acts)) && !Run(Init(256), acts).stoppedByRing
  {
    hide Inv, ShouldWake;
    var s := Init(256);
    var t := TooLate(s);
    t := Stops(s, t);
    var acts :| Run(s, acts) == t;
    assert Stranded(Run(s, acts));
  }

  lemma Stops(s: State, t: State) returns (u: State)
    requires s.cnt == 256 == t.cnt && Reaches(s, t)
    requires t.tx.BusyStopping? && t.cpl.CplIdle? && t.wr == t.rd
    ensures Reaches(s, u) && Stranded(u) && !u.stoppedByRing
  {
    hide Reaches;
    var v := Then(s, t, GO);
    u := Then(s, v, GO);
  }
}
