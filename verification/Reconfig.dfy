/** The reconfiguration code itself: the fields of struct nfp_net, the
    critical sections as methods, and the synchronous caller with the other
    threads running wherever it does not hold the lock. Each method is
    proved to be the protocol step of the same name. */
module Reconfig {
  import opened ReconfigProtocol

  class NetReconfig {
    // struct nfp_net
    var posted: Update
    var timerActive: bool
    var syncPresent: bool
    // the kernel timer: queued, or its callback waiting for the lock
    var timerPending: bool
    var callback: bool
    // the device's update register
    var reg: Update

    /** Sleeps before the present wait's deadline, and before a new one's. */
    ghost var left: nat
    ghost var patience: nat
    ghost var settled: bool
    ghost var clobbers: nat
    ghost var sync: SyncPc
    ghost var log: seq<Event>
    /** Every protocol action so far. */
    ghost var acts: seq<Action>

    ghost function Snapshot(): State
      reads this
    {
      State(posted, timerActive, syncPresent, timerPending, callback, reg, left, patience, settled, clobbers, sync, log)
    }

    /** The object is where the protocol is after those actions, so all that
        is proved of the protocol's runs is true of it. */
    ghost predicate Valid()
      reads this
    {
      Snapshot() == Run(acts)
    }

    /** A critical section that the protocol calls `a` has just ended. */
    ghost method Did(a: Action)
      requires Snapshot() == Step(Run(acts), a)
      modifies this`acts
      ensures Valid() && acts == old(acts) + [a]
    {
      RunStep(acts, a);
      acts := acts + [a];
    }

    lemma Sane()
      requires Valid()
      ensures Inv(Snapshot()) && reg == RegOf(log)
    {
      RunKeepsInv(acts);
      RunKeepsReg(acts);
    }

    constructor ()
      ensures Snapshot() == INIT && Valid() && acts == []
    {
      acts, left, patience := [], 0, 0;
      posted, timerActive, syncPresent := NONE, false, false;
      timerPending, callback, reg := false, false, NONE;
      settled, clobbers, sync, log := true, 0, NoSync, [];
    }

    /** nfp_net_reconfig_start() */
    method Start(update: Update)
      modifies this`reg, this`log, this`clobbers, this`settled
      ensures Snapshot() == ReconfigProtocol.Start(old(Snapshot()), update)
    {
      reg := update;
      log := log + [Written(update)];
      clobbers := if settled then clobbers else clobbers + 1;
      settled := CheckDone(update, false);
    }

    /** nfp_net_reconfig_start_async() */
    method StartAsync(update: Update)
      modifies this`posted, this`timerActive, this`timerPending, this`reg, this`log, this`clobbers, this`settled
      ensures Snapshot() == ReconfigProtocol.StartAsync(old(Snapshot()), update)
    {
      var all := update + posted;
      posted := NONE;
      Start(all);
      timerActive := true;
      timerPending := true;
    }

    /** nfp_net_reconfig_timer() */
    method Timer()
      requires Valid() && callback
      modifies this
      ensures Valid() && acts == old(acts) + [TimerCallback]
    {
      hide Run;
      callback := false;
      timerActive := false;
      if !syncPresent && posted != NONE {
        StartAsync(NONE);
      }
      Did(TimerCallback);
    }

    /** nfp_net_reconfig_post() */
    method PostUpdate(update: Update)
      requires Valid()
      modifies this
      ensures Valid() && acts == old(acts) + [Post(update)]
    {
      hide Run;
      log := log + [Posted(update)];
      if syncPresent {
        posted := posted + update;
      } else if !timerActive || CheckDone(reg, false) {
        StartAsync(update);
      } else {
        posted := posted + update;
      }
      Did(Post(update));
    }

    /** The first critical section of nfp_net_reconfig(). */
    method Enter(update: Update, ghost early: nat, ghost patience: nat)
      returns (cancelledTimer: bool, prePosted: Update)
      requires Valid() && sync == NoSync
      modifies this
      ensures Valid() && acts == old(acts) + [SyncEnter(update, early, patience)]
      ensures cancelledTimer == old(timerActive) && prePosted == old(posted)
    {
      hide Run;
      cancelledTimer := false;
      syncPresent := true;
      if timerActive {
        timerPending := false;
        timerActive := false;
        cancelledTimer := true;
      }
      prePosted := posted;
      posted := NONE;
      left, this.patience := early + 1, patience;
      sync := if cancelledTimer then WaitCancelled(prePosted, update) else PrePending(prePosted, update);
      Did(SyncEnter(update, early, patience));
    }

    /** The last critical section of nfp_net_reconfig(). */
    method Leave()
      requires Valid() && sync.Finishing?
      modifies this
      ensures Valid() && acts == old(acts) + [SyncStep]
    {
      hide Run;
      if posted != NONE {
        StartAsync(NONE);
      }
      syncPresent := false;
      sync := NoSync;
      Did(SyncStep);
    }

    /** Only the others have moved: the history has grown by no sleep and no
        step of the synchronous caller, and with such a caller about, a command
        that was finished still is. */
    twostate predicate OthersMoved()
      reads this
    {
      && Valid() && old(acts) <= acts && old(log) <= log && Sleeps(log) == Sleeps(old(log))
      && sync == old(sync) && left == old(left) && patience == old(patience)
      && (sync != NoSync && CheckDone(old(reg), false) ==> CheckDone(reg, false))
      && forall k :: |old(acts)| <= k < |acts| ==> !acts[k].SyncEnter? && !acts[k].SyncSleeps? && !acts[k].SyncStep?
    }

    /** Whatever posters, the timer and the device do while the synchronous
        caller does not hold the lock. */
    method OtherThreads()
      requires Valid()
      modifies this
      ensures OthersMoved()
    {
      hide Run, Sleeps, RegOf;
      var steps: nat :| true;
      while steps > 0
        invariant OthersMoved()
      {
        OtherStep();
        steps := steps - 1;
      }
    }

    method OtherStep()
      requires Valid()
      modifies this
      ensures OthersMoved()
    {
      hide Run, Sleeps, RegOf, Inv;
      Sane();
      var update: Update := *;
      if
      case true =>
        StepExtends(Snapshot(), Post(update));
        PostUpdate(update);
        RunStep(old(acts), Post(update));
      case callback =>
        StepExtends(Snapshot(), TimerCallback);
        Timer();
        RunStep(old(acts), TimerCallback);
      case timerPending && !callback =>
        timerPending, callback, settled := false, true, true;
        Did(TimerExpires);
      case reg != NONE =>
        DeviceStep();
    }

    /** The device answers what the register shows. */
    method DeviceStep()
      requires Valid() && reg != NONE
      modifies this
      ensures OthersMoved()
    {
      hide Run, Sleeps, RegOf, Inv;
      Sane();
      if * {
        StepExtends(Snapshot(), DeviceAcks);
        reg, settled, log := NONE, true, log + [Acked];
        Did(DeviceAcks);
      } else {
        StepExtends(Snapshot(), DeviceFails);
        reg, settled, log := reg + {UPDATE_ERR}, true, log + [Errored];
        Did(DeviceFails);
      }
    }

    /** One sleep of the waiting loop, with the others running. */
    method Sleep()
      requires Valid() && Waiting(Snapshot()) && !CheckDone(reg, left == 0)
      modifies this
      ensures Valid() && old(acts) <= acts && old(log) <= log && Sleeps(log) == Sleeps(old(log)) + 1
      ensures sync == old(sync) && left == old(left) - 1 && patience == old(patience)
    {
      hide Run, Sleeps, RegOf;
      RegSnoc(log, Slept);
      log, left := log + [Slept], left - 1;
      Did(SyncSleeps);
      OtherThreads();
    }

    /** nfp_net_reconfig_wait(): poll until the device answers or the last of
        `deadline` sleeps has been slept. True is -EIO. */
    method Wait(deadline: nat) returns (failed: bool)
      requires Valid() && Waiting(Snapshot()) && left == deadline > 0
      modifies this
      ensures Valid() && old(acts) <= acts && old(log) <= log && !Waiting(Snapshot())
      ensures Sleeps(log) + left == Sleeps(old(log)) + deadline && patience == old(patience)
      ensures failed <==> UPDATE_ERR in reg || left == 0
      ensures !failed ==> reg == NONE
      ensures old(sync).WaitCancelled? ==> sync == PrePending(old(sync).pre, old(sync).update)
      ensures old(sync).WaitPre? ==> sync == MainPending(old(sync).update)
      ensures old(sync).WaitMain? ==> sync == Finishing(old(sync).update, !failed)
    {
      hide Run, Sleeps, RegOf;
      var remaining, timedOut := deadline, false;
      OtherThreads();
      while !CheckDone(reg, timedOut)
        invariant Valid() && sync == old(sync) && old(acts) <= acts && old(log) <= log && patience == old(patience)
        invariant Sleeps(log) + left == Sleeps(old(log)) + deadline
        invariant remaining == left && (timedOut <==> remaining == 0)
        decreases remaining
      {
        Sleep();
        remaining := remaining - 1;
        timedOut := remaining == 0;
      }
      failed := Conclude(timedOut);
    }

    /** The end of the wait: the register is read once more. */
    method Conclude(timedOut: bool) returns (failed: bool)
      requires Valid() && Waiting(Snapshot()) && CheckDone(reg, timedOut) && (timedOut <==> left == 0)
      modifies this
      ensures Valid() && old(acts) <= acts && old(log) <= log && !Waiting(Snapshot())
      ensures Sleeps(log) == Sleeps(old(log)) && left == old(left) && patience == old(patience)
      ensures failed <==> UPDATE_ERR in reg || left == 0
      ensures !failed ==> reg == NONE
      ensures old(sync).WaitCancelled? ==> sync == PrePending(old(sync).pre, old(sync).update)
      ensures old(sync).WaitPre? ==> sync == MainPending(old(sync).update)
      ensures old(sync).WaitMain? ==> sync == Finishing(old(sync).update, !failed)
    {
      hide Run, Sleeps, RegOf;
      OtherThreads();
      failed := UPDATE_ERR in reg || timedOut;
      ghost var next := SyncNext(Snapshot());
      settled, sync := next.settled, next.sync;
      Did(SyncStep);
    }

    /** nfp_net_reconfig(). From `start` to `answered` the history is that of
        this caller's own command, from just before it is written to the final
        poll. The call fails exactly when the register shows an error there or
        all the sleeps have been slept, and succeeds only when the device has
        cleared this caller's word. */
    method Reconfig(update: Update, early: nat, patience: nat)
      returns (err: bool, ghost start: seq<Event>, ghost answered: seq<Event>)
      requires Valid() && sync == NoSync
      modifies this
      ensures Valid() && sync == NoSync && !syncPresent && old(acts) <= acts
      ensures old(log) <= start && start + [Written(update)] <= answered <= log
      ensures Sleeps(answered) <= Sleeps(start) + patience + 1
      ensures err <==> UPDATE_ERR in RegOf(answered) || Sleeps(answered) == Sleeps(start) + patience + 1
      ensures !err ==> RegOf(answered) == NONE && LastWrite(answered) == (update, true)
    {
      hide Inv, LastWrite, Run, Sleeps, RegOf;
      EnterAndWait(update, early, patience);
      start := log;
      err := RunMain(update, patience);
      answered := log;
      OtherThreads();
      LeaveLocked();
    }

    /** Up to the point where earlier commands have been dealt with. */
    method EnterAndWait(update: Update, early: nat, patience: nat)
      requires Valid() && sync == NoSync
      modifies this
      ensures Valid() && old(acts) <= acts && old(log) <= log
      ensures sync == MainPending(update) && this.patience == patience
    {
      hide Inv, Run, Sleeps, RegOf;
      RunStep(acts, SyncEnter(update, early, patience));
      var cancelledTimer, prePosted := Enter(update, early, patience);
      if cancelledTimer {
        var _ := Wait(early + 1);
      } else {
        OtherThreads();
      }
      RunPrePosted(prePosted, patience);
    }

    /** The caller's own command. */
    method RunMain(update: Update, patience: nat) returns (err: bool)
      requires Valid() && sync == MainPending(update) && this.patience == patience
      modifies this
      ensures Valid() && sync == Finishing(update, !err) && old(acts) <= acts
      ensures old(log) + [Written(update)] <= log
      ensures Sleeps(log) <= Sleeps(old(log)) + patience + 1
      ensures err <==> UPDATE_ERR in RegOf(log) || Sleeps(log) == Sleeps(old(log)) + patience + 1
      ensures !err ==> RegOf(log) == NONE && LastWrite(log) == (update, true)
    {
      hide Inv, LastWrite, Run, Sleeps, RegOf;
      RegSnoc(log, Written(update));
      Start(update);
      left, sync := patience + 1, WaitMain(update);
      Did(SyncStep);
      err := Wait(patience + 1);
      Sane();
      AnswerOf(Snapshot());
    }

    /** Sign off; what was posted meanwhile is started first, as one command
        that the timer looks after. */
    method LeaveLocked()
      requires Valid() && sync.Finishing?
      modifies this
      ensures Valid() && sync == NoSync && !syncPresent && posted == NONE && acts == old(acts) + [SyncStep]
      ensures log == if old(posted) == NONE then old(log) else old(log) + [Written(old(posted))]
      ensures old(posted) != NONE ==> reg == old(posted) && timerActive && timerPending
    {
      hide Inv, Run;
      RunStep(acts, SyncStep);
      assert NONE + posted == posted;
      Leave();
    }

    /** The command for what the caller took over from posters, if anything. */
    method RunPrePosted(prePosted: Update, patience: nat)
      requires Valid() && sync.PrePending? && sync.pre == prePosted && this.patience == patience
      modifies this
      ensures Valid() && old(acts) <= acts && old(log) <= log
      ensures sync == MainPending(old(sync).update) && this.patience == patience
    {
      hide Inv, Run, Sleeps, RegOf;
      if prePosted != NONE {
        Start(prePosted);
        left, sync := patience + 1, WaitPre(sync.update);
        Did(SyncStep);
        var _ := Wait(patience + 1);
      } else {
        sync := MainPending(sync.update);
        Did(SyncStep);
        OtherThreads();
      }
    }
  }

  lemma AnswerOf(s: State)
    requires Inv(s) && s.sync.Finishing?
    ensures s.sync.ok ==> LastWrite(s.log) == (s.sync.update, true)
  {
  }
}
