/** Firmware reconfiguration as a protocol: posters, the timer, one
    synchronous caller and the device, interleaved at the points where the
    lock is released. */
module ReconfigProtocol {

  type Bit = b: nat | b < 32

  /** A 32-bit update word, as the set of its one bits: `|=` is union and a
      zero word is the empty set. */
  type Update = set<Bit>

  const NONE: Update := {}
  const UPDATE_ERR: Bit := 31

  /** History: requests accepted, words written to the update register, the
      device's answers, and the synchronous caller's sleeps. */
  datatype Event = Posted(u: Update) | Written(w: Update) | Acked | Errored | Slept

  /** Where the synchronous caller is between two steps. */
  datatype SyncPc =
    | NoSync
    | WaitCancelled(pre: Update, update: Update)
    | PrePending(pre: Update, update: Update)
    | WaitPre(update: Update)
    | MainPending(update: Update)
    | WaitMain(update: Update)
    | Finishing(update: Update, ok: bool)

  /** `left`: the sleeps the synchronous caller's present wait still has, and
      `patience` what each wait for a command of its own starts with, less one.
      `settled`: the command last written has been answered or its deadline
      has passed. `clobbers` counts writes made while that was not so. */
  datatype State = State(
    posted: Update, timerActive: bool, syncPresent: bool,
    timerPending: bool, callback: bool,
    reg: Update, left: nat, patience: nat, settled: bool, clobbers: nat,
    sync: SyncPc, log: seq<Event>)

  datatype Action =
    | Post(u: Update)
    | TimerExpires
    | TimerCallback
    | SyncEnter(update: Update, early: nat, patience: nat)
    | SyncSleeps
    | SyncStep
    | DeviceAcks
    | DeviceFails

  /** nfp_net_reconfig_check_done() */
  predicate CheckDone(reg: Update, lastCheck: bool) {
    reg == NONE || UPDATE_ERR in reg || lastCheck
  }

  /** nfp_net_reconfig_start() */
  function Start(s: State, update: Update): State {
    s.(reg := update, log := s.log + [Written(update)], settled := CheckDone(update, false),
       clobbers := if s.settled then s.clobbers else s.clobbers + 1)
  }

  /** nfp_net_reconfig_start_async() */
  function StartAsync(s: State, update: Update): State {
    Start(s.(posted := NONE), update + s.posted).(timerActive := true, timerPending := true)
  }

  function Step(s: State, a: Action): State {
    match a
    case Post(u) =>
      var t := s.(log := s.log + [Posted(u)]);
      if s.syncPresent then t.(posted := s.posted + u)
      else if !s.timerActive || CheckDone(s.reg, false) then StartAsync(t, u)
      else t.(posted := s.posted + u)
    case TimerExpires =>
      // one callback of a timer runs at a time
      if s.timerPending && !s.callback then s.(timerPending := false, callback := true, settled := true) else s
    case TimerCallback =>
      if !s.callback then s
      else
        var t := s.(callback := false, timerActive := false);
        if !s.syncPresent && s.posted != NONE then StartAsync(t, NONE) else t
    case SyncEnter(update, early, patience) =>
      if s.sync != NoSync then s
      else
        var t := s.(syncPresent := true, posted := NONE, left := early + 1, patience := patience);
        if s.timerActive then
          t.(timerActive := false, timerPending := false, sync := WaitCancelled(s.posted, update))
        else
          t.(sync := PrePending(s.posted, update))
    case SyncSleeps =>
      if Waiting(s) && !CheckDone(s.reg, s.left == 0) then s.(left := s.left - 1, log := s.log + [Slept]) else s
    case SyncStep =>
      SyncNext(s)
    case DeviceAcks =>
      if s.reg == NONE then s else s.(reg := NONE, settled := true, log := s.log + [Acked])
    case DeviceFails =>
      if s.reg == NONE then s else s.(reg := s.reg + {UPDATE_ERR}, settled := true, log := s.log + [Errored])
  }

  function SyncNext(s: State): State {
    var timedOut := s.left == 0;
    var done := CheckDone(s.reg, timedOut);
    var t := s.(settled := s.settled || timedOut);
    var again := s.(left := s.patience + 1);
    match s.sync
    case NoSync => s
    case WaitCancelled(pre, update) => if done then t.(sync := PrePending(pre, update)) else s
    case PrePending(pre, update) =>
      if pre != NONE then Start(again, pre).(sync := WaitPre(update)) else s.(sync := MainPending(update))
    case WaitPre(update) => if done then t.(sync := MainPending(update)) else s
    case MainPending(update) => Start(again, update).(sync := WaitMain(update))
    case WaitMain(update) =>
      if done then t.(sync := Finishing(update, UPDATE_ERR !in s.reg && !timedOut)) else s
    case Finishing(update, ok) =>
      (if s.posted != NONE then StartAsync(s, NONE) else s).(syncPresent := false, sync := NoSync)
  }

  const INIT := State(NONE, false, false, false, false, NONE, 0, 0, true, 0, NoSync, [])

  function Run(acts: seq<Action>): State {
    if acts == [] then INIT else Step(Run(acts[..|acts| - 1]), acts[|acts| - 1])
  }

  // --- Reading the history ---------------------------------------------------------

  /** Bits posted and not written to the device since. */
  function Owed(log: seq<Event>): Update {
    if log == [] then NONE else
    var before := Owed(log[..|log| - 1]);
    match log[|log| - 1]
    case Posted(u) => before + u
    case Written(w) => before - w
    case _ => before
  }

  function EverPosted(log: seq<Event>): Update {
    if log == [] then NONE else
    var before := EverPosted(log[..|log| - 1]);
    match log[|log| - 1]
    case Posted(u) => before + u
    case _ => before
  }

  /** The last word written, and whether the device has cleared it since. */
  function LastWrite(log: seq<Event>): (r: (Update, bool)) {
    if log == [] then (NONE, true) else
    match log[|log| - 1]
    case Written(w) => (w, w == NONE)
    case Acked => (LastWrite(log[..|log| - 1]).0, true)
    case _ => LastWrite(log[..|log| - 1])
  }

  /** What the update register holds, by the writes and answers so far. */
  function RegOf(log: seq<Event>): Update {
    if log == [] then NONE else
    var before := RegOf(log[..|log| - 1]);
    match log[|log| - 1]
    case Written(w) => w
    case Acked => NONE
    case Errored => before + {UPDATE_ERR}
    case _ => before
  }

  /** How often the synchronous caller has slept. */
  function Sleeps(log: seq<Event>): nat {
    if log == [] then 0 else Sleeps(log[..|log| - 1]) + (if log[|log| - 1].Slept? then 1 else 0)
  }

  lemma RegSnoc(log: seq<Event>, e: Event)
    ensures RegOf(log + [e]) ==
      match e case Written(w) => w case Acked => NONE case Errored => RegOf(log) + {UPDATE_ERR} case _ => RegOf(log)
    ensures Sleeps(log + [e]) == Sleeps(log) + (if e.Slept? then 1 else 0)
  {
    assert (log + [e])[..|log|] == log;
  }

  lemma Snoc(log: seq<Event>, e: Event)
    ensures e.Posted? ==> Owed(log + [e]) == Owed(log) + e.u && EverPosted(log + [e]) == EverPosted(log) + e.u
    ensures e.Written? ==> Owed(log + [e]) == Owed(log) - e.w && LastWrite(log + [e]) == (e.w, e.w == NONE)
    ensures !e.Posted? ==> EverPosted(log + [e]) == EverPosted(log)
    ensures !e.Posted? && !e.Written? ==> Owed(log + [e]) == Owed(log)
    ensures e.Acked? ==> LastWrite(log + [e]) == (LastWrite(log).0, true)
    ensures !e.Acked? && !e.Written? ==> LastWrite(log + [e]) == LastWrite(log)
  {
    assert (log + [e])[..|log|] == log;
  }

  /** Post number i asked for `bit` and nothing written later contains it. */
  ghost predicate Outstanding(log: seq<Event>, bit: Bit, i: nat) {
    && i < |log| && log[i].Posted? && bit in log[i].u
    && forall j :: i < j < |log| && log[j].Written? ==> bit !in log[j].w
  }

  /** A bit is owed exactly when some post of it has no later write of it. */
  lemma {:induction false} OwedMeans(log: seq<Event>, bit: Bit)
    ensures bit in Owed(log) <==> exists i :: Outstanding(log, bit, i)
  {
    if log == [] {
      assert forall i :: !Outstanding(log, bit, i);
    } else {
      var init, e := log[..|log| - 1], log[|log| - 1];
      OwedMeans(init, bit);
      forall i | Outstanding(init, bit, i) && !(e.Written? && bit in e.w)
        ensures Outstanding(log, bit, i)
      {
      }
      forall i: nat | Outstanding(log, bit, i) && i < |log| - 1
        ensures Outstanding(init, bit, i) && !(e.Written? && bit in e.w)
      {
      }
      assert e.Posted? && bit in e.u ==> Outstanding(log, bit, |log| - 1);
    }
  }

  // --- What every reachable state satisfies --------------------------------------

  /** Requests the synchronous caller has taken over and not yet written. */
  function TakenOver(s: State): Update {
    match s.sync
    case WaitCancelled(pre, _) => pre
    case PrePending(pre, _) => pre
    case _ => NONE
  }

  predicate Waiting(s: State) {
    s.sync.WaitCancelled? || s.sync.WaitPre? || s.sync.WaitMain?
  }

  predicate Inv(s: State) {
    && Owed(s.log) <= s.posted + TakenOver(s)
    && s.posted + TakenOver(s) <= EverPosted(s.log)
    && (s.posted != NONE ==> s.syncPresent || s.timerActive)
    && (s.timerActive ==> s.timerPending || s.callback)
    && (s.syncPresent <==> s.sync != NoSync)
    && (s.syncPresent ==> !s.timerActive)
    && (CheckDone(s.reg, false) ==> s.settled)
    && (s.sync.WaitMain? ==> LastWrite(s.log).0 == s.sync.update)
    && (s.sync.WaitMain? && s.reg == NONE ==> LastWrite(s.log).1)
    && (s.sync.Finishing? && s.sync.ok ==> LastWrite(s.log) == (s.sync.update, true))
  }

  lemma StepKeepsInv(s: State, a: Action)
    requires Inv(s)
    ensures Inv(Step(s, a))
  {
    hide Owed, EverPosted, LastWrite;
    match a
    case SyncSleeps => Snoc(s.log, Slept);
    case Post(u) =>
      Snoc(s.log, Posted(u));
      Snoc(s.log + [Posted(u)], Written(u + s.posted));
    case TimerExpires =>
    case TimerCallback => Snoc(s.log, Written(NONE + s.posted));
    case SyncEnter(_, _, _) =>
    case SyncStep => SyncKeepsInv(s);
    case DeviceAcks => Snoc(s.log, Acked);
    case DeviceFails => Snoc(s.log, Errored);
  }

  lemma SyncKeepsInv(s: State)
    requires Inv(s)
    ensures Inv(SyncNext(s))
  {
    hide Owed, EverPosted, LastWrite;
    match s.sync
    case PrePending(pre, update) => Snoc(s.log, Written(pre));
    case MainPending(update) => Snoc(s.log, Written(update));
    case Finishing(update, ok) => Snoc(s.log, Written(NONE + s.posted));
    case _ =>
  }

  lemma RunStep(acts: seq<Action>, a: Action)
    ensures Run(acts + [a]) == Step(Run(acts), a)
  {
    assert (acts + [a])[..|acts|] == acts;
  }

  /** From s to s' the history only grows, by `slept` sleeps among others,
      and the register stays what the history says. */
  ghost predicate Extends(s: State, s': State, slept: nat) {
    && s.log <= s'.log && s'.reg == RegOf(s'.log) && Sleeps(s'.log) == Sleeps(s.log) + slept
    && (slept == 0 ==> forall i :: |s.log| <= i < |s'.log| ==> !s'.log[i].Slept?)
  }

  lemma StartExtends(s: State, u: Update)
    requires s.reg == RegOf(s.log)
    ensures Extends(s, Start(s, u), 0)
  {
    hide RegOf, Sleeps;
    RegSnoc(s.log, Written(u));
  }

  lemma StartAsyncExtends(s: State, u: Update)
    requires s.reg == RegOf(s.log)
    ensures Extends(s, StartAsync(s, u), 0)
  {
    hide RegOf, Sleeps;
    StartExtends(s.(posted := NONE), u + s.posted);
  }

  lemma StepExtends(s: State, a: Action)
    requires s.reg == RegOf(s.log)
    ensures Extends(s, Step(s, a), if a.SyncSleeps? && Waiting(s) && !CheckDone(s.reg, s.left == 0) then 1 else 0)
  {
    hide RegOf, Sleeps, Start, StartAsync, Waiting, CheckDone;
    match a
    case Post(u) =>
      RegSnoc(s.log, Posted(u));
      StartAsyncExtends(s.(log := s.log + [Posted(u)]), u);
    case TimerExpires =>
    case TimerCallback => StartAsyncExtends(s.(callback := false, timerActive := false), NONE);
    case SyncEnter(_, _, _) =>
    case SyncSleeps => RegSnoc(s.log, Slept);
    case SyncStep => SyncExtends(s);
    case DeviceAcks => RegSnoc(s.log, Acked);
    case DeviceFails => RegSnoc(s.log, Errored);
  }

  lemma SyncExtends(s: State)
    requires s.reg == RegOf(s.log)
    ensures Extends(s, SyncNext(s), 0)
  {
    hide RegOf, Sleeps, Start, StartAsync, CheckDone;
    match s.sync
    case PrePending(pre, update) => StartExtends(s.(left := s.patience + 1), pre);
    case MainPending(update) => StartExtends(s.(left := s.patience + 1), update);
    case Finishing(update, ok) => StartAsyncExtends(s, NONE);
    case _ =>
  }

  lemma {:induction false} RunKeepsReg(acts: seq<Action>)
    ensures Run(acts).reg == RegOf(Run(acts).log)
  {
    if acts != [] {
      RunKeepsReg(acts[..|acts| - 1]);
      StepExtends(Run(acts[..|acts| - 1]), acts[|acts| - 1]);
    }
  }

  lemma {:induction false} RunKeepsInv(acts: seq<Action>)
    ensures Inv(Run(acts))
  {
    if acts != [] {
      RunKeepsInv(acts[..|acts| - 1]);
      StepKeepsInv(Run(acts[..|acts| - 1]), acts[|acts| - 1]);
    }
  }

  // --- The protocol's guarantees ---------------------------------------------------

  /** No request is lost: a posted bit not yet written to the device is still
      in reconfig_posted or in the synchronous caller's hands; whatever is in
      reconfig_posted has an owner; and an owner that is the timer will run. */
  lemma NoRequestLost(acts: seq<Action>, bit: Bit, i: nat)
    requires Outstanding(Run(acts).log, bit, i)
    ensures var s := Run(acts);
      && (bit in s.posted || bit in TakenOver(s))
      && (bit in s.posted ==> s.syncPresent || s.timerActive)
      && (bit in TakenOver(s) ==> s.syncPresent)
      && (s.timerActive ==> s.timerPending || s.callback)
  {
    RunKeepsInv(acts);
    OwedMeans(Run(acts).log, bit);
  }

  /** Nothing is invented: only posted bits are ever kept for later. */
  lemma NothingInvented(acts: seq<Action>)
    ensures Run(acts).posted + TakenOver(Run(acts)) <= EverPosted(Run(acts).log)
  {
    RunKeepsInv(acts);
  }

  /** A synchronous caller is told of success only when the device has cleared
      its own word, with no other word written in between. */
  lemma SuccessIsAnswered(acts: seq<Action>)
    ensures var s := Run(acts);
      s.sync.Finishing? && s.sync.ok ==> LastWrite(s.log) == (s.sync.update, true)
  {
    RunKeepsInv(acts);
  }

  /** The synchronous caller never sleeps over an answer: whenever it went to
      sleep, the register still showed a command in progress. */
  lemma {:induction false} SleepsOnlyWhileBusy(acts: seq<Action>, i: nat)
    requires i < |Run(acts).log| && Run(acts).log[i].Slept?
    ensures RegOf(Run(acts).log[..i]) != NONE && UPDATE_ERR !in RegOf(Run(acts).log[..i])
  {
    hide RegOf, Sleeps, Start, StartAsync, SyncNext;
    if acts != [] {
      RunKeepsReg(acts[..|acts| - 1]);
      var s, a := Run(acts[..|acts| - 1]), acts[|acts| - 1];
      StepExtends(s, a);
      if i < |s.log| {
        assert Step(s, a).log[..i] == s.log[..i];
        SleepsOnlyWhileBusy(acts[..|acts| - 1], i);
      } else {
        assert Step(s, a).log == s.log + [Slept] && Step(s, a).log[..i] == s.log;
      }
    }
  }

  /** A post is written to the device at once, together with all that was
      waiting, exactly when no synchronous caller is present and no command is
      in progress as far as the driver can tell; otherwise it waits. */
  lemma PostStartsIff(s: State, u: Update)
    ensures var s', idle := Step(s, Post(u)), s.reg == NONE || UPDATE_ERR in s.reg;
      if !s.syncPresent && (idle || !s.timerActive) then
        s'.reg == s.posted + u && s'.posted == NONE && s'.log == s.log + [Posted(u), Written(s.posted + u)]
      else
        s'.reg == s.reg && s'.posted == s.posted + u && s'.log == s.log + [Posted(u)]
  {
    assert u + s.posted == s.posted + u;
  }

  // --- One command at a time -------------------------------------------------------

  /** A timer callback runs, with no synchronous caller about, while the
      command last written is neither answered nor out of time. */
  predicate Harmful(s: State, a: Action) {
    a.TimerCallback? && s.callback && !s.syncPresent && !s.settled
  }

  ghost predicate NoHarm(acts: seq<Action>) {
    forall i :: 0 <= i < |acts| ==> !Harmful(Run(acts[..i]), acts[i])
  }

  /** A command still in progress is being watched by somebody, and none has
      been overwritten. */
  predicate Watched(s: State) {
    (!s.settled ==> Waiting(s) || s.timerActive) && s.clobbers == 0
  }

  lemma StepKeepsWatched(s: State, a: Action)
    requires Inv(s) && Watched(s) && !Harmful(s, a)
    ensures Watched(Step(s, a))
  {
    hide Owed, EverPosted, LastWrite;
  }

  /** As long as no callback is harmful, the machinery is only ever kicked off
      when idle: no command is overwritten before it has been answered or has
      run out of time. */
  lemma {:induction false} OneCommandAtATime(acts: seq<Action>)
    requires NoHarm(acts)
    ensures Watched(Run(acts)) && Run(acts).clobbers == 0
  {
    if acts != [] {
      var init := acts[..|acts| - 1];
      forall i | 0 <= i < |init| ensures !Harmful(Run(init[..i]), init[i]) {
        assert init[..i] == acts[..i];
      }
      OneCommandAtATime(init);
      RunKeepsInv(init);
      StepKeepsWatched(Run(init), acts[|acts| - 1]);
    }
  }

  /** And a harmful one does harm: wherever a callback is due and no synchronous
      caller is present, the callback and one more post overwrite a command in
      progress if and only if the callback is harmful. */
  lemma CallbackBreaksIff(s: State, u: Update)
    requires Inv(s) && s.callback && !s.syncPresent
    ensures Step(Step(s, TimerCallback), Post(u)).clobbers > s.clobbers <==> Harmful(s, TimerCallback)
  {
    hide Owed, EverPosted, LastWrite;
  }

  lemma Then(acts: seq<Action>, s: State, a: Action) returns (acts': seq<Action>, s': State)
    requires Run(acts) == s
    ensures s' == Step(s, a) && Run(acts') == s'
  {
    acts', s' := acts + [a], Step(s, a);
    assert acts'[..|acts|] == acts;
  }

  /** The timer expires; before its callback takes the lock, a synchronous
      caller cancels the timer, waits, and writes its own command. */
  lemma SyncOvertakesCallback() returns (acts: seq<Action>, s: State)
    ensures Run(acts) == s
    ensures s.sync == WaitMain({2}) && s.callback && s.reg == {2} && s.posted == NONE && s.syncPresent && s.left == 1
  {
    acts, s := [], INIT;
    assert Run(acts) == s;
    hide Run;
    acts, s := Then(acts, s, Post({1}));
    acts, s := Then(acts, s, TimerExpires);
    assert s.timerActive && s.callback && s.reg == {1} && s.posted == NONE && s.sync == NoSync;
    acts, s := Then(acts, s, SyncEnter({2}, 0, 0));
    assert s.sync == WaitCancelled(NONE, {2}) && s.callback && s.reg == {1} && s.posted == NONE && s.syncPresent;
    acts, s := SyncWritesItsOwn(acts, s);
  }

  lemma SyncWritesItsOwn(before: seq<Action>, s0: State) returns (acts: seq<Action>, s: State)
    requires Run(before) == s0 && s0.sync == WaitCancelled(NONE, {2})
    requires s0.callback && s0.reg == {1} && s0.posted == NONE && s0.syncPresent && s0.patience == 0
    ensures Run(acts) == s
    ensures s.sync == WaitMain({2}) && s.callback && s.reg == {2} && s.posted == NONE && s.syncPresent && s.left == 1
  {
    hide Run;
    acts, s := Then(before, s0, DeviceAcks);
    acts, s := Then(acts, s, SyncStep);
    assert s.sync == PrePending(NONE, {2}) && s.callback && s.posted == NONE && s.syncPresent && s.patience == 0;
    acts, s := Then(acts, s, SyncStep);
    acts, s := Then(acts, s, SyncStep);
  }

  /** ... and on leaving starts what was posted meanwhile. */
  lemma SyncLeavesCallback() returns (acts: seq<Action>, s: State)
    ensures Run(acts) == s
    ensures s.reg == {3} && s.callback && s.timerPending && s.timerActive && !s.settled && !s.syncPresent
    ensures s.posted == NONE
  {
    hide Run;
    acts, s := SyncOvertakesCallback();
    acts, s := Then(acts, s, Post({3}));
    assert s.sync == WaitMain({2}) && s.callback && s.reg == {2} && s.posted == {3} && s.syncPresent && s.left == 1;
    acts, s := Then(acts, s, DeviceAcks);
    acts, s := Then(acts, s, SyncStep);
    assert s.sync == Finishing({2}, true) && s.callback && s.posted == {3};
    acts, s := Then(acts, s, SyncStep);
  }

  /** Such a callback can happen, because the synchronous caller deletes the
      timer without waiting for a callback that has already begun: here the
      word {3} is overwritten by {4} while the device is still working on it. */
  lemma StaleCallbackHappens()
    ensures exists acts :: Run(acts).clobbers > 0 && Run(acts).reg == {4}
  {
    hide Run;
    var acts, s := SyncLeavesCallback();
    acts, s := Then(acts, s, Post({4}));
    assert s.posted == {4} && s.callback && !s.settled && !s.syncPresent;
    acts, s := Then(acts, s, TimerCallback);
    assert s.reg == {4} && s.clobbers > 0;
  }
}
