/** Concurrent users of the BAR allocator. Each bar_find() and each release
    runs under the allocator's lock, but an acquisition drops the lock between
    its searches and programs the BAR registers outside it. */
module BarInterleaving {
  import opened Words
  import opened BarAllocator

  /** Where one area is; an area not in the map holds nothing. */
  datatype Pc =
    | Trying(r: Request, kind: Kind, canAlloc: bool)   // about to call bar_find()
    | Programming(r: Request, run: Run, done: nat)     // run locked, `done` registers written
    | Held(r: Request, run: Run)
  {
    predicate HasRun() { !Trying? }

    function Written(): nat
      requires HasRun()
    {
      if Held? then run.bars else done
    }
  }

  datatype State = State(
    expa: seq<Bar>, bulk: seq<Bar>, expaHw: seq<u32>, bulkHw: seq<u32>,
    expaBoot: seq<nat>, bulkBoot: seq<nat>, pcs: map<nat, Pc>)
  {
    function Bars(kind: Kind): seq<Bar> { if kind.Expa? then expa else bulk }
    function Hw(kind: Kind): seq<u32> { if kind.Expa? then expaHw else bulkHw }
    function Boot(kind: Kind): seq<nat> { if kind.Expa? then expaBoot else bulkBoot }

    function WithBars(kind: Kind, bar: seq<Bar>): State {
      if kind.Expa? then this.(expa := bar) else this.(bulk := bar)
    }

    function WithHw(kind: Kind, hw: seq<u32>): State {
      if kind.Expa? then this.(expaHw := hw) else this.(bulkHw := hw)
    }

    function At(a: nat, pc: Pc): State { this.(pcs := pcs[a := pc]) }
    function Gone(a: nat): State { this.(pcs := pcs - {a}) }

    /** The runs held, by area. */
    function Runs(): map<nat, Run> { map a | a in pcs && pcs[a].HasRun() :: pcs[a].run }
  }

  function LockAll(bar: seq<Bar>, run: Run): seq<Bar> {
    seq(|bar|, i requires 0 <= i < |bar| => if Covers(run, run.kind, i) then Locked(bar[i], CsrAt(run, i)) else bar[i])
  }

  function UnlockAll(bar: seq<Bar>, run: Run): seq<Bar> {
    seq(|bar|, i requires 0 <= i < |bar| =>
      if Covers(run, run.kind, i) && bar[i].usage > 0 then Unlocked(bar[i]) else bar[i])
  }

  /** What an acquisition does after a search that found nothing. */
  function Next(s: State, a: nat, pc: Pc): State
    requires pc.Trying?
  {
    if pc.kind.Expa? then s.At(a, pc.(kind := Bulk))
    else if !pc.canAlloc then s.At(a, pc.(kind := Expa, canAlloc := true))
    else s.Gone(a)
  }

  /** One step of area a; r is what it asks for if it starts now. */
  function Step(s: State, a: nat, r: Request): State {
    if a !in s.pcs then (if r.size > 0 then s.At(a, Trying(r, Expa, false)) else s)
    else
      var pc := s.pcs[a];
      match pc
      case Trying(r', kind, canAlloc) =>
        var t := TryKind(r', kind, s.Bars(kind), canAlloc);
        if t.None? then Next(s, a, pc)
        else s.WithBars(kind, LockAll(s.Bars(kind), t.value)).At(a, Programming(r', t.value, 0))
      case Programming(r', run, done) =>
        if done >= run.bars then s.At(a, Held(r', run))
        else if run.id + done < |s.Bars(run.kind)| && run.id + done < |s.Hw(run.kind)| then
          s.WithHw(run.kind, s.Hw(run.kind)[run.id + done := s.Bars(run.kind)[run.id + done].csr])
           .At(a, Programming(r', run, done + 1))
        else s
      case Held(_, run) =>
        s.WithBars(run.kind, UnlockAll(s.Bars(run.kind), run)).Gone(a)
  }

  datatype Action = Action(a: nat, r: Request)

  function After(s: State, acts: seq<Action>): State {
    if acts == [] then s
    else Step(After(s, acts[..|acts| - 1]), acts[|acts| - 1].a, acts[|acts| - 1].r)
  }

  // --- What every reachable state satisfies --------------------------------------

  function Csrs(bar: seq<Bar>): (c: seq<u32>)
    ensures |c| == |bar| && forall i :: 0 <= i < |bar| ==> c[i] == bar[i].csr
  {
    seq(|bar|, i requires 0 <= i < |bar| => bar[i].csr)
  }

  /** The accounts of one class, leaving the registers aside. */
  ghost predicate InMemory(s: State, kind: Kind) {
    Accounted(s.Bars(kind), Csrs(s.Bars(kind)), kind, s.Runs(), s.Boot(kind))
  }

  /** The registers an area has written hold what it needs. */
  ghost predicate WrittenOk(s: State, a: nat)
    requires a in s.pcs && s.pcs[a].HasRun()
  {
    var run := s.pcs[a].run;
    && run.id + run.bars <= BarCount(run.kind)
    && forall i :: run.id <= i < run.id + s.pcs[a].Written() && i < |s.Hw(run.kind)| ==>
         s.Hw(run.kind)[i] == CsrAt(run, i)
  }

  ghost predicate Inv(s: State) {
    && |s.expaHw| == EXPA_BARS && |s.bulkHw| == BULK_BARS
    && InMemory(s, Expa) && InMemory(s, Bulk)
    && (forall a :: a in s.pcs && s.pcs[a].HasRun() ==> WrittenOk(s, a))
    && (forall a :: a in s.pcs && s.pcs[a].Programming? ==> s.pcs[a].done <= s.pcs[a].run.bars)
  }

  lemma RunsOf(s: State, a: nat)
    requires a in s.pcs && s.pcs[a].HasRun()
    ensures a in s.Runs() && s.Runs()[a] == s.pcs[a].run
  {
  }

  lemma Refresh(bar: seq<Bar>, hw: seq<u32>, kind: Kind, runs: map<nat, Run>, boot: seq<nat>)
    requires Accounted(bar, hw, kind, runs, boot)
    ensures Accounted(bar, Csrs(bar), kind, runs, boot)
  {
    forall a, i | a in runs && 0 <= i < |bar| && Covers(runs[a], kind, i)
      ensures HolderOk(bar[i], Csrs(bar)[i], runs[a], i)
    {
      assert HolderOk(bar[i], hw[i], runs[a], i);
    }
  }

  /** Starting, or going on to the next search, touches nothing shared. */
  lemma SearchKeepsInv(s: State, t: State)
    requires Inv(s) && t == s.(pcs := t.pcs)
    requires forall a :: a in t.pcs && t.pcs[a].HasRun() <==> a in s.pcs && s.pcs[a].HasRun()
    requires forall a :: a in t.pcs && t.pcs[a].HasRun() ==> t.pcs[a] == s.pcs[a]
    ensures Inv(t)
  {
    hide Accounted;
    assert t.Runs() == s.Runs();
    forall a | a in t.pcs && t.pcs[a].HasRun() ensures WrittenOk(t, a) {
      assert WrittenOk(s, a);
    }
  }

  lemma Other(kind: Kind) returns (k: Kind)
    ensures k != kind
  {
    k := if kind.Expa? then Bulk else Expa;
  }

  /** A successful search: the run is locked before the lock is dropped. */
  lemma LockKeepsInv(s: State, a: nat, r: Request, kind: Kind, canAlloc: bool, t: State)
    requires Inv(s) && a in s.pcs && s.pcs[a] == Trying(r, kind, canAlloc)
    requires TryKind(r, kind, s.Bars(kind), canAlloc).Some? && t == Step(s, a, r)
    ensures Inv(t)
  {
    hide Accounted, MatchAt, FreeAt, TryKind, WrittenOk;
    var run := TryKind(r, kind, s.Bars(kind), canAlloc).value;
    TryKindMeans(r, kind, s.Bars(kind), canAlloc);
    RunFits(s.Bars(kind), run);
    AcquireKeepsAccounts(s.Bars(kind), t.Bars(kind), Csrs(s.Bars(kind)), Csrs(t.Bars(kind)), run,
                         s.Runs(), s.Boot(kind), a);
    var other := Other(kind);
    OtherKindKeepsAccounts(s.Bars(other), Csrs(s.Bars(other)), other, s.Runs(), s.Boot(other), a, run);
    assert t.Runs() == s.Runs()[a := run];
    Sizes(s, kind);
    forall b | b in t.pcs && t.pcs[b].HasRun() ensures WrittenOk(t, b) {
      if b == a {
        NothingWritten(t, a);
      } else {
        SameRegisters(s, t, b);
      }
    }
  }

  lemma Sizes(s: State, kind: Kind)
    requires Inv(s)
    ensures |s.Bars(kind)| == |s.Hw(kind)| == BarCount(kind)
  {
  }

  lemma RunFits(bar: seq<Bar>, run: Run)
    requires MatchAt(bar, run.id, run.bars, run.csr) || FreeAt(bar, run.id, run.bars)
    ensures run.id + run.bars <= |bar|
  {
  }

  lemma NothingWritten(s: State, a: nat)
    requires a in s.pcs && s.pcs[a].HasRun() && s.pcs[a].Written() == 0
    requires s.pcs[a].run.id + s.pcs[a].run.bars <= BarCount(s.pcs[a].run.kind)
    ensures WrittenOk(s, a)
  {
  }

  lemma SameRegisters(s: State, t: State, b: nat)
    requires b in s.pcs && s.pcs[b].HasRun() && WrittenOk(s, b)
    requires b in t.pcs && t.pcs[b].HasRun() && t.pcs[b].run == s.pcs[b].run && t.pcs[b].Written() == s.pcs[b].Written()
    requires t.expaHw == s.expaHw && t.bulkHw == s.bulkHw
    ensures WrittenOk(t, b)
  {
  }

  /** Writing one register, outside the lock: whoever else holds the window
      needs the very same value there. */
  lemma ProgramKeepsInv(s: State, a: nat, r: Request, t: State)
    requires Inv(s) && a in s.pcs && s.pcs[a].Programming? && t == Step(s, a, r)
    ensures Inv(t)
  {
    hide Accounted, WrittenOk;
    Sizes(s, s.pcs[a].run.kind);
    assert t.Runs() == s.Runs();
    forall b | b in t.pcs && t.pcs[b].HasRun() ensures WrittenOk(t, b) {
      ProgramKeepsWritten(s, a, r, t, b);
    }
  }

  lemma ProgramKeepsWritten(s: State, a: nat, r: Request, t: State, b: nat)
    requires Inv(s) && a in s.pcs && s.pcs[a].Programming? && t == Step(s, a, r)
    requires b in t.pcs && t.pcs[b].HasRun()
    ensures WrittenOk(t, b)
  {
    hide Accounted;
    var pc := s.pcs[a];
    Sizes(s, pc.run.kind);
    assert WrittenOk(s, a) && WrittenOk(s, b);
    if pc.done < pc.run.bars {
      RunsOf(s, b);
      OneRegister(s, t, pc.run.kind, pc.run.id + pc.done, b);
      if b == a {
        HolderAgrees(s, pc.run.kind, pc.run.id + pc.done, a);
      }
    }
  }

  lemma HolderAgrees(s: State, kind: Kind, i: nat, b: nat)
    requires Inv(s) && i < BarCount(kind) && b in s.Runs() && Covers(s.Runs()[b], kind, i)
    ensures i < |s.Bars(kind)| && s.Bars(kind)[i].csr == CsrAt(s.Runs()[b], i)
  {
    assert HolderOk(s.Bars(kind)[i], Csrs(s.Bars(kind))[i], s.Runs()[b], i);
  }

  lemma OneRegister(s: State, t: State, kind: Kind, i: nat, b: nat)
    requires Inv(s) && i < BarCount(kind) && b in s.Runs() && b in s.pcs && s.pcs[b].HasRun()
    requires i < |s.Hw(kind)| && i < |s.Bars(kind)| && t.Hw(kind) == s.Hw(kind)[i := s.Bars(kind)[i].csr]
    requires forall k :: k != kind ==> t.Hw(k) == s.Hw(k)
    ensures var run := s.pcs[b].run;
      forall j :: run.id <= j < run.id + s.pcs[b].Written() && j < run.id + run.bars && j < |t.Hw(run.kind)| ==>
        t.Hw(run.kind)[j] == CsrAt(run, j)
  {
    hide Accounted;
    var run := s.pcs[b].run;
    assert WrittenOk(s, b);
    RunsOf(s, b);
    if Covers(run, kind, i) {
      HolderAgrees(s, kind, i, b);
    }
  }

  lemma ReleaseKeepsInv(s: State, a: nat, r: Request, t: State)
    requires Inv(s) && a in s.pcs && s.pcs[a].Held? && t == Step(s, a, r)
    ensures Inv(t)
  {
    hide Accounted, WrittenOk;
    var run := s.pcs[a].run;
    var kind := run.kind;
    RunsOf(s, a);
    Sizes(s, kind);
    HeldIsUsed(s.Bars(kind), Csrs(s.Bars(kind)), kind, s.Runs(), s.Boot(kind), a);
    ReleaseKeepsAccounts(s.Bars(kind), t.Bars(kind), Csrs(s.Bars(kind)), s.Runs(), s.Boot(kind), a);
    var other := Other(kind);
    OtherKindKeepsAccounts(s.Bars(other), Csrs(s.Bars(other)), other, s.Runs(), s.Boot(other), a, run);
    assert t.Runs() == s.Runs() - {a};
    Refresh(t.Bars(kind), Csrs(s.Bars(kind)), kind, t.Runs(), s.Boot(kind));
    forall b | b in t.pcs && t.pcs[b].HasRun() ensures WrittenOk(t, b) {
      SameRegisters(s, t, b);
    }
  }

  lemma StepKeepsInv(s: State, a: nat, r: Request)
    requires Inv(s)
    ensures Inv(Step(s, a, r))
  {
    hide Inv, TryKind;
    var t := Step(s, a, r);
    if a !in s.pcs {
      SearchKeepsInv(s, t);
    } else {
      var pc := s.pcs[a];
      match pc
      case Trying(r', kind, canAlloc) =>
        if TryKind(r', kind, s.Bars(kind), canAlloc).Some? {
          LockKeepsInv(s, a, r', kind, canAlloc, t);
        } else {
          SearchKeepsInv(s, t);
        }
      case Programming(_, _, _) => ProgramKeepsInv(s, a, r, t);
      case Held(_, _) => ReleaseKeepsInv(s, a, r, t);
    }
  }

  /** Every interleaving of any number of areas keeps the accounts. */
  lemma {:induction false} RunKeepsInv(s: State, acts: seq<Action>)
    requires Inv(s)
    ensures Inv(After(s, acts))
  {
    if acts != [] {
      var init, last := acts[..|acts| - 1], acts[|acts| - 1];
      RunKeepsInv(s, init);
      StepKeepsInv(After(s, init), last.a, last.r);
    }
  }

  // --- What an area may rely on ------------------------------------------------------

  /** Nobody holds anything; some windows are reserved since boot. */
  predicate Boot(s: State) {
    && |s.expaBoot| == |s.expa| == |s.expaHw| == EXPA_BARS && |s.bulkBoot| == |s.bulk| == |s.bulkHw| == BULK_BARS
    && s.pcs == map[]
    && (forall i :: 0 <= i < EXPA_BARS ==> s.expa[i] == Reserved(s.expaBoot[i], s.expa[i].csr))
    && (forall i :: 0 <= i < BULK_BARS ==> s.bulk[i] == Reserved(s.bulkBoot[i], s.bulk[i].csr))
  }

  lemma BootOk(s: State)
    requires Boot(s)
    ensures Inv(s)
  {
    assert s.Runs() == map[];
    forall kind: Kind ensures InMemory(s, kind) {
      forall i | 0 <= i < BarCount(kind)
        ensures BarOk(s.Bars(kind)[i], s.Boot(kind)[i], Holders(s.Runs(), kind, i))
      {
        assert Holders(s.Runs(), kind, i) == {};
      }
    }
  }

  /** When an acquisition has returned, each window of its run is locked and
      holds what the area needs, in memory and in its register, although
      others may be locking, programming and releasing at the same time. */
  lemma HeldIsProgrammed(s0: State, acts: seq<Action>, a: nat, i: nat)
    requires Boot(s0) && var s := After(s0, acts); a in s.pcs && s.pcs[a].Held?
    requires var run := After(s0, acts).pcs[a].run; run.id <= i < run.id + run.bars
    ensures var s := After(s0, acts); var run := s.pcs[a].run;
      && i < |s.Bars(run.kind)| && i < |s.Hw(run.kind)|
      && s.Bars(run.kind)[i].locked
      && s.Hw(run.kind)[i] == s.Bars(run.kind)[i].csr == CsrAt(run, i)
  {
    hide Accounted;
    BootOk(s0);
    RunKeepsInv(s0, acts);
    var s := After(s0, acts);
    var run := s.pcs[a].run;
    RunsOf(s, a);
    Sizes(s, run.kind);
    assert WrittenOk(s, a);
    HolderAgrees(s, run.kind, i, a);
    HeldIsUsed(s.Bars(run.kind), Csrs(s.Bars(run.kind)), run.kind, s.Runs(), s.Boot(run.kind), a);
    LockedIfUsed(s, run.kind, i);
  }

  lemma LockedIfUsed(s: State, kind: Kind, i: nat)
    requires Inv(s) && i < |s.Bars(kind)| && s.Bars(kind)[i].usage > 0
    ensures s.Bars(kind)[i].locked
  {
    assert BarOk(s.Bars(kind)[i], s.Boot(kind)[i], Holders(s.Runs(), kind, i));
  }

  /** From the moment an area has a run to the moment it gives it up, no step
      of another area changes the contents of its windows, nor any register it
      has written. */
  lemma OthersDoNotDisturb(s: State, a: nat, b: nat, r: Request, i: nat)
    requires Inv(s) && a in s.pcs && s.pcs[a].HasRun() && b != a
    requires Covers(s.pcs[a].run, s.pcs[a].run.kind, i)
    ensures var run := s.pcs[a].run; var t := Step(s, b, r);
      && a in t.pcs && t.pcs[a] == s.pcs[a]
      && i < |s.Bars(run.kind)| && i < |t.Bars(run.kind)| && i < |s.Hw(run.kind)| && i < |t.Hw(run.kind)|
      && t.Bars(run.kind)[i].csr == s.Bars(run.kind)[i].csr
      && (i < run.id + s.pcs[a].Written() ==> t.Hw(run.kind)[i] == s.Hw(run.kind)[i])
  {
    hide Accounted, TryKind;
    var run, t := s.pcs[a].run, Step(s, b, r);
    StepKeepsInv(s, b, r);
    RunsOf(s, a);
    RunsOf(t, a);
    Sizes(s, run.kind);
    Sizes(t, run.kind);
    assert WrittenOk(s, a) && WrittenOk(t, a);
    HolderAgrees(s, run.kind, i, a);
    HolderAgrees(t, run.kind, i, a);
  }

  /** Once nobody holds a run, every window is as it was at boot. */
  lemma AllGone(s0: State, acts: seq<Action>, kind: Kind, i: nat)
    requires Boot(s0) && After(s0, acts).pcs == map[] && i < BarCount(kind)
    ensures var s := After(s0, acts);
      && i < |s.Bars(kind)| && i < |s.Boot(kind)| && s.Bars(kind)[i].usage == s.Boot(kind)[i]
      && (s.Boot(kind)[i] == 0 ==> s.Bars(kind)[i] == Bar(false, 0, 0))
  {
    BootOk(s0);
    RunKeepsInv(s0, acts);
    var s := After(s0, acts);
    assert s.Runs() == map[];
    AllReleased(s.Bars(kind), Csrs(s.Bars(kind)), kind, s.Runs(), s.Boot(kind), i);
  }

  // --- Sharing first ---------------------------------------------------------------

  function SearchLeft(pc: Pc): nat
    requires pc.Trying?
  {
    (if pc.canAlloc then 0 else 2) + (if pc.kind.Bulk? then 0 else 1)
  }

  /** Area a alone, until its acquisition has found a run or given up. */
  function Alone(s: State, a: nat): State
    decreases if a in s.pcs && s.pcs[a].Trying? then SearchLeft(s.pcs[a]) + 1 else 0
  {
    if a in s.pcs && s.pcs[a].Trying? then Alone(Step(s, a, s.pcs[a].r), a) else s
  }

  /** Undisturbed, the four searches make the choice of the sequential
      allocator: share in either class before allocating in either. */
  lemma AloneIsChoose(s: State, a: nat, r: Request)
    requires a !in s.pcs && r.size > 0
    ensures var t := Alone(Step(s, a, r), a); var c := Choose(r, s.expa, s.bulk);
      if c.Some? then a in t.pcs && t.pcs[a] == Programming(r, c.value, 0) else a !in t.pcs
  {
    hide TryKind;
    var s1 := Step(s, a, r);
    assert s1.pcs[a] == Trying(r, Expa, false);
    AloneOneClass(s1, a, r, Expa, false);
    if TryKind(r, Expa, s.expa, false).None? {
      AloneOneClass(Step(s1, a, r), a, r, Bulk, false);
      var s3 := Step(Step(s1, a, r), a, r);
      if TryKind(r, Bulk, s.bulk, false).None? {
        AloneOneClass(s3, a, r, Expa, true);
        if TryKind(r, Expa, s.expa, true).None? {
          AloneOneClass(Step(s3, a, r), a, r, Bulk, true);
        }
      }
    }
  }

  lemma AloneOneClass(s: State, a: nat, r: Request, kind: Kind, canAlloc: bool)
    requires a in s.pcs && s.pcs[a] == Trying(r, kind, canAlloc)
    ensures var u := TryKind(r, kind, s.Bars(kind), canAlloc);
      && Alone(s, a) == Alone(Step(s, a, r), a)
      && (u.None? ==> Step(s, a, r) == Next(s, a, s.pcs[a]))
      && (u.Some? ==> var t := Alone(s, a); a in t.pcs && t.pcs[a] == Programming(r, u.value, 0))
  {
    hide TryKind;
    if TryKind(r, kind, s.Bars(kind), canAlloc).None? {
      TryKindKind(r, kind, s.Bars(kind), canAlloc);
    }
  }

  lemma TryKindKind(r: Request, kind: Kind, bar: seq<Bar>, canAlloc: bool)
    ensures var t := TryKind(r, kind, bar, canAlloc); t.Some? ==> t.value.kind == kind
  {
  }

  /** With others about, what is left of the promise: fresh windows are taken
      only after every search to share has failed once, and only if nothing in
      their own class can be shared at that very moment. */
  lemma FreshOnlyWithoutMatch(s: State, a: nat, r: Request)
    requires Inv(s) && a in s.pcs && s.pcs[a].Trying?
    requires var t := Step(s, a, r); a in t.pcs && t.pcs[a].Programming?
    ensures var pc := s.pcs[a]; var run := Step(s, a, r).pcs[a].run;
      !MatchAt(s.Bars(pc.kind), run.id, run.bars, run.csr) ==>
        pc.canAlloc && run.kind == pc.kind && !CanShare(pc.r, pc.kind, s.Bars(pc.kind))
  {
    var pc := s.pcs[a];
    TryKindMeans(pc.r, pc.kind, s.Bars(pc.kind), pc.canAlloc);
  }

  /** A fresh window is about to be programmed for the area although a window
      of the other class could be shared. */
  ghost predicate Overlooks(s: State, a: nat) {
    && a in s.pcs && s.pcs[a].Trying?
    && var pc := s.pcs[a];
    && var t := TryKind(pc.r, pc.kind, s.Bars(pc.kind), pc.canAlloc);
    && t.Some? && FreeAt(s.Bars(pc.kind), t.value.id, t.value.bars)
    && CanShare(pc.r, if pc.kind.Expa? then Bulk else Expa, if pc.kind.Expa? then s.bulk else s.expa)
  }

  /** No window reserved, none in use. */
  function Blank(): State {
    State(seq(EXPA_BARS, i => Bar(false, 0, 0)), seq(BULK_BARS, i => Bar(false, 0, 0)),
          seq(EXPA_BARS, i => 0), seq(BULK_BARS, i => 0), seq(EXPA_BARS, i => 0), seq(BULK_BARS, i => 0), map[])
  }

  lemma AllFree(r: Request, kind: Kind, bar: seq<Bar>)
    requires r.size > 0 && |bar| == BarCount(kind) && forall i :: 0 <= i < |bar| ==> !bar[i].locked
    ensures TryKind(r, kind, bar, false) == None
    ensures TryKind(r, kind, bar, true).Some? <==> r.Eligible(kind)
    ensures r.Eligible(kind) ==> FreeAt(bar, TryKind(r, kind, bar, true).value.id, r.Bars(kind))
  {
    BarsForIsLeast(r.addr, r.size, BarSize(kind), 0);
    TryKindMeans(r, kind, bar, false);
    TryKindMeans(r, kind, bar, true);
    assert r.Eligible(kind) ==> FreeAt(bar, 0, r.Bars(kind));
    forall i: nat ensures !MatchAt(bar, i, r.Bars(kind), r.Csr(kind)) {
      NoMatch(bar, i, r.Bars(kind), r.Csr(kind));
    }
  }

  lemma NoMatch(bar: seq<Bar>, i: nat, bars: nat, csr: u32)
    requires bars > 0 && forall k :: 0 <= k < |bar| ==> !bar[k].locked
    ensures !MatchAt(bar, i, bars, csr)
  {
    if i < |bar| {
      assert !bar[i].locked;
    }
  }

  /** Reachable from a state with no window reserved or in use. */
  ghost predicate Reached(s: State) {
    exists acts :: After(Blank(), acts) == s
  }

  /** Extend a run by one step. */
  lemma Go(s: State, a: nat, r: Request) returns (t: State)
    requires Reached(s)
    ensures t == Step(s, a, r) && Reached(t)
  {
    var acts :| After(Blank(), acts) == s;
    var acts' := acts + [Action(a, r)];
    assert acts'[..|acts|] == acts;
    t := After(Blank(), acts');
  }

  /** The same area made larger, to the end of one more bulk window: it needs
      the same contents from the same address on. */
  function Rival(r: Request): Request {
    r.(size := (r.Bars(Bulk) + 1) * BULK_SIZE - r.addr % BULK_SIZE)
  }

  /** An area that fits the expansion windows reaches into at most two bulk
      windows, so its rival needs at most three, and too many of the others. */
  lemma RivalFitsBulkOnly(r: Request)
    requires r.size > 0 && r.Eligible(Expa) && r.Eligible(Bulk)
    ensures Rival(r).size > 0 && !Rival(r).Eligible(Expa) && Rival(r).Eligible(Bulk)
    ensures Rival(r).Bars(Bulk) == r.Bars(Bulk) + 1 <= 3
  {
    hide BarsFor;
    var n := r.Bars(Bulk);
    BarsForIsLeast(r.addr, r.size, EXPA_SIZE, EXPA_BARS - 1);
    BarsForIsLeast(r.addr, r.size, BULK_SIZE, 2);
    var q := Rival(r);
    BarsForIsLeast(q.addr, q.size, BULK_SIZE, n);
    BarsForIsLeast(q.addr, q.size, BULK_SIZE, n + 1);
    BarsForIsLeast(q.addr, q.size, EXPA_SIZE, EXPA_BARS - 1);
  }

  /** Start an area and let its attempts to share fail on free windows. */
  lemma FailToShare(s: State, a: nat, r: Request) returns (t: State)
    requires Reached(s) && s == Blank().(pcs := s.pcs) && a !in s.pcs && r.size > 0
    ensures Reached(t) && t == s.(pcs := s.pcs[a := Trying(r, Expa, true)])
  {
    hide TryKind;
    AllFree(r, Expa, s.expa);
    AllFree(r, Bulk, s.bulk);
    t := Go(s, a, r);
    t := Go(t, a, r);
    t := Go(t, a, r);
    assert t.pcs == s.pcs[a := Trying(r, Expa, true)];
  }

  /** Area a asks for r, and its next search overlooks a window to share. */
  ghost predicate Exposed(s: State, a: nat, r: Request) {
    a in s.pcs && s.pcs[a].Trying? && s.pcs[a].r == r && Overlooks(s, a)
  }

  /** The area is between its two attempts, and its rival, which cannot use
      expansion windows, is about to allocate bulk ones. */
  lemma RivalIsAbout(a: nat, r: Request) returns (s: State)
    requires r.size > 0 && r.Eligible(Expa) && r.Eligible(Bulk)
    ensures Reached(s) && s == Blank().(pcs := s.pcs)
    ensures s.pcs == map[a := Trying(r, Expa, true), a + 1 := Trying(Rival(r), Bulk, true)]
  {
    hide Reached, TryKind, Request.Eligible;
    RivalFitsBulkOnly(r);
    assert Reached(Blank()) by {
      BlankIsReached();
    }
    s := FailToShare(Blank(), a, r);
    var t := FailToShare(s, a + 1, Rival(r));
    AllFree(Rival(r), Expa, Blank().expa);
    s := Go(t, a + 1, Rival(r));
    assert s.pcs == map[a := Trying(r, Expa, true), a + 1 := Trying(Rival(r), Bulk, true)];
  }

  lemma BlankIsReached()
    ensures Reached(Blank())
  {
    assert After(Blank(), []) == Blank();
  }

  /** The rival takes bulk windows with the contents the area would share, and
      the area then takes fresh expansion windows. */
  lemma RivalComesBetween(a: nat, r: Request) returns (s: State)
    requires r.size > 0 && r.Eligible(Expa) && r.Eligible(Bulk)
    ensures Reached(s) && Exposed(s, a, r)
  {
    hide Reached, TryKind, CanShare, BarsFor, Request.Eligible, Request.Bars;
    var q := Rival(r);
    RivalFitsBulkOnly(r);
    var t := RivalIsAbout(a, r);
    AllFree(q, Bulk, Blank().bulk);
    var run := TryKind(q, Bulk, Blank().bulk, true).value;
    TryKindMeans(q, Bulk, Blank().bulk, true);
    RunFits(Blank().bulk, run);
    s := Go(t, a + 1, q);
    NowShareable(r, s.bulk, run);
    AllFree(r, Expa, Blank().expa);
    TryKindMeans(r, Expa, Blank().expa, true);
    assert Overlooks(s, a);
  }

  lemma NowShareable(r: Request, bar: seq<Bar>, run: Run)
    requires bar == LockAll(Blank().bulk, run) && run == Run(Bulk, run.id, r.Bars(Bulk) + 1, r.bulkCsr)
    requires r.Eligible(Bulk) && run.id + run.bars <= BULK_BARS
    ensures CanShare(r, Bulk, bar)
  {
    hide BarsFor;
    EligibleIff(r, Bulk);
    assert forall i :: run.id <= i < run.id + run.bars ==> bar[i] == Locked(Blank().bulk[i], CsrAt(run, i));
    assert MatchAt(bar, run.id, r.Bars(Bulk), r.Csr(Bulk));
  }

  /** Exactly the requests that either class could serve are exposed: others
      about can make the area program fresh windows although it could share. */
  lemma SharingCanBeOverlookedIff(a: nat, r: Request)
    requires r.size > 0
    ensures (exists s :: Reached(s) && Exposed(s, a, r)) <==> Usable(r, Expa) && Usable(r, Bulk)
  {
    hide BarsFor, Reached, Exposed, Request.Eligible;
    EligibleIff(r, Expa);
    EligibleIff(r, Bulk);
    if Usable(r, Expa) && Usable(r, Bulk) {
      var s := RivalComesBetween(a, r);
    }
    forall s | Reached(s) && Exposed(s, a, r) ensures Usable(r, Expa) && Usable(r, Bulk) {
      ExposedIsUsable(s, a, r);
    }
  }

  lemma ExposedIsUsable(s: State, a: nat, r: Request)
    requires Exposed(s, a, r)
    ensures Usable(r, Expa) && Usable(r, Bulk)
  {
    hide BarsFor;
    EligibleIff(r, s.pcs[a].kind);
    TryKindMeans(r, s.pcs[a].kind, s.Bars(s.pcs[a].kind), s.pcs[a].canAlloc);
  }
}
