/** The BAR allocator: contiguous runs of address windows, shared by areas
    that need the same contents, reference counted, in two classes. */
module BarAllocator {
  import opened Words

  const EXPA_SIZE: nat := 0x200_0000
  const BULK_SIZE: nat := 0x2000_0000
  const EXPA_START: nat := 0xc000_0000
  const EXPA_BARS: nat := 15
  const BULK_BARS: nat := 7

  /** struct nfp_plat_bar */
  datatype Bar = Bar(locked: bool, usage: nat, csr: u32)

  datatype Kind = Expa | Bulk

  datatype Error = Ok | EEXIST | ENOSPC

  function BarSize(kind: Kind): nat { if kind.Expa? then EXPA_SIZE else BULK_SIZE }

  function BarBase(kind: Kind): nat { if kind.Expa? then EXPA_START else 0 }

  function BarCount(kind: Kind): nat { if kind.Expa? then EXPA_BARS else BULK_BARS }

  /** Number of windows of a size needed for an area (the BARS macro). */
  function BarsFor(addr: nat, size: nat, barSize: nat): nat
    requires barSize > 0
  {
    (BitAnd(addr, barSize - 1) + size + barSize - 1) / barSize
  }

  predicate WindowSize(barSize: nat) { barSize == EXPA_SIZE || barSize == BULK_SIZE }

  lemma WindowOffset(addr: nat, barSize: nat)
    requires WindowSize(barSize)
    ensures BitAnd(addr, barSize - 1) == addr % barSize < barSize
  {
    Pow2Table();
    MaskIsMod(addr, if barSize == EXPA_SIZE then 25 else 29);
  }

  /** The count is the least number of windows that reach the area's end. */
  lemma BarsForIsLeast(addr: nat, size: nat, barSize: nat, n: nat)
    requires WindowSize(barSize) && size > 0
    ensures BarsFor(addr, size, barSize) >= 1
    ensures addr % barSize + size <= n * barSize <==> n >= BarsFor(addr, size, barSize)
  {
    WindowOffset(addr, barSize);
    var total := addr % barSize + size;
    var q, r := (total + barSize - 1) / barSize, (total + barSize - 1) % barSize;
    assert total + barSize - 1 == q * barSize + r;
    if n >= q {
      MulMonotone(q, n, barSize);
    } else {
      MulMonotone(n, q - 1, barSize);
      assert (q - 1) * barSize == q * barSize - barSize;
    }
    if q == 0 {
      assert false;
    }
  }

  lemma MulMonotone(a: int, b: int, c: nat)
    requires a <= b
    ensures a * c <= b * c
  {
    assert (b - a) * c >= 0;
  }

  // --- Searching -----------------------------------------------------------------

  predicate MatchAt(bar: seq<Bar>, i: nat, bars: nat, csr: u32) {
    i + bars <= |bar| && forall j :: i <= j < i + bars ==> bar[j].locked && bar[j].csr == Add32(csr, (j - i) % TWO_32)
  }

  predicate FreeAt(bar: seq<Bar>, i: nat, bars: nat) {
    i + bars <= |bar| && forall j :: i <= j < i + bars ==> !bar[j].locked
  }

  predicate Fits(bar: seq<Bar>, i: nat, bars: nat, csr: u32, share: bool) {
    if share then MatchAt(bar, i, bars, csr) else FreeAt(bar, i, bars)
  }

  /** First run from position i on that can be shared, or is wholly free. */
  function First(bar: seq<Bar>, i: nat, bars: nat, csr: u32, share: bool): Option<nat>
    decreases |bar| - i
  {
    if i + bars > |bar| then None
    else if Fits(bar, i, bars, csr, share) then Some(i)
    else if i == |bar| then None
    else First(bar, i + 1, bars, csr, share)
  }

  /** It is the lowest one, and there is none only if there is none. */
  lemma {:induction false} FirstIsLowest(bar: seq<Bar>, i: nat, bars: nat, csr: u32, share: bool)
    ensures match First(bar, i, bars, csr, share)
      case Some(k) => i <= k && Fits(bar, k, bars, csr, share)
                      && forall m: nat :: i <= m < k ==> !Fits(bar, m, bars, csr, share)
      case None => forall m: nat :: i <= m ==> !Fits(bar, m, bars, csr, share)
    decreases |bar| - i
  {
    if i + bars <= |bar| && !Fits(bar, i, bars, csr, share) && i < |bar| {
      FirstIsLowest(bar, i + 1, bars, csr, share);
    }
  }

  /** bar_find(): share the lowest matching run, else take the lowest free
      one if allowed to. */
  function Find(bar: seq<Bar>, bars: nat, csr: u32, canAlloc: bool): (Error, nat) {
    match First(bar, 0, bars, csr, true)
    case Some(i) => (Ok, i)
    case None =>
      if !canAlloc then (EEXIST, 0)
      else match First(bar, 0, bars, csr, false)
        case Some(i) => (Ok, i)
        case None => (ENOSPC, 0)
  }

  /** The search is complete, and each error has exactly one cause. */
  lemma FindIsComplete(bar: seq<Bar>, bars: nat, csr: u32, canAlloc: bool)
    ensures var (err, i) := Find(bar, bars, csr, canAlloc);
      && (err == Ok ==> i + bars <= |bar| && (MatchAt(bar, i, bars, csr) || FreeAt(bar, i, bars)))
      && (err == Ok && !MatchAt(bar, i, bars, csr) ==>
            canAlloc && forall m: nat :: !MatchAt(bar, m, bars, csr) && (m < i ==> !FreeAt(bar, m, bars)))
      && (err == Ok && MatchAt(bar, i, bars, csr) && (exists m: nat :: MatchAt(bar, m, bars, csr)) ==>
            forall m: nat :: m < i ==> !MatchAt(bar, m, bars, csr))
      && (err == EEXIST <==> !canAlloc && forall m: nat :: !MatchAt(bar, m, bars, csr))
      && (err == ENOSPC <==> canAlloc && forall m: nat :: !MatchAt(bar, m, bars, csr) && !FreeAt(bar, m, bars))
  {
    FirstIsLowest(bar, 0, bars, csr, true);
    FirstIsLowest(bar, 0, bars, csr, false);
    assert forall m: nat :: Fits(bar, m, bars, csr, true) == MatchAt(bar, m, bars, csr);
    assert forall m: nat :: Fits(bar, m, bars, csr, false) == FreeAt(bar, m, bars);
  }

  // --- Accounting ------------------------------------------------------------------

  /** The windows an area holds, and the contents it needs in the first. */
  datatype Run = Run(kind: Kind, id: nat, bars: nat, csr: u32)

  predicate Covers(run: Run, kind: Kind, i: nat) {
    run.kind == kind && run.id <= i < run.id + run.bars
  }

  function CsrAt(run: Run, i: int): u32 {
    Add32(run.csr, (i - run.id) % TWO_32)
  }

  ghost function Holders<A>(runs: map<A, Run>, kind: Kind, i: nat): set<A> {
    set a | a in runs && Covers(runs[a], kind, i)
  }

  /** Every window's usage count is the number of areas holding it plus its
      boot reservation; it is locked exactly while in use and blank when not;
      and its contents, in memory and in hardware, are what each holder needs. */
  ghost predicate Accounted<A>(bar: seq<Bar>, hw: seq<u32>, kind: Kind, runs: map<A, Run>, boot: seq<nat>) {
    && |bar| == |boot| == |hw| == BarCount(kind)
    && (forall i :: 0 <= i < |bar| ==> BarOk(bar[i], boot[i], Holders(runs, kind, i)))
    && (forall a, i :: a in runs && 0 <= i < |bar| && Covers(runs[a], kind, i) ==> HolderOk(bar[i], hw[i], runs[a], i))
    && (forall a :: a in runs && runs[a].kind == kind ==> runs[a].id + runs[a].bars <= |bar|)
  }

  ghost predicate BarOk<A>(b: Bar, boot: nat, holders: set<A>) {
    && b.usage == boot + |holders|
    && (b.locked <==> b.usage > 0)
    && (b.usage == 0 ==> b.csr == 0)
  }

  predicate HolderOk(b: Bar, hw: u32, run: Run, i: nat) {
    b.csr == CsrAt(run, i) && hw == b.csr
  }

  function Locked(b: Bar, csr: u32): Bar { Bar(true, b.usage + 1, csr) }

  function Unlocked(b: Bar): Bar
    requires b.usage > 0
  {
    if b.usage == 1 then Bar(false, 0, 0) else b.(usage := b.usage - 1)
  }

  /** The windows after an area has locked and programmed a run. */
  ghost predicate Acquires(bar: seq<Bar>, bar': seq<Bar>, hw: seq<u32>, hw': seq<u32>, run: Run) {
    && |bar'| == |bar| && |hw'| == |hw| == |bar|
    && (forall i :: 0 <= i < |bar| && run.id <= i < run.id + run.bars ==>
          bar'[i] == Locked(bar[i], CsrAt(run, i)) && hw'[i] == CsrAt(run, i))
    && (forall i :: 0 <= i < |bar| && !(run.id <= i < run.id + run.bars) ==> bar'[i] == bar[i] && hw'[i] == hw[i])
  }

  ghost predicate Releases(bar: seq<Bar>, bar': seq<Bar>, run: Run) {
    && |bar'| == |bar|
    && (forall i :: 0 <= i < |bar| && run.id <= i < run.id + run.bars ==>
          bar[i].usage > 0 && bar'[i] == Unlocked(bar[i]))
    && (forall i :: 0 <= i < |bar| && !(run.id <= i < run.id + run.bars) ==> bar'[i] == bar[i])
  }

  /** Taking a run that matches or is free keeps the accounts; in particular
      it changes no window that some other area holds. */
  lemma AcquireKeepsAccounts<A>(bar: seq<Bar>, bar': seq<Bar>, hw: seq<u32>, hw': seq<u32>, run: Run,
                                runs: map<A, Run>, boot: seq<nat>, a: A)
    requires Accounted(bar, hw, run.kind, runs, boot) && a !in runs
    requires MatchAt(bar, run.id, run.bars, run.csr) || FreeAt(bar, run.id, run.bars)
    requires Acquires(bar, bar', hw, hw', run)
    ensures Accounted(bar', hw', run.kind, runs[a := run], boot)
  {
    var runs' := runs[a := run];
    forall i | 0 <= i < |bar| ensures BarOk(bar'[i], boot[i], Holders(runs', run.kind, i)) {
      assert BarOk(bar[i], boot[i], Holders(runs, run.kind, i));
      if Covers(run, run.kind, i) {
        assert Holders(runs', run.kind, i) == Holders(runs, run.kind, i) + {a};
      } else {
        assert Holders(runs', run.kind, i) == Holders(runs, run.kind, i);
      }
    }
    forall b, i | b in runs' && 0 <= i < |bar| && Covers(runs'[b], run.kind, i)
      ensures HolderOk(bar'[i], hw'[i], runs'[b], i)
    {
      if b != a {
        HeldIsUntouched(bar, bar', hw, hw', run, runs, boot, b, i);
      }
    }
  }

  /** A window somebody holds keeps its contents when another area joins. */
  lemma HeldIsUntouched<A>(bar: seq<Bar>, bar': seq<Bar>, hw: seq<u32>, hw': seq<u32>, run: Run,
                           runs: map<A, Run>, boot: seq<nat>, b: A, i: nat)
    requires Accounted(bar, hw, run.kind, runs, boot)
    requires MatchAt(bar, run.id, run.bars, run.csr) || FreeAt(bar, run.id, run.bars)
    requires Acquires(bar, bar', hw, hw', run)
    requires b in runs && i < |bar| && Covers(runs[b], run.kind, i)
    ensures bar'[i].csr == bar[i].csr && HolderOk(bar'[i], hw'[i], runs[b], i)
  {
    assert HolderOk(bar[i], hw[i], runs[b], i);
    assert b in Holders(runs, run.kind, i);
    assert BarOk(bar[i], boot[i], Holders(runs, run.kind, i));
    assert |Holders(runs, run.kind, i)| > 0;
  }

  /** Giving up a run keeps the accounts. */
  lemma ReleaseKeepsAccounts<A>(bar: seq<Bar>, bar': seq<Bar>, hw: seq<u32>, runs: map<A, Run>, boot: seq<nat>, a: A)
    requires a in runs && Accounted(bar, hw, runs[a].kind, runs, boot)
    requires Releases(bar, bar', runs[a])
    ensures Accounted(bar', hw, runs[a].kind, runs - {a}, boot)
  {
    var run, runs' := runs[a], runs - {a};
    forall i | 0 <= i < |bar| ensures BarOk(bar'[i], boot[i], Holders(runs', run.kind, i)) {
      assert BarOk(bar[i], boot[i], Holders(runs, run.kind, i));
      assert Holders(runs', run.kind, i) == Holders(runs, run.kind, i) - {a};
      assert Covers(run, run.kind, i) <==> a in Holders(runs, run.kind, i);
    }
    forall b, i | b in runs' && 0 <= i < |bar| && Covers(runs'[b], run.kind, i)
      ensures HolderOk(bar'[i], hw[i], runs'[b], i)
    {
      assert HolderOk(bar[i], hw[i], runs[b], i);
      assert b in Holders(runs', run.kind, i);
      assert BarOk(bar'[i], boot[i], Holders(runs', run.kind, i));
    }
  }

  /** The other class of windows does not notice. */
  lemma OtherKindKeepsAccounts<A>(bar: seq<Bar>, hw: seq<u32>, kind: Kind, runs: map<A, Run>, boot: seq<nat>,
                                    a: A, run: Run)
    requires Accounted(bar, hw, kind, runs, boot) && run.kind != kind
    ensures a !in runs ==> Accounted(bar, hw, kind, runs[a := run], boot)
    ensures a in runs && runs[a] == run ==> Accounted(bar, hw, kind, runs - {a}, boot)
  {
    forall i: nat
      ensures a !in runs ==> Holders(runs[a := run], kind, i) == Holders(runs, kind, i)
      ensures a in runs && runs[a] == run ==> Holders(runs - {a}, kind, i) == Holders(runs, kind, i)
    {
    }
  }

  /** Sharers agree: areas holding one window need the same contents there. */
  lemma SharersAgree<A>(bar: seq<Bar>, hw: seq<u32>, kind: Kind, runs: map<A, Run>, boot: seq<nat>, a: A, b: A, i: nat)
    requires Accounted(bar, hw, kind, runs, boot) && i < |bar|
    requires a in runs && b in runs && Covers(runs[a], kind, i) && Covers(runs[b], kind, i)
    ensures CsrAt(runs[a], i) == bar[i].csr == CsrAt(runs[b], i)
  {
    assert HolderOk(bar[i], hw[i], runs[a], i) && HolderOk(bar[i], hw[i], runs[b], i);
  }

  /** Between any two accounted states in which an area holds the same run,
      its windows have the same contents, whatever happened in between. */
  lemma StableWhileHeld<A>(bar: seq<Bar>, hw: seq<u32>, runs: map<A, Run>,
                           bar': seq<Bar>, hw': seq<u32>, runs': map<A, Run>,
                           kind: Kind, boot: seq<nat>, a: A, i: nat)
    requires Accounted(bar, hw, kind, runs, boot) && Accounted(bar', hw', kind, runs', boot) && i < |bar|
    requires a in runs && a in runs' && runs[a] == runs'[a] && Covers(runs[a], kind, i)
    ensures bar[i].csr == bar'[i].csr && hw[i] == hw'[i]
  {
    assert HolderOk(bar[i], hw[i], runs[a], i) && HolderOk(bar'[i], hw'[i], runs'[a], i);
  }

  /** With no areas left, every window not reserved at boot is blank. */
  lemma AllReleased<A>(bar: seq<Bar>, hw: seq<u32>, kind: Kind, runs: map<A, Run>, boot: seq<nat>, i: nat)
    requires Accounted(bar, hw, kind, runs, boot) && runs == map[] && i < |bar|
    ensures bar[i].usage == boot[i]
    ensures boot[i] == 0 ==> bar[i] == Bar(false, 0, 0)
  {
    assert Holders(runs, kind, i) == {};
    assert BarOk(bar[i], boot[i], Holders(runs, kind, i));
  }

  // --- Choosing a class --------------------------------------------------------------

  /** What an area asks for: the contents each class would need, and whether
      its action may go through a bulk window. */
  datatype Request = Request(addr: nat, size: nat, expaCsr: u32, bulkCsr: u32, bulkAllowed: bool)
  {
    function Csr(kind: Kind): u32 { if kind.Expa? then expaCsr else bulkCsr }

    function Bars(kind: Kind): nat { BarsFor(addr, size, BarSize(kind)) }

    predicate Eligible(kind: Kind) { Bars(kind) < BarCount(kind) && (kind.Bulk? ==> bulkAllowed) }
  }

  /** The class may serve the request: its windows, less one, reach from the
      one that the address is in to the end of the area, and only actions that
      may do so go through a bulk window. */
  predicate Usable(r: Request, kind: Kind) {
    && r.addr % BarSize(kind) + r.size <= (BarCount(kind) - 1) * BarSize(kind)
    && (kind.Bulk? ==> r.bulkAllowed)
  }

  lemma EligibleIff(r: Request, kind: Kind)
    ensures r.Eligible(kind) <==> Usable(r, kind)
  {
    var barSize, n := BarSize(kind), BarCount(kind) - 1;
    WindowOffset(r.addr, barSize);
    if r.size > 0 {
      BarsForIsLeast(r.addr, r.size, barSize, n);
    }
  }

  /** One class's part of bar_find_any(). */
  function TryKind(r: Request, kind: Kind, bar: seq<Bar>, canAlloc: bool): Option<Run> {
    if !r.Eligible(kind) then None
    else
      var (err, i) := Find(bar, r.Bars(kind), r.Csr(kind), canAlloc);
      if err == Ok then Some(Run(kind, i, r.Bars(kind), r.Csr(kind))) else None
  }

  function FindAny(r: Request, expa: seq<Bar>, bulk: seq<Bar>, canAlloc: bool): Option<Run> {
    var e := TryKind(r, Expa, expa, canAlloc);
    if e.Some? then e else TryKind(r, Bulk, bulk, canAlloc)
  }

  /** nfp_plat_acquire(): share if at all possible, only then allocate. */
  function Choose(r: Request, expa: seq<Bar>, bulk: seq<Bar>): Option<Run> {
    var s := FindAny(r, expa, bulk, false);
    if s.Some? then s else FindAny(r, expa, bulk, true)
  }

  ghost predicate CanShare(r: Request, kind: Kind, bar: seq<Bar>) {
    Usable(r, kind) && exists i: nat :: MatchAt(bar, i, r.Bars(kind), r.Csr(kind))
  }

  ghost predicate CanAllocate(r: Request, kind: Kind, bar: seq<Bar>) {
    Usable(r, kind) && exists i: nat :: FreeAt(bar, i, r.Bars(kind))
  }

  lemma TryKindMeans(r: Request, kind: Kind, bar: seq<Bar>, canAlloc: bool)
    ensures var t := TryKind(r, kind, bar, canAlloc);
      && (t.Some? <==> CanShare(r, kind, bar) || (canAlloc && CanAllocate(r, kind, bar)))
      && (t.Some? ==> t.value.kind == kind && t.value.bars == r.Bars(kind) && t.value.csr == r.Csr(kind))
      && (t.Some? ==> Usable(r, kind))
      && (t.Some? && CanShare(r, kind, bar) ==> MatchAt(bar, t.value.id, t.value.bars, t.value.csr))
      && (t.Some? && !CanShare(r, kind, bar) ==> FreeAt(bar, t.value.id, t.value.bars))
  {
    var bars, csr := r.Bars(kind), r.Csr(kind);
    EligibleIff(r, kind);
    FirstIsLowest(bar, 0, bars, csr, true);
    FirstIsLowest(bar, 0, bars, csr, false);
    assert forall m: nat :: Fits(bar, m, bars, csr, true) == MatchAt(bar, m, bars, csr);
    assert forall m: nat :: Fits(bar, m, bars, csr, false) == FreeAt(bar, m, bars);
  }

  /** Acquisition succeeds exactly when some usable class has a run to share
      or a free run, and programs fresh windows only when nothing in either
      class can be shared. The run is of a class that may serve the request,
      as long as it needs, and for the contents the class needs. */
  lemma ChooseSharesFirst(r: Request, expa: seq<Bar>, bulk: seq<Bar>)
    ensures Choose(r, expa, bulk).Some? <==>
      CanShare(r, Expa, expa) || CanShare(r, Bulk, bulk) || CanAllocate(r, Expa, expa) || CanAllocate(r, Bulk, bulk)
    ensures Choose(r, expa, bulk).Some? ==>
      var run := Choose(r, expa, bulk).value;
      && Usable(r, run.kind) && run.bars == r.Bars(run.kind) && run.csr == r.Csr(run.kind)
    ensures Choose(r, expa, bulk).Some? ==>
      var run := Choose(r, expa, bulk).value;
      var bar := if run.kind.Expa? then expa else bulk;
      if CanShare(r, Expa, expa) || CanShare(r, Bulk, bulk)
      then MatchAt(bar, run.id, run.bars, run.csr) && (run.kind.Bulk? ==> !CanShare(r, Expa, expa))
      else FreeAt(bar, run.id, run.bars) && (run.kind.Bulk? ==> !CanAllocate(r, Expa, expa))
  {
    TryKindMeans(r, Expa, expa, false);
    TryKindMeans(r, Bulk, bulk, false);
    TryKindMeans(r, Expa, expa, true);
    TryKindMeans(r, Bulk, bulk, true);
  }

  /** The windows chosen for an area reach over all of it and stay inside
      their class. */
  lemma WindowsCoverArea(r: Request, run: Run)
    requires r.size > 0 && run.bars == r.Bars(run.kind) && run.id + run.bars <= BarCount(run.kind)
    ensures var base := BarBase(run.kind) + run.id * BarSize(run.kind);
      var offset := BitAnd(r.addr, BarSize(run.kind) - 1);
      && offset + r.size <= run.bars * BarSize(run.kind)
      && base + run.bars * BarSize(run.kind) <= BarBase(run.kind) + BarCount(run.kind) * BarSize(run.kind)
      && BarBase(run.kind) + BarCount(run.kind) * BarSize(run.kind) < TWO_32
  {
    WindowOffset(r.addr, BarSize(run.kind));
    BarsForIsLeast(r.addr, r.size, BarSize(run.kind), run.bars);
  }

  /** struct nfp_plat_area_priv */
  class Area {
    const req: Request
    var held: bool
    var kind: Kind
    var id: nat
    var bars: nat
    var offset: nat
    var physAddr: nat
    var physSize: nat
    var resStart: nat
    var resEnd: nat

    constructor (req: Request)
      ensures this.req == req && !held
    {
      this.req := req;
      held := false;
      kind, id, bars := Expa, 0, 0;
    }

    /** The area's view of its run. */
    predicate Describes(run: Run)
      reads this
    {
      && held && run == Run(kind, id, bars, req.Csr(kind))
      && offset == BitAnd(req.addr, BarSize(kind) - 1)
      && physAddr == BarBase(kind) + id * BarSize(kind)
      && physSize == BarSize(kind) * bars
    }
  }

  /** struct nfp_plat, as far as the BAR cache goes. */
  class Plat {
    const expa: array<Bar>
    const bulk: array<Bar>
    // the BAR registers themselves
    const expaHw: array<u32>
    const bulkHw: array<u32>
    ghost const expaBoot: seq<nat>
    ghost const bulkBoot: seq<nat>
    ghost var runs: map<Area, Run>

    ghost predicate Distinct() {
      expa != bulk && expaHw != bulkHw
    }

    ghost predicate Accounts()
      reads this, expa, bulk, expaHw, bulkHw
    {
      && Distinct()
      && Accounted(expa[..], expaHw[..], Expa, runs, expaBoot)
      && Accounted(bulk[..], bulkHw[..], Bulk, runs, bulkBoot)
    }

    ghost predicate Valid()
      reads this, expa, bulk, expaHw, bulkHw, runs.Keys
    {
      Accounts() && forall a :: a in runs ==> a.Describes(runs[a])
    }

    /** All windows start blank, except those reserved at boot. */
    constructor (expaBoot: seq<nat>, bulkBoot: seq<nat>, expaCsr: seq<u32>, bulkCsr: seq<u32>)
      requires |expaBoot| == |expaCsr| == EXPA_BARS && |bulkBoot| == |bulkCsr| == BULK_BARS
      ensures Valid() && runs == map[]
      ensures this.expaBoot == expaBoot && this.bulkBoot == bulkBoot
      ensures fresh(expa) && fresh(bulk) && fresh(expaHw) && fresh(bulkHw)
    {
      expa := new Bar[EXPA_BARS](i requires 0 <= i < EXPA_BARS => Reserved(expaBoot[i], expaCsr[i]));
      bulk := new Bar[BULK_BARS](i requires 0 <= i < BULK_BARS => Reserved(bulkBoot[i], bulkCsr[i]));
      expaHw := new u32[EXPA_BARS](i => 0);
      bulkHw := new u32[BULK_BARS](i => 0);
      this.expaBoot, this.bulkBoot, runs := expaBoot, bulkBoot, map[];
      new;
      BlankIsAccounted(expa[..], expaHw[..], Expa, expaBoot);
      BlankIsAccounted(bulk[..], bulkHw[..], Bulk, bulkBoot);
      assert runs == map[];
    }

    function Bars(kind: Kind): array<Bar> { if kind.Expa? then expa else bulk }

    function Hw(kind: Kind): array<u32> { if kind.Expa? then expaHw else bulkHw }

    /** The search loop of bar_find(), for a run to share or a free run; the
        result is one past the last position if there is none. */
    method Search(bar: array<Bar>, bars: nat, csr: u32, share: bool) returns (i: nat)
      requires 0 < bars <= bar.Length < TWO_32
      ensures i <= bar.Length - bars + 1
      ensures i < bar.Length - bars + 1 ==> First(bar[..], 0, bars, csr, share) == Some(i)
      ensures i >= bar.Length - bars + 1 ==> First(bar[..], 0, bars, csr, share) == None
    {
      FirstIsLowest(bar[..], 0, bars, csr, share);
      var barMax := bar.Length - bars + 1;
      i := 0;
      while i < barMax
        invariant i <= barMax
        invariant forall m: nat :: m < i ==> !Fits(bar[..], m, bars, csr, share)
      {
        var j: nat := 0;
        while j < bars
          invariant j <= bars
          invariant forall k :: i <= k < i + j ==>
            if share then bar[k].locked && bar[k].csr == Add32(csr, (k - i) % TWO_32) else !bar[k].locked
        {
          if share {
            if !bar[i + j].locked {
              break;
            }
            if Add32(csr, j % TWO_32) != bar[i + j].csr {
              break;
            }
          } else {
            if bar[i + j].locked {
              break;
            }
          }
          j := j + 1;
        }
        if j == bars {
          assert Fits(bar[..], i, bars, csr, share);
          break;
        }
        assert !Fits(bar[..], i, bars, csr, share);
        i := i + 1;
      }
    }

    /** bar_find(): on success the run is locked and noted in the area. */
    method BarFind(area: Area, kind: Kind, bars: nat, csr: u32, canAlloc: bool) returns (err: Error)
      requires !area.held && 0 < bars <= BarCount(kind) == Bars(kind).Length
      requires Distinct() && bars == area.req.Bars(kind) && csr == area.req.Csr(kind)
      modifies area, Bars(kind)
      ensures err == Find(old(Bars(kind)[..]), bars, csr, canAlloc).0
      ensures err != Ok ==> Bars(kind)[..] == old(Bars(kind)[..]) && !area.held
      ensures var run := Run(kind, Find(old(Bars(kind)[..]), bars, csr, canAlloc).1, bars, csr);
        err == Ok ==> area.Describes(run) && LocksRun(old(Bars(kind)[..]), Bars(kind)[..], run)
    {
      hide First, LocksRun;
      var bar := Bars(kind);
      var i := Search(bar, bars, csr, true);
      if i >= bar.Length - bars + 1 {
        if !canAlloc {
          return EEXIST;
        }
        i := Search(bar, bars, csr, false);
        if i == bar.Length - bars + 1 {
          return ENOSPC;
        }
      }
      LockRun(bar, Run(kind, i, bars, csr));
      area.held, area.id, area.bars, area.kind := true, i, bars, kind;
      area.offset := BitAnd(area.req.addr, BarSize(kind) - 1);
      area.physAddr := BarBase(kind) + i * BarSize(kind);
      area.physSize := BarSize(kind) * bars;
      return Ok;
    }

    /** bar_lock() and the contents, window by window. */
    method LockRun(bar: array<Bar>, run: Run)
      requires run.id + run.bars <= bar.Length
      modifies bar
      ensures LocksRun(old(bar[..]), bar[..], run)
    {
      for j := 0 to run.bars
        invariant forall i :: 0 <= i < bar.Length ==>
          bar[i] == if run.id <= i < run.id + j then Locked(old(bar[i]), CsrAt(run, i)) else old(bar[i])
      {
        bar[run.id + j] := Bar(true, bar[run.id + j].usage + 1, Add32(run.csr, j % TWO_32));
      }
    }

    /** expa_set() / bulk_set() over a run. */
    method Program(kind: Kind, run: Run)
      requires run.id + run.bars <= Bars(kind).Length == Hw(kind).Length
      requires forall i :: run.id <= i < run.id + run.bars ==> Bars(kind)[i].csr == CsrAt(run, i)
      modifies Hw(kind)
      ensures forall i :: 0 <= i < Hw(kind).Length ==>
        Hw(kind)[i] == if run.id <= i < run.id + run.bars then CsrAt(run, i) else old(Hw(kind)[i])
    {
      var hw, bar := Hw(kind), Bars(kind);
      for j := 0 to run.bars
        invariant forall i :: 0 <= i < hw.Length ==>
          hw[i] == if run.id <= i < run.id + j then CsrAt(run, i) else old(hw[i])
      {
        hw[run.id + j] := bar[run.id + j].csr;
      }
    }

    /** bar_unlock() over a run. */
    method UnlockRun(bar: array<Bar>, run: Run)
      requires run.id + run.bars <= bar.Length
      requires forall i :: run.id <= i < run.id + run.bars ==> bar[i].usage > 0
      modifies bar
      ensures Releases(old(bar[..]), bar[..], run)
    {
      for j := 0 to run.bars
        invariant forall i :: 0 <= i < bar.Length ==>
          bar[i] == if run.id <= i < run.id + j then Unlocked(old(bar[i])) else old(bar[i])
      {
        var b := bar[run.id + j];
        bar[run.id + j] := if b.usage == 1 then Bar(false, 0, 0) else b.(usage := b.usage - 1);
      }
    }

    /** One class's part of bar_find_any(): search, lock, program. */
    method TryClass(area: Area, kind: Kind, canAlloc: bool) returns (ok: bool)
      requires Valid() && !area.held && area.req.size > 0
      modifies this, area, Bars(kind), Hw(kind)
      ensures Valid()
      ensures var t := TryKind(area.req, kind, old(Bars(kind)[..]), canAlloc);
        && (ok <==> t.Some?)
        && (ok ==> runs == old(runs)[area := t.value])
        && (!ok ==> !area.held && runs == old(runs) && Bars(kind)[..] == old(Bars(kind)[..]))
    {
      hide Accounted, MatchAt, FreeAt, First, Acquires, LocksRun, BarsFor;
      var bars := BarsFor(area.req.addr, area.req.size, BarSize(kind));
      BarsForIsLeast(area.req.addr, area.req.size, BarSize(kind), 0);
      if bars >= BarCount(kind) || (kind.Bulk? && !area.req.bulkAllowed) {
        return false;
      }
      var csr := area.req.Csr(kind);
      TryKindMeans(area.req, kind, Bars(kind)[..], canAlloc);
      Lengths();
      var err := BarFind(area, kind, bars, csr, canAlloc);
      if err != Ok {
        return false;
      }
      var run := Run(kind, area.id, bars, csr);
      LockedContents(old(Bars(kind)[..]), Bars(kind)[..], run);
      Program(kind, run);
      AcquiresBoth(old(Bars(kind)[..]), Bars(kind)[..], old(Hw(kind)[..]), Hw(kind)[..], run);
      AcquireKeepsAccounts(old(Bars(kind)[..]), Bars(kind)[..], old(Hw(kind)[..]), Hw(kind)[..], run,
                           runs, if kind.Expa? then expaBoot else bulkBoot, area);
      if kind.Expa? {
        OtherKindKeepsAccounts(bulk[..], bulkHw[..], Bulk, runs, bulkBoot, area, run);
      } else {
        OtherKindKeepsAccounts(expa[..], expaHw[..], Expa, runs, expaBoot, area, run);
      }
      runs := runs[area := run];
      ok := true;
    }

    /** bar_find_any(): expansion windows first, then bulk windows. */
    method BarFindAny(area: Area, canAlloc: bool) returns (ok: bool)
      requires Valid() && !area.held && area.req.size > 0
      modifies this, area, expa, bulk, expaHw, bulkHw
      ensures Valid()
      ensures var t := FindAny(area.req, old(expa[..]), old(bulk[..]), canAlloc);
        && (ok <==> t.Some?)
        && (ok ==> runs == old(runs)[area := t.value])
        && (!ok ==> !area.held && runs == old(runs) && expa[..] == old(expa[..]) && bulk[..] == old(bulk[..]))
    {
      hide Accounted, TryKind;
      ok := TryClass(area, Expa, canAlloc);
      if !ok {
        ok := TryClass(area, Bulk, canAlloc);
      }
    }

    /** nfp_plat_acquire() */
    method Acquire(area: Area) returns (err: Error)
      requires Valid() && !area.held && area.req.size > 0
      modifies this, area, expa, bulk, expaHw, bulkHw
      ensures Valid()
      ensures var t := Choose(area.req, old(expa[..]), old(bulk[..]));
        && err == (if t.Some? then Ok else ENOSPC)
        && (t.Some? ==> runs == old(runs)[area := t.value])
        && (t.None? ==> !area.held && runs == old(runs) && expa[..] == old(expa[..]) && bulk[..] == old(bulk[..]))
      ensures err == Ok ==> area.resStart == BarBase(area.kind) + area.id * BarSize(area.kind) + area.offset
      ensures err == Ok ==> area.resEnd + 1 == area.resStart + area.req.size
    {
      hide Accounted, FindAny;
      var ok := BarFindAny(area, false);
      if !ok {
        ok := BarFindAny(area, true);
      }
      if !ok {
        return ENOSPC;
      }
      SetResource(area);
      return Ok;
    }

    method SetResource(area: Area)
      requires Valid() && area in runs && area.req.size > 0
      modifies area`resStart, area`resEnd
      ensures Valid()
      ensures area.resStart == BarBase(area.kind) + area.id * BarSize(area.kind) + area.offset
      ensures area.resEnd + 1 == area.resStart + area.req.size
    {
      hide Accounted, BitAnd;
      assert area.Describes(runs[area]);
      var physOffset := area.physAddr + area.offset;
      area.resStart := physOffset;
      area.resEnd := physOffset + area.req.size - 1;
    }

    /** nfp_plat_release() */
    method Release(area: Area)
      requires Valid() && area in runs
      modifies this, area, expa, bulk
      ensures Valid() && runs == old(runs) - {area} && !area.held
    {
      hide Accounted, Releases, BitAnd;
      assert area.Describes(runs[area]);
      var kind, run := area.kind, Run(area.kind, area.id, area.bars, area.req.Csr(area.kind));
      Lengths();
      HeldIsUsed(Bars(kind)[..], Hw(kind)[..], kind, runs, if kind.Expa? then expaBoot else bulkBoot, area);
      UnlockRun(Bars(kind), run);
      ReleaseKeepsAccounts(old(Bars(kind)[..]), Bars(kind)[..], Hw(kind)[..], runs,
                           if kind.Expa? then expaBoot else bulkBoot, area);
      if kind.Expa? {
        OtherKindKeepsAccounts(bulk[..], bulkHw[..], Bulk, runs, bulkBoot, area, run);
      } else {
        OtherKindKeepsAccounts(expa[..], expaHw[..], Expa, runs, expaBoot, area, run);
      }
      runs := runs - {area};
      area.held := false;
    }

    lemma Lengths()
      requires Accounts()
      ensures expa.Length == expaHw.Length == EXPA_BARS && bulk.Length == bulkHw.Length == BULK_BARS
    {
    }
  }

  /** bar_find()'s effect on the windows. */
  ghost predicate LocksRun(bar: seq<Bar>, bar': seq<Bar>, run: Run) {
    && |bar'| == |bar| && run.id + run.bars <= |bar|
    && (forall i :: 0 <= i < |bar| ==>
          bar'[i] == if run.id <= i < run.id + run.bars then Locked(bar[i], CsrAt(run, i)) else bar[i])
  }

  lemma HeldIsUsed<A>(bar: seq<Bar>, hw: seq<u32>, kind: Kind, runs: map<A, Run>, boot: seq<nat>, a: A)
    requires Accounted(bar, hw, kind, runs, boot) && a in runs && runs[a].kind == kind
    ensures runs[a].id + runs[a].bars <= |bar|
    ensures forall i :: runs[a].id <= i < runs[a].id + runs[a].bars ==> bar[i].usage > 0
  {
    forall i | runs[a].id <= i < runs[a].id + runs[a].bars ensures bar[i].usage > 0 {
      assert a in Holders(runs, kind, i);
      assert BarOk(bar[i], boot[i], Holders(runs, kind, i));
    }
  }

  // --- Runs ------------------------------------------------------------------------

  /** Areas are named by the position of the operation that asked for them. */
  datatype Op = OpAcquire(r: Request) | OpRelease(k: nat)

  /** The windows, their registers, and the runs held, at one moment. */
  datatype Moment = Moment(expa: seq<Bar>, bulk: seq<Bar>, expaHw: seq<u32>, bulkHw: seq<u32>, runs: map<nat, Run>)
  {
    function Bars(kind: Kind): seq<Bar> { if kind.Expa? then expa else bulk }

    function Hw(kind: Kind): seq<u32> { if kind.Expa? then expaHw else bulkHw }
  }

  ghost function Now(p: Plat, areas: map<nat, Area>): Moment
    reads p, p.expa, p.bulk, p.expaHw, p.bulkHw
  {
    Moment(p.expa[..], p.bulk[..], p.expaHw[..], p.bulkHw[..], ByNumber(p.runs, areas))
  }

  ghost function ByNumber(byArea: map<Area, Run>, areas: map<nat, Area>): map<nat, Run> {
    map k | k in areas && areas[k] in byArea :: byArea[areas[k]]
  }

  /** How operation number n changes which runs are held: an acquisition adds
      the run the allocator chooses, if there is one; a release takes one away. */
  ghost predicate Moves(m: Moment, n: nat, op: Op, m': Moment) {
    match op
    case OpAcquire(r) =>
      var c := if r.size > 0 then Choose(r, m.expa, m.bulk) else None;
      if c.Some? then m'.runs == m.runs[n := c.value]
      else m'.runs == m.runs && m'.expa == m.expa && m'.bulk == m.bulk
    case OpRelease(k) =>
      m'.runs == m.runs - {k}
  }

  /** Accounts by area and accounts by number say the same. */
  lemma Renamed(bar: seq<Bar>, hw: seq<u32>, kind: Kind, byArea: map<Area, Run>, boot: seq<nat>,
                areas: map<nat, Area>, n: nat)
    requires Accounted(bar, hw, kind, byArea, boot) && Named(byArea, areas, n)
    ensures Accounted(bar, hw, kind, ByNumber(byArea, areas), boot)
  {
    var runs := ByNumber(byArea, areas);
    forall k | k in areas ensures areas[k] in byArea {
      assert areas[k] in areas.Values;
    }
    forall i | 0 <= i < |bar| ensures BarOk(bar[i], boot[i], Holders(runs, kind, i)) {
      SameCount(Holders(runs, kind, i), Holders(byArea, kind, i), areas);
      assert BarOk(bar[i], boot[i], Holders(byArea, kind, i));
    }
    forall k, i | k in runs && 0 <= i < |bar| && Covers(runs[k], kind, i)
      ensures HolderOk(bar[i], hw[i], runs[k], i)
    {
      assert HolderOk(bar[i], hw[i], byArea[areas[k]], i);
    }
  }

  lemma {:induction false} SameCount(s: set<nat>, t: set<Area>, areas: map<nat, Area>)
    requires forall k :: k in s ==> k in areas && areas[k] in t
    requires forall a :: a in t ==> exists k :: k in s && areas[k] == a
    requires forall j, k :: j in areas && k in areas && j != k ==> areas[j] != areas[k]
    ensures |s| == |t|
  {
    if s == {} {
      assert t == {};
    } else {
      var k :| k in s;
      SameCount(s - {k}, t - {areas[k]}, areas);
    }
  }

  /** A run of acquisitions and releases from any boot state: at every moment
      each window's usage count, lock and contents are what the runs held and
      the reservations demand. */
  method AnyRun(expaBoot: seq<nat>, bulkBoot: seq<nat>, expaCsr: seq<u32>, bulkCsr: seq<u32>, ops: seq<Op>)
    returns (p: Plat, ghost trace: seq<Moment>)
    requires |expaBoot| == |expaCsr| == EXPA_BARS && |bulkBoot| == |bulkCsr| == BULK_BARS
    ensures p.Valid() && |trace| == |ops| + 1 && trace[0].runs == map[]
    ensures forall n :: 0 <= n < |ops| ==> Moves(trace[n], n, ops[n], trace[n + 1])
    ensures forall n :: 0 <= n <= |ops| ==> Accounted(trace[n].expa, trace[n].expaHw, Expa, trace[n].runs, expaBoot)
    ensures forall n :: 0 <= n <= |ops| ==> Accounted(trace[n].bulk, trace[n].bulkHw, Bulk, trace[n].runs, bulkBoot)
    ensures trace[|ops|].expa == p.expa[..] && trace[|ops|].bulk == p.bulk[..]
    ensures trace[|ops|].runs == map[] ==>
              AsAtBoot(trace[|ops|].expa, expaBoot) && AsAtBoot(trace[|ops|].bulk, bulkBoot)
  {
    hide Accounted, Moves, Named, ByNumber, Plat.Accounts;
    p := new Plat(expaBoot, bulkBoot, expaCsr, bulkCsr);
    var areas: map<nat, Area> := map[];
    NamedNothing();
    AccountedNow(p, areas, 0);
    trace := [Now(p, areas)];
    for n := 0 to |ops|
      invariant p.Valid() && p.expaBoot == expaBoot && p.bulkBoot == bulkBoot && Named(p.runs, areas, n)
      invariant fresh(p) && fresh(p.expa) && fresh(p.bulk) && fresh(p.expaHw) && fresh(p.bulkHw) && fresh(areas.Values)
      invariant |trace| == n + 1 && trace[n] == Now(p, areas) && trace[0].runs == map[]
      invariant forall i :: 0 <= i < n ==> Moves(trace[i], i, ops[i], trace[i + 1])
      invariant forall i :: 0 <= i <= n ==> Accounted(trace[i].expa, trace[i].expaHw, Expa, trace[i].runs, expaBoot)
      invariant forall i :: 0 <= i <= n ==> Accounted(trace[i].bulk, trace[i].bulkHw, Bulk, trace[i].runs, bulkBoot)
    {
      areas := OneOp(p, areas, n, ops[n]);
      AccountedNow(p, areas, n + 1);
      trace := trace + [Now(p, areas)];
    }
    if trace[|ops|].runs == map[] {
      NoneHeld(trace[|ops|].expa, trace[|ops|].expaHw, Expa, trace[|ops|].runs, expaBoot);
      NoneHeld(trace[|ops|].bulk, trace[|ops|].bulkHw, Bulk, trace[|ops|].runs, bulkBoot);
    }
  }

  /** Reserved windows are reserved as at boot, all others blank. */
  ghost predicate AsAtBoot(bar: seq<Bar>, boot: seq<nat>) {
    |bar| == |boot| && forall i :: 0 <= i < |bar| ==>
      bar[i].usage == boot[i] && (boot[i] == 0 ==> bar[i] == Bar(false, 0, 0))
  }

  lemma NoneHeld(bar: seq<Bar>, hw: seq<u32>, kind: Kind, runs: map<nat, Run>, boot: seq<nat>)
    requires Accounted(bar, hw, kind, runs, boot) && runs == map[]
    ensures AsAtBoot(bar, boot)
  {
    forall i | 0 <= i < |bar| ensures bar[i].usage == boot[i] && (boot[i] == 0 ==> bar[i] == Bar(false, 0, 0)) {
      AllReleased(bar, hw, kind, runs, boot, i);
    }
  }

  /** Exactly the areas that hold a run are named, each once, by an operation
      before number n. */
  ghost predicate Named(byArea: map<Area, Run>, areas: map<nat, Area>, n: nat) {
    && areas.Values == byArea.Keys && (forall k :: k in areas ==> k < n)
    && (forall j, k :: j in areas && k in areas && j != k ==> areas[j] != areas[k])
  }

  lemma AccountedNow(p: Plat, areas: map<nat, Area>, n: nat)
    requires p.Valid() && Named(p.runs, areas, n)
    ensures Accounted(p.expa[..], p.expaHw[..], Expa, Now(p, areas).runs, p.expaBoot)
    ensures Accounted(p.bulk[..], p.bulkHw[..], Bulk, Now(p, areas).runs, p.bulkBoot)
  {
    hide Accounted, Named;
    Renamed(p.expa[..], p.expaHw[..], Expa, p.runs, p.expaBoot, areas, n);
    Renamed(p.bulk[..], p.bulkHw[..], Bulk, p.runs, p.bulkBoot, areas, n);
  }

  lemma NameMore(byArea: map<Area, Run>, areas: map<nat, Area>, n: nat, a: Area, run: Run)
    requires Named(byArea, areas, n) && a !in byArea
    ensures Named(byArea, areas, n + 1) && Named(byArea[a := run], areas[n := a], n + 1)
    ensures areas[n := a].Values == areas.Values + {a}
    ensures ByNumber(byArea[a := run], areas[n := a]) == ByNumber(byArea, areas)[n := run]
  {
    assert areas[n := a][n] == a;
    forall b | b in areas.Values ensures b in areas[n := a].Values {
      var k :| k in areas && areas[k] == b;
      assert areas[n := a][k] == b;
    }
    forall k | k in areas ensures areas[k] != a {
      assert areas[k] in areas.Values;
    }
  }

  lemma NameLess(byArea: map<Area, Run>, areas: map<nat, Area>, n: nat, k: nat)
    requires Named(byArea, areas, n) && k in areas
    ensures areas[k] in byArea && areas[k] in areas.Values && (areas - {k}).Values == areas.Values - {areas[k]}
    ensures Named(byArea - {areas[k]}, areas - {k}, n + 1)
    ensures ByNumber(byArea - {areas[k]}, areas - {k}) == ByNumber(byArea, areas) - {k}
  {
    assert areas[k] in areas.Values;
    var left := areas - {k};
    forall a | a in areas.Values - {areas[k]} ensures a in left.Values {
      var j :| j in areas && areas[j] == a;
      assert j in left && left[j] == a;
    }
  }

  lemma NamedNothing()
    ensures Named(map[], map[], 0) && ByNumber(map[], map[]) == map[]
  {
  }

  lemma NamedLater(byArea: map<Area, Run>, areas: map<nat, Area>, n: nat)
    requires Named(byArea, areas, n)
    ensures Named(byArea, areas, n + 1)
    ensures forall k :: k !in areas ==> ByNumber(byArea, areas) - {k} == ByNumber(byArea, areas)
  {
  }

  method OneOp(p: Plat, areas: map<nat, Area>, n: nat, op: Op) returns (areas': map<nat, Area>)
    requires p.Valid() && Named(p.runs, areas, n)
    modifies p, p.expa, p.bulk, p.expaHw, p.bulkHw, areas.Values
    ensures p.Valid() && Named(p.runs, areas', n + 1)
    ensures forall a :: a in areas'.Values ==> a in areas.Values || fresh(a)
    ensures Moves(old(Now(p, areas)), n, op, Now(p, areas'))
  {
    hide Accounted, Choose, Named, ByNumber;
    areas' := areas;
    NamedLater(p.runs, areas, n);
    match op
    case OpAcquire(r) =>
      if r.size > 0 {
        areas' := DoAcquire(p, areas, n, r);
      }
    case OpRelease(k) =>
      if k in areas {
        areas' := DoRelease(p, areas, n, k);
      }
  }

  method DoAcquire(p: Plat, areas: map<nat, Area>, n: nat, r: Request) returns (areas': map<nat, Area>)
    requires p.Valid() && Named(p.runs, areas, n) && r.size > 0
    modifies p, p.expa, p.bulk, p.expaHw, p.bulkHw
    ensures p.Valid() && Named(p.runs, areas', n + 1)
    ensures forall a :: a in areas'.Values ==> a in areas.Values || fresh(a)
    ensures Moves(old(Now(p, areas)), n, OpAcquire(r), Now(p, areas'))
  {
    hide Accounted, Choose, Named, ByNumber, Plat.Accounts;
    ghost var runs := p.runs;
    var area := new Area(r);
    NamedLater(runs, areas, n);
    var err := p.Acquire(area);
    areas' := areas;
    if err == Ok {
      areas' := areas[n := area];
      NameMore(runs, areas, n, area, p.runs[area]);
    }
  }

  method DoRelease(p: Plat, areas: map<nat, Area>, n: nat, k: nat) returns (areas': map<nat, Area>)
    requires p.Valid() && Named(p.runs, areas, n) && k in areas
    modifies p, p.expa, p.bulk, areas.Values
    ensures p.Valid() && Named(p.runs, areas', n + 1) && areas'.Values <= areas.Values
    ensures Moves(old(Now(p, areas)), n, OpRelease(k), Now(p, areas'))
  {
    hide Accounted, Named, ByNumber, Plat.Accounts;
    NameLess(p.runs, areas, n, k);
    p.Release(areas[k]);
    areas' := areas - {k};
  }

  lemma LockedContents(bar: seq<Bar>, bar': seq<Bar>, run: Run)
    requires LocksRun(bar, bar', run)
    ensures run.id + run.bars <= |bar| == |bar'|
    ensures forall i :: run.id <= i < run.id + run.bars ==> bar'[i].csr == CsrAt(run, i)
  {
  }

  lemma AcquiresBoth(bar: seq<Bar>, bar': seq<Bar>, hw: seq<u32>, hw': seq<u32>, run: Run)
    requires LocksRun(bar, bar', run) && |hw| == |hw'| == |bar|
    requires forall i :: 0 <= i < |hw'| ==>
      hw'[i] == if run.id <= i < run.id + run.bars then CsrAt(run, i) else hw[i]
    ensures Acquires(bar, bar', hw, hw', run)
  {
  }

  function Reserved(boot: nat, csr: u32): Bar {
    if boot == 0 then Bar(false, 0, 0) else Bar(true, boot, csr)
  }

  lemma BlankIsAccounted(bar: seq<Bar>, hw: seq<u32>, kind: Kind, boot: seq<nat>)
    requires |bar| == |hw| == |boot| == BarCount(kind)
    requires forall i :: 0 <= i < |bar| ==> bar[i].usage == boot[i] && (bar[i].locked <==> boot[i] > 0)
    requires forall i :: 0 <= i < |bar| ==> boot[i] == 0 ==> bar[i].csr == 0
    ensures Accounted<Area>(bar, hw, kind, map[], boot)
  {
    var runs: map<Area, Run> := map[];
    forall i | 0 <= i < |bar| ensures BarOk(bar[i], boot[i], Holders(runs, kind, i)) {
      assert Holders(runs, kind, i) == {};
    }
  }
}
