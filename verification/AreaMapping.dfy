/** User mappings of CPP areas and the scarce windows behind them:
    nfp_dev_cpp_vma_acquire(), nfp_dev_cpp_vma_release(),
    nfp_dev_cpp_vma_evict() and the fault handler, all under the area lock. */
module AreaMapping {

  datatype Error = Ok | Attached | EAGAIN | EOTHER

  /** struct nfp_dev_cpp_area; `acquired` is the state of its CPP area. */
  class Area {
    var vmas: seq<Vma>
    var acquired: bool
    /** How often acquiring the CPP area has failed. */
    ghost var failures: nat

    constructor ()
      ensures vmas == [] && !acquired
    {
      vmas, acquired, failures := [], false, 0;
    }

    /** nfp_cpp_area_acquire_nonblocking(): only ever on a released area. */
    method CppAcquire() returns (err: Error)
      requires !acquired
      modifies this`acquired, this`failures
      ensures err == Ok || err == EAGAIN || err == EOTHER
      ensures failures == old(failures) + (if err == Ok then 0 else 1)
      ensures acquired <==> err == Ok
    {
      err := *;
      if err == Attached {
        err := Ok;
      }
      acquired := err == Ok;
      if !acquired {
        failures := failures + 1;
      }
    }

    /** nfp_cpp_area_release(): only ever on an acquired area. */
    method CppRelease()
      requires acquired
      modifies this`acquired
      ensures !acquired
    {
      acquired := false;
    }
  }

  /** struct nfp_dev_cpp_vma; `attached` means it is on a list. */
  class Vma {
    const area: Area
    var attached: bool

    constructor (area: Area)
      ensures this.area == area && !attached
    {
      this.area, attached := area, false;
    }
  }

  predicate NoDuplicates<T(==)>(s: seq<T>) {
    forall i, j :: 0 <= i < j < |s| ==> s[i] != s[j]
  }

  /** The list with one element unlinked. */
  function Without<T(==)>(s: seq<T>, x: T): (r: seq<T>)
    ensures forall y :: y in r ==> y in s && y != x
    ensures forall y :: y in s ==> y == x || y in r
    ensures NoDuplicates(s) ==> NoDuplicates(r)
  {
    if s == [] then []
    else
      assert NoDuplicates(s) ==> NoDuplicates(s[1..]) && s[0] !in s[1..];
      if s[0] == x then Without(s[1..], x) else [s[0]] + Without(s[1..], x)
  }

  lemma HeadIsMember<T>(s: seq<T>)
    requires s != []
    ensures s[0] in s
  {
  }

  lemma {:induction false} WithoutAbsent<T>(s: seq<T>, x: T)
    requires x !in s
    ensures Without(s, x) == s
  {
    if s != [] {
      WithoutAbsent(s[1..], x);
    }
  }

  /** Unlinking the head of a list without duplicates leaves its tail. */
  lemma WithoutHead<T>(s: seq<T>)
    requires s != [] && NoDuplicates(s)
    ensures Without(s, s[0]) == s[1..]
  {
    WithoutAbsent(s[1..], s[0]);
  }

  /** Position, from i on, of the first area other than `mine`, if there is one. */
  function FirstOther(active: seq<Area>, mine: Area, i: nat): (k: nat)
    requires i <= |active|
    ensures i <= k <= |active|
    ensures forall m :: i <= m < k ==> active[m] == mine
    ensures k < |active| ==> active[k] != mine
    decreases |active| - i
  {
    if i == |active| || active[i] != mine then i else FirstOther(active, mine, i + 1)
  }

  lemma NoOther(active: seq<Area>, mine: Area)
    ensures FirstOther(active, mine, 0) == |active| <==> forall a :: a in active ==> a == mine
  {
    var k := FirstOther(active, mine, 0);
    if k < |active| {
      assert active[k] in active;
    }
  }

  /** The active areas when the first one other than `mine` has been evicted. */
  function Evicted(active: seq<Area>, mine: Area): seq<Area> {
    var k := FirstOther(active, mine, 0);
    if k < |active| then Without(active, active[k]) else active
  }

  class Cdev {
    /** Areas with mappings, in the order they were acquired. */
    var active: seq<Area>
    ghost var areas: set<Area>
    ghost var vmas: set<Vma>

    ghost predicate Valid()
      reads this, areas, vmas
    {
      && NoDuplicates(active) && (forall a :: a in active ==> a in areas)
      && (forall a :: a in areas ==> AreaOk(a))
      && (forall v :: v in vmas ==> v.area in areas && (v.attached <==> v in v.area.vmas))
    }

    /** On the active list, holding mappings and holding a CPP window are the
        same thing; the mappings are its own, each on its list once. */
    ghost predicate AreaOk(a: Area)
      reads this, a
    {
      && (a in active <==> a.vmas != [])
      && (a.acquired <==> a.vmas != [])
      && NoDuplicates(a.vmas)
      && (forall v :: v in a.vmas ==> v in vmas && v.area == a)
    }

    constructor ()
      ensures Valid() && active == [] && areas == {} && vmas == {}
    {
      active, areas, vmas := [], {}, {};
    }

    /** nfp_dev_cpp_vma_acquire() */
    method VmaAcquire(v: Vma) returns (err: Error)
      requires Valid() && v in vmas
      modifies this`active, v`attached, v.area
      ensures Valid() && err != Attached
      ensures v.area.failures == old(v.area.failures) + (if err == Ok then 0 else 1)
      ensures err == Ok ==> v.attached && v.area.acquired
      ensures err == Ok && !old(v.attached) ==> v.area.vmas == old(v.area.vmas) + [v]
      ensures err == Ok && !old(v.attached) ==>
        active == if old(v.area.vmas) == [] then old(active) + [v.area] else old(active)
      ensures err != Ok || old(v.attached) ==>
        active == old(active) && v.attached == old(v.attached) && v.area.vmas == old(v.area.vmas)
      ensures old(v.area.vmas) != [] ==> err == Ok
    {
      if v.attached {
        return Ok;
      }
      var area := v.area;
      if area.vmas == [] {
        err := area.CppAcquire();
        if err != Ok {
          return;
        }
        active := active + [area];
      }
      area.vmas := area.vmas + [v];
      v.attached := true;
      return Ok;
    }

    /** nfp_dev_cpp_vma_release() */
    method VmaRelease(v: Vma)
      requires Valid() && v in vmas
      modifies this`active, v`attached, v.area`vmas, v.area`acquired
      ensures Valid() && !v.attached
      ensures v.area.vmas == Without(old(v.area.vmas), v)
      ensures active == if old(v.attached) && v.area.vmas == [] then Without(old(active), v.area) else old(active)
    {
      var area := v.area;
      if !v.attached {
        WithoutAbsent(area.vmas, v);
        return;
      }
      area.vmas := Without(area.vmas, v);
      v.attached := false;
      if area.vmas == [] {
        active := Without(active, area);
        area.CppRelease();
      }
    }

    /** The inner loop of nfp_dev_cpp_vma_evict(): detach every mapping of one
        active area, which takes it off the active list. */
    method EvictArea(a: Area, thisVma: Vma?)
      requires Valid() && a in active && (thisVma != null ==> thisVma.area != a)
      modifies this`active, a`vmas, a`acquired, a.vmas
      ensures Valid() && a.vmas == [] && active == Without(old(active), a)
    {
      ghost var vmas0 := a.vmas;
      while a.vmas != []
        invariant Valid() && a in areas
        invariant forall v :: v in a.vmas ==> v in vmas0
        invariant active == if a.vmas == [] then Without(old(active), a) else old(active)
        decreases |a.vmas|
        modifies this`active, a`vmas, a`acquired, vmas0
      {
        var ctmp := a.vmas[0];
        assert ctmp in vmas && ctmp.area == a;
        assert ctmp != thisVma;     // BUG_ON(ctmp == this_cvma)
        WithoutHead(a.vmas);
        VmaRelease(ctmp);
      }
    }

    /** nfp_dev_cpp_vma_evict() on behalf of a mapping: the first active area
        other than its own loses all its mappings; without one, nothing. */
    method EvictOther(thisVma: Vma) returns (err: Error)
      requires Valid() && thisVma in vmas
      modifies this`active, areas, vmas
      ensures Valid() && thisVma.attached == old(thisVma.attached)
      ensures thisVma.area.failures == old(thisVma.area.failures)
      ensures err == Ok || err == EAGAIN
      ensures err == EAGAIN <==> forall a :: a in old(active) ==> a == thisVma.area
      ensures err == EAGAIN ==> active == old(active) && forall a :: a in areas ==> a.vmas == old(a.vmas)
      ensures err == Ok ==>
        var victim := old(active)[FirstOther(old(active), thisVma.area, 0)];
        && victim != thisVma.area && active == Evicted(old(active), thisVma.area)
        && forall a :: a in areas ==> a.vmas == if a == victim then [] else old(a.vmas)
    {
      var list := active;
      var i: nat := 0;
      ghost var k := FirstOther(active, thisVma.area, 0);
      while i < |list|
        invariant i <= k <= |list| && Valid() && active == list
        invariant forall a :: a in areas ==> a.vmas == old(a.vmas)
        invariant thisVma.attached == old(thisVma.attached)
        invariant thisVma.area.failures == old(thisVma.area.failures)
      {
        var a := list[i];
        assert a in active && a in areas && AreaOk(a);
        if a.vmas != [] && thisVma.area != a {
          EvictArea(a, thisVma);
          return Ok;
        }
        i := i + 1;
      }
      return EAGAIN;
    }

    /** nfp_dev_cpp_vma_evict() with no mapping to spare: everything goes. The
        traversal keeps the next element before the current one is unlinked. */
    method EvictAll() returns (err: Error)
      requires Valid()
      modifies this`active, areas, vmas
      ensures Valid() && active == []
      ensures forall a :: a in areas ==> a.vmas == [] && !a.acquired
      ensures err == if old(active) == [] then EAGAIN else Ok
    {
      hide Without, NoDuplicates, Cdev.AreaOk;
      err := EAGAIN;
      var list := active;
      var i: nat := 0;
      while i < |list|
        invariant i <= |list| && Valid() && active == list[i..]
        invariant err == if i == 0 then EAGAIN else Ok
        invariant areas == old(areas) && vmas == old(vmas)
      {
        var a := list[i];
        ActiveHead(list, i);
        if a.vmas != [] {
          EvictArea(a, null);
          err := Ok;
        }
        i := i + 1;
      }
      NoneActive();
    }

    lemma ActiveHead(list: seq<Area>, i: nat)
      requires Valid() && i < |list| && active == list[i..]
      ensures list[i] in active && list[i] in areas && list[i].vmas != []
      ensures forall v :: v in list[i].vmas ==> v in vmas
      ensures Without(active, list[i]) == list[i + 1..]
    {
      assert list[i] == active[0] && active[0] in active && AreaOk(list[i]);
      WithoutHead(active);
      assert active[1..] == list[i + 1..];
    }

    lemma NoneActive()
      requires Valid() && active == []
      ensures forall a :: a in areas ==> a.vmas == [] && !a.acquired
    {
      forall a | a in areas ensures a.vmas == [] && !a.acquired {
        assert AreaOk(a);
      }
    }

    /** nfp_cpp_mmap_fault(), the part under the lock. */
    method Fault(v: Vma) returns (err: Error)
      requires Valid() && v in vmas
      modifies this`active, areas, vmas
      ensures Valid()
      ensures err == Attached <==> old(v.attached)
      ensures err == Ok || err == Attached <==> v.attached
      ensures v.attached ==> v in v.area.vmas && v.area in active && v.area.acquired
      ensures err == Ok ==> v.area.vmas == old(v.area.vmas) + [v]
      ensures err != Ok ==> v.area.vmas == old(v.area.vmas)
      ensures err == Attached ==> active == old(active) && forall a :: a in areas ==> a.vmas == old(a.vmas)
      ensures old(v.area.vmas) != [] ==> v.attached && v.area.failures == old(v.area.failures)
      ensures v.area.failures == old(v.area.failures) ==>
                v.attached && forall a :: a in areas && a != v.area ==> a.vmas == old(a.vmas)
      ensures v.area.failures != old(v.area.failures) ==>
                var k := FirstOther(old(active), v.area, 0);
                var most := old(v.area.failures) + (if k == |old(active)| then 1 else 2);
                && old(v.area.failures) < v.area.failures <= most && (v.attached <==> v.area.failures < most)
                && forall a :: a in areas && a != v.area ==>
                     a.vmas == if k < |old(active)| && a == old(active)[k] then [] else old(a.vmas)
      ensures var left := if v.area.failures == old(v.area.failures) then old(active) else Evicted(old(active), v.area);
        active == if v.attached && old(v.area.vmas) == [] then left + [v.area] else left
      ensures !v.attached && FirstOther(old(active), v.area, 0) == |old(active)| ==> err == EAGAIN
    {
      if v.attached {
        return Attached;
      }
      err := VmaAcquire(v);
      if err != Ok {
        NoOther(active, v.area);
        err := EvictOther(v);
        if err == Ok {
          err := VmaAcquire(v);
        }
      }
      assert AreaOk(v.area);
    }

    /** nfp_dev_cpp_mmap() or nfp_cpp_mmap_open(): a new mapping, not on any
        list yet. */
    method Map(a: Area) returns (v: Vma)
      requires Valid() && a in areas
      modifies this`vmas
      ensures Valid() && fresh(v) && vmas == old(vmas) + {v} && v.area == a && !v.attached
    {
      v := new Vma(a);
      vmas := vmas + {v};
    }

    /** nfp_cpp_mmap_close(): the mapping is released and freed. */
    method Close(v: Vma)
      requires Valid() && v in vmas
      modifies this`active, this`vmas, v, v.area
      ensures Valid() && vmas == old(vmas) - {v}
      ensures v.area.vmas == Without(old(v.area.vmas), v)
      ensures active == if old(v.attached) && v.area.vmas == [] then Without(old(active), v.area) else old(active)
    {
      VmaRelease(v);
      vmas := vmas - {v};
    }

    lemma AttachedIsListed(v: Vma)
      requires Valid() && v in vmas
      ensures v.area in areas && (v.attached <==> v in v.area.vmas)
    {
    }

    /** Without mappings no area is active and none holds a window. */
    lemma NoMappingsNoWindows()
      requires Valid() && vmas == {}
      ensures active == [] && forall a :: a in areas ==> !a.acquired
    {
      forall a | a in areas ensures a.vmas == [] && !a.acquired && a !in active {
        assert AreaOk(a);
        if a.vmas != [] {
          HeadIsMember(a.vmas);
        }
      }
      if active != [] {
        HeadIsMember(active);
      }
    }

    /** A newly registered area. */
    method Register() returns (a: Area)
      requires Valid()
      modifies this`areas
      ensures Valid() && fresh(a) && areas == old(areas) + {a} && a.vmas == []
    {
      a := new Area();
      areas := areas + {a};
    }
  }

  // --- Runs ------------------------------------------------------------------------

  /** Areas and mappings are named by the order in which they are made. */
  datatype Op = OpRegister | OpMap(k: nat) | OpFault(j: nat) | OpClose(j: nat) | OpEvict

  /** What exists at one moment: the areas and mappings made so far, those
      mappings still open, the driver's lists and windows, and how often
      acquiring each area has failed. */
  datatype Moment = Moment(
    areas: seq<Area>, maps: seq<Vma>, open: set<Vma>,
    active: seq<Area>, lists: map<Area, seq<Vma>>, windows: set<Area>, failures: map<Area, nat>)
  {
    predicate IsOpen(j: nat) { j < |maps| && maps[j] in open && maps[j].area in lists }
  }

  ghost function Now(c: Cdev, areas: seq<Area>, maps: seq<Vma>): Moment
    reads c, c.areas
  {
    Moment(areas, maps, c.vmas, c.active, map a | a in c.areas :: a.vmas,
           set a | a in c.areas && a.acquired, map a | a in c.areas :: a.failures)
  }

  /** An area is active, has mappings and holds a window, or none of these. */
  ghost predicate Coherent(m: Moment) {
    && NoDuplicates(m.active) && (forall a :: a in m.active ==> a in m.lists)
    && (forall a :: a in m.windows ==> a in m.lists)
    && (forall a :: a in m.lists ==> (a in m.active <==> m.lists[a] != []) && (a in m.windows <==> m.lists[a] != []))
    && (forall a :: a in m.lists ==> NoDuplicates(m.lists[a]))
    && (forall a, v :: a in m.lists && v in m.lists[a] ==> v.area == a && v in m.open)
  }

  /** How one operation changes the mappings. */
  ghost predicate Moves(m: Moment, op: Op, m': Moment) {
    match op
    case OpRegister =>
      && |m'.areas| == |m.areas| + 1 && m.areas <= m'.areas && m'.areas[|m.areas|] !in m.lists
      && m'.maps == m.maps && m'.open == m.open && m'.lists == m.lists[m'.areas[|m.areas|] := []]
      && m'.active == m.active
    case OpMap(k) =>
      if k < |m.areas| && m.areas[k] in m.lists then
        && |m'.maps| == |m.maps| + 1 && m.maps <= m'.maps && m'.maps[|m.maps|].area == m.areas[k]
        && m'.maps[|m.maps|] !in m.open && m'.open == m.open + {m'.maps[|m.maps|]}
        && m'.areas == m.areas && m'.lists == m.lists && m'.active == m.active
      else m' == m
    case OpFault(j) =>
      if m.IsOpen(j) then
        && m'.areas == m.areas && m'.maps == m.maps && m'.open == m.open
        && Faulted(m, m.maps[j], m')
      else m' == m
    case OpClose(j) =>
      if m.IsOpen(j) then
        var v := m.maps[j];
        && m'.areas == m.areas && m'.maps == m.maps && m'.open == m.open - {v}
        && m'.lists == m.lists[v.area := Without(m.lists[v.area], v)]
        && m'.active == (if v in m.lists[v.area] && m'.lists[v.area] == [] then Without(m.active, v.area) else m.active)
      else m' == m
    case OpEvict =>
      && m'.areas == m.areas && m'.maps == m.maps && m'.open == m.open && m'.lists.Keys == m.lists.Keys
      && m'.active == [] && forall a :: a in m'.lists ==> m'.lists[a] == []
  }

  /** A fault of a mapping that is attached already changes nothing. Any other
      ends up with its mapping attached at the tail, unless acquiring the area
      fails, and then again after an eviction, or once with nobody to evict.
      Only if it fails is anybody evicted: the first active area but its own. */
  ghost predicate Faulted(m: Moment, v: Vma, m': Moment) {
    && v.area in m.lists && v.area in m.failures && m'.lists.Keys == m.lists.Keys && m'.failures.Keys == m.failures.Keys
    && m.failures[v.area] <= m'.failures[v.area]
    && var failed, k := m'.failures[v.area] - m.failures[v.area], FirstOther(m.active, v.area, 0);
       var left := if failed == 0 then m.active else Evicted(m.active, v.area);
       var lists := m'.lists[v.area];
       && failed <= (if m.lists[v.area] != [] then 0 else if k == |m.active| then 1 else 2)
       && lists == (if v in m.lists[v.area] || failed == (if k == |m.active| then 1 else 2) then m.lists[v.area]
                    else m.lists[v.area] + [v])
       && m'.active == (if m.lists[v.area] == [] && lists != [] then left + [v.area] else left)
       && (forall a :: a in m.lists && a != v.area ==>
             m'.lists[a] == if failed > 0 && k < |m.active| && a == m.active[k] then [] else m.lists[a])
  }

  /** A run of registrations, mappings, faults, closes and evictions on a new
      character device. */
  method AnyRun(ops: seq<Op>) returns (c: Cdev, ghost trace: seq<Moment>)
    ensures c.Valid() && |trace| == |ops| + 1
    ensures trace[0] == Moment([], [], {}, [], map[], {}, map[])
    ensures trace[|ops|] == Now(c, trace[|ops|].areas, trace[|ops|].maps)
    ensures forall k :: 0 <= k < |ops| ==> Moves(trace[k], ops[k], trace[k + 1])
    ensures forall k :: 0 <= k <= |ops| ==> Coherent(trace[k])
  {
    hide Moves, Coherent;
    c := new Cdev();
    var areas: seq<Area>, maps: seq<Vma>, open: set<Vma> := [], [], {};
    trace := [Now(c, areas, maps)];
    ValidIsCoherent(c, areas, maps);
    for i := 0 to |ops|
      invariant c.Valid() && fresh(c) && fresh(c.areas) && fresh(c.vmas)
      invariant c.vmas == open && forall a :: a in areas ==> a in c.areas
      invariant |trace| == i + 1 && trace[i] == Now(c, areas, maps)
      invariant trace[0] == Moment([], [], {}, [], map[], {}, map[])
      invariant forall k :: 0 <= k < i ==> Moves(trace[k], ops[k], trace[k + 1])
      invariant forall k :: 0 <= k <= i ==> Coherent(trace[k])
    {
      areas, maps, open := OneOp(c, areas, maps, open, ops[i]);
      ValidIsCoherent(c, areas, maps);
      trace := trace + [Now(c, areas, maps)];
    }
  }

  method OneOp(c: Cdev, areas: seq<Area>, maps: seq<Vma>, open: set<Vma>, op: Op)
    returns (areas': seq<Area>, maps': seq<Vma>, open': set<Vma>)
    requires c.Valid() && c.vmas == open && forall a :: a in areas ==> a in c.areas
    modifies c, c.areas, c.vmas
    ensures c.Valid() && c.vmas == open' && forall a :: a in areas' ==> a in c.areas
    ensures forall a :: a in c.areas ==> a in old(c.areas) || fresh(a)
    ensures forall v :: v in c.vmas ==> v in old(c.vmas) || fresh(v)
    ensures Moves(old(Now(c, areas, maps)), op, Now(c, areas', maps'))
  {
    areas', maps', open' := areas, maps, open;
    match op
    case OpRegister =>
      areas' := DoRegister(c, areas, maps);
    case OpMap(k) =>
      if k < |areas| {
        maps' := DoMap(c, areas, maps, k);
        open' := open + {maps'[|maps|]};
      }
    case OpFault(j) =>
      if j < |maps| && maps[j] in open {
        DoFault(c, areas, maps, j);
      }
    case OpClose(j) =>
      if j < |maps| && maps[j] in open {
        DoClose(c, areas, maps, j);
        open' := open - {maps[j]};
      }
    case OpEvict =>
      var _ := c.EvictAll();
  }

  method DoRegister(c: Cdev, areas: seq<Area>, maps: seq<Vma>) returns (areas': seq<Area>)
    requires c.Valid()
    modifies c`areas
    ensures |areas'| == |areas| + 1 && areas <= areas'
    ensures c.Valid() && c.areas == old(c.areas) + {areas'[|areas|]} && fresh(areas'[|areas|])
    ensures Moves(old(Now(c, areas, maps)), OpRegister, Now(c, areas', maps))
  {
    var a := c.Register();
    areas' := areas + [a];
    assert Now(c, areas', maps).lists == old(Now(c, areas, maps)).lists[a := []];
  }

  method DoMap(c: Cdev, areas: seq<Area>, maps: seq<Vma>, k: nat) returns (maps': seq<Vma>)
    requires c.Valid() && k < |areas| && areas[k] in c.areas
    modifies c`vmas
    ensures c.Valid() && |maps'| == |maps| + 1 && fresh(maps'[|maps|]) && c.vmas == old(c.vmas) + {maps'[|maps|]}
    ensures Moves(old(Now(c, areas, maps)), OpMap(k), Now(c, areas, maps'))
  {
    var v := c.Map(areas[k]);
    maps' := maps + [v];
    assert Now(c, areas, maps').lists == old(Now(c, areas, maps)).lists;
  }

  method DoFault(c: Cdev, areas: seq<Area>, maps: seq<Vma>, j: nat)
    requires c.Valid() && j < |maps| && maps[j] in c.vmas
    modifies c`active, c.areas, c.vmas
    ensures c.Valid()
    ensures Moves(old(Now(c, areas, maps)), OpFault(j), Now(c, areas, maps))
  {
    hide Cdev.Valid, Cdev.AreaOk, FirstOther, Evicted, Without, NoDuplicates;
    var v := maps[j];
    ghost var m := Now(c, areas, maps);
    c.AttachedIsListed(v);
    var _ := c.Fault(v);
    assert Faulted(m, v, Now(c, areas, maps));
  }

  method DoClose(c: Cdev, areas: seq<Area>, maps: seq<Vma>, j: nat)
    requires c.Valid() && j < |maps| && maps[j] in c.vmas
    modifies c`active, c`vmas, c.areas, c.vmas
    ensures c.Valid() && c.vmas == old(c.vmas) - {maps[j]}
    ensures Moves(old(Now(c, areas, maps)), OpClose(j), Now(c, areas, maps))
  {
    var v := maps[j];
    ghost var m := Now(c, areas, maps);
    c.Close(v);
    assert Now(c, areas, maps).lists == m.lists[v.area := Without(m.lists[v.area], v)];
  }

  lemma ValidIsCoherent(c: Cdev, areas: seq<Area>, maps: seq<Vma>)
    requires c.Valid()
    ensures Coherent(Now(c, areas, maps))
  {
    forall a | a in c.areas ensures c.AreaOk(a) {
    }
  }
}
