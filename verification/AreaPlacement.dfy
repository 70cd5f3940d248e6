/** Placement of requested areas in the offset space of the character device:
    nfp_dev_cpp_range_check(), do_cpp_area_request(), do_cpp_area_release(). */
module AreaPlacement {
  import opened Words

  const PAGE_SIZE: nat := 4096
  const TWO_64: nat := 0x1_0000_0000_0000_0000

  type u64 = x: nat | x < TWO_64

  /** The offset that asks for automatic placement. */
  const ANYWHERE: u64 := TWO_64 - 1

  /** A registered area; `mapped` says whether a VMA is attached to it. */
  datatype Area = Area(offset: u64, size: u64, mapped: bool)

  datatype Error = Ok | EINVAL | ETXTBSY | ENOENT | EBUSY | EALLOC

  function Add64(a: u64, b: u64): u64 { (a + b) % TWO_64 }

  function EndOf(a: Area): u64 { Add64(a.offset, a.size) }

  predicate CollidesWith(a: Area, offset: u64, size: u64) {
    offset < EndOf(a) && Add64(offset, size) > a.offset
  }

  predicate Collides(list: seq<Area>, offset: u64, size: u64) {
    exists i :: 0 <= i < |list| && CollidesWith(list[i], offset, size)
  }

  // --- What placement is for -----------------------------------------------------

  predicate InRange(x: nat, offset: nat, size: nat) { offset <= x < offset + size }

  ghost predicate Shares(o1: nat, s1: nat, o2: nat, s2: nat) {
    exists x: nat :: InRange(x, o1, s1) && InRange(x, o2, s2)
  }

  predicate FitsBelow(offset: u64, size: u64) { offset + size < TWO_64 }

  ghost predicate Disjoint(list: seq<Area>) {
    forall i, j :: 0 <= i < j < |list| ==> !Shares(list[i].offset, list[i].size, list[j].offset, list[j].size)
  }

  ghost predicate PageAligned(list: seq<Area>) {
    forall i :: 0 <= i < |list| ==> list[i].offset % PAGE_SIZE == 0 && list[i].size % PAGE_SIZE == 0
  }

  /** Ranges are page aligned, end inside the 64-bit space, and never meet. */
  ghost predicate Good(list: seq<Area>) {
    PageAligned(list) && Disjoint(list) && forall i :: 0 <= i < |list| ==> FitsBelow(list[i].offset, list[i].size)
  }

  ghost predicate SharesSome(list: seq<Area>, offset: u64, size: u64) {
    exists i :: 0 <= i < |list| && Shares(list[i].offset, list[i].size, offset, size)
  }

  /** For ranges that do not wrap, no collision means nothing shared, and a
      collision of non-empty ranges means something shared. */
  lemma CheckOfOne(a: Area, offset: u64, size: u64)
    requires FitsBelow(a.offset, a.size) && FitsBelow(offset, size)
    ensures Shares(a.offset, a.size, offset, size) ==> CollidesWith(a, offset, size)
    ensures CollidesWith(a, offset, size) && a.size > 0 && size > 0 ==> Shares(a.offset, a.size, offset, size)
  {
    if CollidesWith(a, offset, size) && a.size > 0 && size > 0 {
      var x := if a.offset < offset then offset else a.offset;
      assert InRange(x, a.offset, a.size) && InRange(x, offset, size);
    }
  }

  ghost predicate NonEmpty(list: seq<Area>) {
    forall i :: 0 <= i < |list| ==> list[i].size > 0
  }

  /** Exactly which requests the collision check judges rightly, whatever is
      registered: those that end inside the 64-bit space, and those that start
      in its last page, which no well-formed area can reach. */
  lemma CheckIsExactIff(offset: u64, size: u64)
    requires offset % PAGE_SIZE == 0 && size % PAGE_SIZE == 0 && size > 0
    ensures (forall list: seq<Area> :: Good(list) && NonEmpty(list) ==>
               (Collides(list, offset, size) <==> SharesSome(list, offset, size)))
       <==> FitsBelow(offset, size) || offset >= TWO_64 - PAGE_SIZE
  {
    if FitsBelow(offset, size) || offset >= TWO_64 - PAGE_SIZE {
      forall list: seq<Area> | Good(list) && NonEmpty(list)
        ensures Collides(list, offset, size) <==> SharesSome(list, offset, size)
      {
        forall i | 0 <= i < |list|
          ensures CollidesWith(list[i], offset, size) <==> Shares(list[i].offset, list[i].size, offset, size)
        {
          if FitsBelow(offset, size) {
            CheckOfOne(list[i], offset, size);
          } else {
            EndsBeforeLastPage(list[i]);
          }
        }
      }
    } else {
      var witness' := [Area(offset, PAGE_SIZE, false)];
      assert Good(witness') && NonEmpty(witness');
      assert Shares(offset, PAGE_SIZE, offset, size) by {
        assert InRange(offset, offset, PAGE_SIZE) && InRange(offset, offset, size);
      }
      assert SharesSome(witness', offset, size) by {
        assert Shares(witness'[0].offset, witness'[0].size, offset, size);
      }
      assert Add64(offset, size) == offset + size - TWO_64;
      assert !CollidesWith(witness'[0], offset, size);
      assert !Collides(witness', offset, size);
    }
  }

  lemma EndsBeforeLastPage(a: Area)
    requires FitsBelow(a.offset, a.size) && a.offset % PAGE_SIZE == 0 && a.size % PAGE_SIZE == 0
    ensures EndOf(a) == a.offset + a.size <= TWO_64 - PAGE_SIZE
  {
  }

  // --- Automatic placement ---------------------------------------------------------

  /** First end, from position i on, at which the range collides with nothing. */
  function FirstFreeEnd(list: seq<Area>, i: nat, size: u64): (r: (bool, u64))
    requires i <= |list|
    decreases |list| - i
  {
    if i == |list| then (false, 0)
    else if !Collides(list, EndOf(list[i]), size) then (true, EndOf(list[i]))
    else FirstFreeEnd(list, i + 1, size)
  }

  /** Offset chosen for an automatic request, and whether there is one. */
  function Place(list: seq<Area>, size: u64): (bool, u64) {
    if !Collides(list, 0, size) then (true, 0) else FirstFreeEnd(list, 0, size)
  }

  lemma {:induction false} LargestEnd(list: seq<Area>) returns (k: nat)
    requires list != []
    ensures k < |list| && forall i :: 0 <= i < |list| ==> EndOf(list[i]) <= EndOf(list[k])
  {
    if |list| == 1 {
      return 0;
    }
    var init := list[..|list| - 1];
    k := LargestEnd(init);
    if EndOf(init[k]) < EndOf(list[|list| - 1]) {
      k := |list| - 1;
    }
    forall i | 0 <= i < |list| ensures EndOf(list[i]) <= EndOf(list[k]) {
      if i < |init| {
        assert list[i] == init[i];
      }
    }
  }

  lemma {:induction false} FirstFreeEndFinds(list: seq<Area>, i: nat, size: u64, k: nat)
    requires i <= k < |list| && !Collides(list, EndOf(list[k]), size)
    ensures var (found, offset) := FirstFreeEnd(list, i, size);
      found && !Collides(list, offset, size) && exists m :: i <= m <= k && EndOf(list[m]) == offset
    decreases k - i
  {
    if Collides(list, EndOf(list[i]), size) {
      FirstFreeEndFinds(list, i + 1, size, k);
    }
  }

  /** Automatic placement never fails, whatever is registered: the largest of
      the ends collides with nothing. It answers 0 whenever 0 is free. */
  lemma PlacementNeverFails(list: seq<Area>, size: u64)
    ensures var (found, offset) := Place(list, size);
      found && !Collides(list, offset, size)
      && (offset == 0 || exists m :: 0 <= m < |list| && EndOf(list[m]) == offset)
  {
    if Collides(list, 0, size) {
      var k := LargestEnd(list);
      assert !Collides(list, EndOf(list[k]), size);
      FirstFreeEndFinds(list, 0, size, k);
    }
  }

  predicate IsFirstFree(list: seq<Area>, size: u64, i: nat) {
    && i < |list| && !Collides(list, EndOf(list[i]), size)
    && forall k :: 0 <= k < i ==> Collides(list, EndOf(list[k]), size)
  }

  predicate FitsAtEnd(list: seq<Area>, size: u64, m: nat) {
    m < |list| && FitsBelow(EndOf(list[m]), size) && !Collides(list, EndOf(list[m]), size)
  }

  /** The placement is the lowest free offset at which the range fits exactly
      when offset 0 is free, or the first free end in list order is the least
      free end at which it fits. */
  lemma PlacementIsLowestIff(list: seq<Area>, size: u64)
    ensures var p := Place(list, size).1;
      (forall x: u64 :: x < p && FitsBelow(x, size) ==> Collides(list, x, size))
      <==>
      (Collides(list, 0, size) ==>
         forall i: nat, m: nat :: IsFirstFree(list, size, i) && FitsAtEnd(list, size, m) ==>
           EndOf(list[i]) <= EndOf(list[m]))
  {
    hide Collides;
    if Collides(list, 0, size) {
      PlacementNeverFails(list, size);
      var i := FirstFreeIndex(list, 0, size);
      if forall m: nat :: FitsAtEnd(list, size, m) ==> EndOf(list[i]) <= EndOf(list[m]) {
        forall x: u64 | x < EndOf(list[i]) && FitsBelow(x, size) ensures Collides(list, x, size) {
          if !Collides(list, x, size) {
            var m := SlideDown(list, x, size);
          }
        }
      } else {
        var m: nat :| FitsAtEnd(list, size, m) && EndOf(list[m]) < EndOf(list[i]);
      }
    }
  }

  lemma {:induction false} FirstFreeIndex(list: seq<Area>, i: nat, size: u64) returns (k: nat)
    requires i <= |list| && FirstFreeEnd(list, i, size).0
    requires forall j :: 0 <= j < i ==> Collides(list, EndOf(list[j]), size)
    ensures IsFirstFree(list, size, k) && EndOf(list[k]) == FirstFreeEnd(list, i, size).1
    ensures forall j :: IsFirstFree(list, size, j) ==> j == k
    decreases |list| - i
  {
    hide Collides;
    if Collides(list, EndOf(list[i]), size) {
      k := FirstFreeIndex(list, i + 1, size);
    } else {
      k := i;
    }
  }

  /** With offset 0 taken, a free range can be slid down until it rests on the
      end of an area, and is still free there. */
  lemma SlideDown(list: seq<Area>, x: u64, size: u64) returns (m: nat)
    requires FitsBelow(x, size) && !Collides(list, x, size) && Collides(list, 0, size)
    ensures FitsAtEnd(list, size, m) && EndOf(list[m]) <= x
  {
    hide Collides, EndOf;
    var e: u64 := 0;
    m := |list|;
    for k := 0 to |list|
      invariant e <= x && (if m < |list| then EndOf(list[m]) == e else e == 0)
      invariant forall j :: 0 <= j < k && EndOf(list[j]) <= x ==> EndOf(list[j]) <= e
    {
      if e < EndOf(list[k]) <= x {
        e, m := EndOf(list[k]), k;
      }
    }
    StillFree(list, x, size, e);
  }

  lemma StillFree(list: seq<Area>, x: u64, size: u64, e: u64)
    requires FitsBelow(x, size) && !Collides(list, x, size) && e <= x
    requires forall m :: 0 <= m < |list| && EndOf(list[m]) <= x ==> EndOf(list[m]) <= e
    ensures !Collides(list, e, size)
  {
    forall m | 0 <= m < |list| ensures !CollidesWith(list[m], e, size) {
      assert !CollidesWith(list[m], x, size);
    }
  }

  /** It need not be: with two areas registered, the higher one first, the
      page between them is free and the placement is behind both. */
  lemma PlacementSkipsAGap()
    ensures var list := [Area(8192, 4096, false), Area(0, 4096, false)];
      Good(list) && Place(list, 4096) == (true, 12288) && !Collides(list, 4096, 4096)
  {
    var list := [Area(8192, 4096, false), Area(0, 4096, false)];
    assert CollidesWith(list[1], 0, 4096);
    assert Collides(list, 0, 4096);
    assert EndOf(list[0]) == 12288;
    assert !Collides(list, 12288, 4096);
  }

  // --- Requests and releases -------------------------------------------------------

  /** Where a request ends up, if it is placed at all. */
  function PlacedAt(list: seq<Area>, offset: u64, size: u64): u64 {
    if offset == ANYWHERE then Place(list, size).1 else offset
  }

  /** do_cpp_area_request() */
  function Request(list: seq<Area>, offset: u64, size: u64, canAlloc: bool): (Error, seq<Area>) {
    if size % PAGE_SIZE != 0 || (offset != ANYWHERE && offset % PAGE_SIZE != 0) then (EINVAL, list)
    else if Collides(list, PlacedAt(list, offset, size), size) then (ETXTBSY, list)
    else if !canAlloc then (EALLOC, list)
    else (Ok, list + [Area(PlacedAt(list, offset, size), size, false)])
  }

  function FirstAt(list: seq<Area>, offset: u64, i: nat): (r: nat)
    requires i <= |list|
    ensures i <= r <= |list| && (r < |list| ==> list[r].offset == offset)
    ensures forall k :: i <= k < r ==> list[k].offset != offset
    decreases |list| - i
  {
    if i == |list| || list[i].offset == offset then i else FirstAt(list, offset, i + 1)
  }

  /** do_cpp_area_release() */
  function Release(list: seq<Area>, offset: u64): (Error, seq<Area>) {
    var i := FirstAt(list, offset, 0);
    if i >= |list| then (ENOENT, list)
    else if list[i].mapped then (EBUSY, list)
    else (Ok, list[..i] + list[i + 1..])
  }

  /** A request keeps the registered ranges good exactly when its own range,
      once placed, ends inside the 64-bit space. */
  lemma RequestKeepsGoodIff(list: seq<Area>, offset: u64, size: u64, canAlloc: bool)
    requires Good(list)
    ensures var (err, list') := Request(list, offset, size, canAlloc);
      && (err != Ok ==> list' == list)
      && (err == Ok ==> (Good(list') <==> FitsBelow(PlacedAt(list, offset, size), size)))
  {
    var (err, list') := Request(list, offset, size, canAlloc);
    var at := PlacedAt(list, offset, size);
    if err == Ok {
      assert list'[|list|] == Area(at, size, false);
      PlacementNeverFails(list, size);
      PlacedAligned(list, offset, size);
      if FitsBelow(at, size) {
        forall i | 0 <= i < |list| ensures !Shares(list[i].offset, list[i].size, at, size) {
          CheckOfOne(list[i], at, size);
        }
      }
    }
  }

  predicate Misaligned(offset: u64, size: u64) {
    size % PAGE_SIZE != 0 || (offset != ANYWHERE && offset % PAGE_SIZE != 0)
  }

  /** When a request is granted, and why it is not. An automatic one needs only
      a whole number of pages and memory; one for a given range that ends
      inside the space also needs that no registered area shares an offset
      with it. A misaligned request fails as such before anything else, and
      want of room is reported before want of memory. */
  lemma RequestIsGrantedIff(list: seq<Area>, offset: u64, size: u64, canAlloc: bool)
    ensures var err := Request(list, offset, size, canAlloc).0;
      && err in {Ok, EINVAL, ETXTBSY, EALLOC}
      && (err == EINVAL <==> Misaligned(offset, size))
      && (offset == ANYWHERE ==> (err == Ok <==> size % PAGE_SIZE == 0 && canAlloc) && err != ETXTBSY)
      && (offset != ANYWHERE && FitsBelow(offset, size) && size > 0 && Good(list) && NonEmpty(list) ==>
            && (err == Ok <==> !Misaligned(offset, size) && !SharesSome(list, offset, size) && canAlloc)
            && (err == ETXTBSY <==> !Misaligned(offset, size) && SharesSome(list, offset, size)))
  {
    hide Shares, CollidesWith, Place;
    PlacementNeverFails(list, size);
    if FitsBelow(offset, size) && size > 0 && Good(list) && NonEmpty(list) {
      forall i | 0 <= i < |list|
        ensures CollidesWith(list[i], offset, size) <==> Shares(list[i].offset, list[i].size, offset, size)
      {
        CheckOfOne(list[i], offset, size);
      }
    }
  }

  /** What is registered then: the new area behind the others, of the size and
      at the place asked for, or at one that shares no offset with the others
      if the range ends inside the space. */
  lemma RequestRegisters(list: seq<Area>, offset: u64, size: u64, canAlloc: bool)
    requires Good(list) && Request(list, offset, size, canAlloc).0 == Ok
    ensures var list' := Request(list, offset, size, canAlloc).1; var a := list'[|list|];
      && |list'| == |list| + 1 && list < list' && a.size == size && !a.mapped
      && (offset != ANYWHERE ==> a.offset == offset)
      && (FitsBelow(a.offset, size) ==> !SharesSome(list, a.offset, size))
  {
    hide Shares, CollidesWith, Place;
    PlacementNeverFails(list, size);
    var at := PlacedAt(list, offset, size);
    if FitsBelow(at, size) {
      forall i | 0 <= i < |list| ensures !Shares(list[i].offset, list[i].size, at, size) {
        CheckOfOne(list[i], at, size);
      }
    }
  }

  lemma PlacedAligned(list: seq<Area>, offset: u64, size: u64)
    requires Good(list) && (offset == ANYWHERE || offset % PAGE_SIZE == 0)
    ensures PlacedAt(list, offset, size) % PAGE_SIZE == 0
  {
    hide Place, Collides;
    PlacementNeverFails(list, size);
    forall m | 0 <= m < |list| ensures EndOf(list[m]) % PAGE_SIZE == 0 {
      EndAligned(list[m]);
    }
  }

  lemma EndAligned(a: Area)
    requires FitsBelow(a.offset, a.size) && a.offset % PAGE_SIZE == 0 && a.size % PAGE_SIZE == 0
    ensures EndOf(a) % PAGE_SIZE == 0
  {
  }

  /** An automatic request is never refused for want of room. */
  lemma AutomaticNeverBusy(list: seq<Area>, size: u64, canAlloc: bool)
    ensures Request(list, ANYWHERE, size, canAlloc).0 != ETXTBSY
  {
    PlacementNeverFails(list, size);
  }

  lemma ReleaseKeepsGood(list: seq<Area>, offset: u64)
    requires Good(list)
    ensures Good(Release(list, offset).1)
  {
    var i := FirstAt(list, offset, 0);
    var list' := Release(list, offset).1;
    if list' != list {
      assert forall k :: 0 <= k < |list'| ==> list'[k] == list[if k < i then k else k + 1];
    }
  }

  /** A release concerns the first area registered at the offset: it fails as
      missing without one and as busy if that one is mapped, and then changes
      nothing; otherwise it takes that one out. Among areas that hold
      something there is no other at that offset. */
  lemma ReleaseIsExact(list: seq<Area>, offset: u64)
    ensures var (err, list') := Release(list, offset);
      && (err == ENOENT <==> forall a :: a in list ==> a.offset != offset)
      && (err != Ok ==> list' == list)
      && (err != ENOENT ==>
            exists i: nat :: (
              && IsFirstAt(list, offset, i)
              && (err == EBUSY <==> list[i].mapped)
              && (err == Ok ==> list' == list[..i] + list[i + 1..])
              && (Good(list) && NonEmpty(list) ==>
                    forall k :: 0 <= k < |list| && k != i ==> list[k].offset != offset)))
  {
    var i := FirstAt(list, offset, 0);
    if i < |list| {
      assert IsFirstAt(list, offset, i);
      if Good(list) && NonEmpty(list) {
        forall k | 0 <= k < |list| && k != i ensures list[k].offset != offset {
          OffsetsDiffer(list, i, k);
        }
      }
    }
  }

  predicate IsFirstAt(list: seq<Area>, offset: u64, i: nat) {
    i < |list| && list[i].offset == offset && forall k :: 0 <= k < i ==> list[k].offset != offset
  }

  lemma OffsetsDiffer(list: seq<Area>, i: nat, k: nat)
    requires Good(list) && NonEmpty(list) && i < |list| && k < |list| && i != k
    ensures list[i].offset != list[k].offset
  {
    if list[i].offset == list[k].offset {
      assert InRange(list[i].offset, list[i].offset, list[i].size);
      assert InRange(list[i].offset, list[k].offset, list[k].size);
      assert Shares(list[i].offset, list[i].size, list[k].offset, list[k].size);
    }
  }

  /** A release undoes the request just granted exactly when every area from
      the first one at that offset on is just like the new one; among areas
      that hold something it always does. */
  lemma RequestThenReleaseIff(list: seq<Area>, offset: u64, size: u64)
    requires Request(list, offset, size, true).0 == Ok
    ensures var at := PlacedAt(list, offset, size);
      && (Release(Request(list, offset, size, true).1, at) == (Ok, list)
          <==> forall k :: FirstAt(list, at, 0) <= k < |list| ==> list[k] == Area(at, size, false))
      && (Good(list) && NonEmpty(list) && size > 0 && FitsBelow(at, size) ==>
            Release(Request(list, offset, size, true).1, at) == (Ok, list))
  {
    hide Collides, Place, FirstAt, Release, Good, NonEmpty;
    var at := PlacedAt(list, offset, size);
    ReleaseOfNewest(list, Area(at, size, false));
    if Good(list) && NonEmpty(list) && size > 0 && FitsBelow(at, size) {
      GrantedOffsetIsNew(list, offset, size);
    }
  }

  lemma ReleaseOfNewest(list: seq<Area>, a: Area)
    requires !a.mapped
    ensures Release(list + [a], a.offset) == (Ok, list)
       <==> forall k :: FirstAt(list, a.offset, 0) <= k < |list| ==> list[k] == a
  {
    hide FirstAt;
    var list' := list + [a];
    var i := FirstAt(list, a.offset, 0);
    FirstAtAppend(list, a, a.offset, 0);
    if i < |list| {
      WithoutFirst(list, a, i);
      assert Release(list', a.offset) == (Ok, list) ==> list[i] == a;
    } else {
      assert list'[..|list|] + list'[|list| + 1..] == list;
    }
  }

  lemma GrantedOffsetIsNew(list: seq<Area>, offset: u64, size: u64)
    requires Good(list) && NonEmpty(list) && size > 0
    requires Request(list, offset, size, true).0 == Ok && FitsBelow(PlacedAt(list, offset, size), size)
    ensures FirstAt(list, PlacedAt(list, offset, size), 0) == |list|
  {
    hide Place;
    var at := PlacedAt(list, offset, size);
    var list' := Request(list, offset, size, true).1;
    RequestKeepsGoodIff(list, offset, size, true);
    var i := FirstAt(list, at, 0);
    assert list'[|list|].offset == at;
    if i < |list| {
      OffsetsDiffer(list', i, |list|);
    }
  }

  lemma {:induction false} FirstAtAppend(list: seq<Area>, a: Area, offset: u64, i: nat)
    requires i <= |list| && a.offset == offset
    ensures FirstAt(list + [a], offset, i) == FirstAt(list, offset, i)
    decreases |list| - i
  {
    if i < |list| && list[i].offset != offset {
      FirstAtAppend(list, a, offset, i + 1);
    }
  }

  /** Taking element i out of list + [a] gives the list back exactly when the
      elements from i on all equal a. */
  lemma WithoutFirst(list: seq<Area>, a: Area, i: nat)
    requires i < |list|
    ensures (list + [a])[..i] + (list + [a])[i + 1..] == list <==> forall k :: i <= k < |list| ==> list[k] == a
  {
    var l := (list + [a])[..i] + (list + [a])[i + 1..];
    if l == list {
      var k: nat := |list|;
      while k > i
        invariant i <= k <= |list|
        invariant forall j :: k <= j < |list| ==> list[j] == a
      {
        k := k - 1;
        assert l[k] == (list + [a])[k + 1];
      }
    }
  }

  /** An area that shares nothing with a wrapping range ends before it, so it
      cannot collide with that range's first page either. */
  lemma ClearOfWrapped(a: Area, offset: u64, size: u64)
    requires FitsBelow(a.offset, a.size) && a.offset % PAGE_SIZE == 0 && a.size % PAGE_SIZE == 0
    requires offset % PAGE_SIZE == 0 && !FitsBelow(offset, size) && !Shares(a.offset, a.size, offset, size)
    ensures !CollidesWith(a, offset, PAGE_SIZE)
  {
    EndsBeforeLastPage(a);
    if offset < EndOf(a) && a.size > 0 {
      var x := if a.offset < offset then offset else a.offset;
      assert InRange(x, a.offset, a.size) && InRange(x, offset, size);
    }
  }

  /** An accepted non-empty range that wraps around breaks placement, whether
      its offset was asked for or chosen: either it already shares an offset
      with a registered area, or the next request for its own first page is
      accepted as well. */
  lemma WrapBreaksPlacement(list: seq<Area>, offset: u64, size: u64)
    requires Good(list) && size > 0 && !FitsBelow(PlacedAt(list, offset, size), size)
    requires Request(list, offset, size, true).0 == Ok
    ensures var list', at := Request(list, offset, size, true).1, PlacedAt(list, offset, size);
      || !Disjoint(list')
      || (Request(list', at, PAGE_SIZE, true).0 == Ok && !Disjoint(Request(list', at, PAGE_SIZE, true).1))
  {
    var list' := Request(list, offset, size, true).1;
    var at := PlacedAt(list, offset, size);
    var r := Area(at, size, false);
    PlacedAligned(list, offset, size);
    assert list' == list + [r] && list'[|list|] == r;
    if Disjoint(list') {
      forall i | 0 <= i < |list'| ensures !CollidesWith(list'[i], at, PAGE_SIZE) {
        if i < |list| {
          assert !Shares(list'[i].offset, list'[i].size, list'[|list|].offset, list'[|list|].size);
          ClearOfWrapped(list[i], at, size);
        } else {
          assert EndOf(r) == at + size - TWO_64;
        }
      }
      assert at % PAGE_SIZE == 0 && at != ANYWHERE;
      var list'' := Request(list', at, PAGE_SIZE, true).1;
      assert list''[|list|] == r && list''[|list| + 1] == Area(at, PAGE_SIZE, false);
      assert Shares(at, size, at, PAGE_SIZE) by {
        assert InRange(at, at, size) && InRange(at, at, PAGE_SIZE);
      }
    }
  }

  // --- Mapping a range ---------------------------------------------------------------

  /** The test nfp_dev_cpp_mmap() makes of an area. */
  predicate Selects(a: Area, offset: u64, size: u64) {
    a.offset <= offset && EndOf(a) >= Add64(offset, size)
  }

  predicate Contains(a: Area, offset: u64, size: u64) {
    a.offset <= offset && offset + size <= a.offset + a.size
  }

  /** The test is right about every well-formed area exactly when the range
      to map ends inside the 64-bit space. */
  lemma SelectionIsExactIff(offset: u64, size: u64)
    requires offset % PAGE_SIZE == 0 && size % PAGE_SIZE == 0
    ensures (forall a: Area :: Good([a]) ==> (Selects(a, offset, size) <==> Contains(a, offset, size)))
        <==> FitsBelow(offset, size)
  {
    if FitsBelow(offset, size) {
      forall a: Area | Good([a]) ensures Selects(a, offset, size) <==> Contains(a, offset, size) {
        assert [a][0] == a;
      }
    } else {
      var a := Area(0, TWO_64 - PAGE_SIZE, false);
      assert Good([a]);
      assert Selects(a, offset, size) && !Contains(a, offset, size);
    }
  }

  /** Of the registered areas at most one contains a given non-empty range. */
  lemma ContainerIsUnique(list: seq<Area>, offset: u64, size: u64, i: nat, k: nat)
    requires Good(list) && size > 0 && i < k < |list|
    ensures !(Contains(list[i], offset, size) && Contains(list[k], offset, size))
  {
    if Contains(list[i], offset, size) {
      assert InRange(offset, list[i].offset, list[i].size);
      assert !Shares(list[i].offset, list[i].size, list[k].offset, list[k].size);
      assert !InRange(offset, list[k].offset, list[k].size);
    }
  }

  /** Page of the area that the fault handler maps for the page `delta` bytes
      into a mapping; it does not look at where in the area the mapping starts. */
  function FaultPage(a: Area, delta: nat): Option<nat> {
    if delta >= a.size then None else Some(delta)
  }

  /** Every page of a mapping shows its own place in the area exactly when the
      mapping starts at the area's offset; a mapping of an inner range shows
      the pages from the start of the area instead. */
  lemma MappingShowsItsRangeIff(a: Area, offset: u64, size: u64)
    requires Contains(a, offset, size) && size > 0
    ensures forall delta: nat :: delta < size ==> FaultPage(a, delta).Some?
    ensures forall delta: nat :: FaultPage(a, delta).Some? ==> FaultPage(a, delta).value < a.size
    ensures (forall delta: nat :: delta < size ==> FaultPage(a, delta) == Some(offset + delta - a.offset))
        <==> offset == a.offset
  {
    assert FaultPage(a, 0) == Some(0);
  }

  // --- Runs ------------------------------------------------------------------------

  datatype Action = Ask(offset: u64, size: u64, canAlloc: bool) | Give(offset: u64) | Map(i: nat, mapped: bool)

  function Step(list: seq<Area>, a: Action): seq<Area> {
    match a
    case Ask(offset, size, canAlloc) => Request(list, offset, size, canAlloc).1
    case Give(offset) => Release(list, offset).1
    case Map(i, mapped) => if i < |list| then list[i := list[i].(mapped := mapped)] else list
  }

  function Run(acts: seq<Action>): seq<Area> {
    if acts == [] then [] else Step(Run(acts[..|acts| - 1]), acts[|acts| - 1])
  }

  /** The request, once placed, ends inside the 64-bit space. */
  predicate WellPlaced(list: seq<Area>, a: Action) {
    a.Ask? ==> FitsBelow(PlacedAt(list, a.offset, a.size), a.size)
  }

  /** After any run of requests, releases, mappings and unmappings whose ranges
      end inside the 64-bit space, the registered ranges are disjoint. */
  lemma {:induction false} RunStaysDisjoint(acts: seq<Action>)
    requires forall i :: 0 <= i < |acts| ==> WellPlaced(Run(acts[..i]), acts[i])
    ensures Good(Run(acts)) && Disjoint(Run(acts))
  {
    if acts != [] {
      var init, last := acts[..|acts| - 1], acts[|acts| - 1];
      forall i | 0 <= i < |init| ensures WellPlaced(Run(init[..i]), init[i]) {
        assert init[..i] == acts[..i];
      }
      RunStaysDisjoint(init);
      assert WellPlaced(Run(init), last);
      match last {
        case Ask(offset, size, canAlloc) => RequestKeepsGoodIff(Run(init), offset, size, canAlloc);
        case Give(offset) => ReleaseKeepsGood(Run(init), offset);
        case Map(i, mapped) =>
      }
    }
  }

  // --- The driver --------------------------------------------------------------------

  class Cdev {
    /** The list of registered areas, oldest first. */
    var reqs: seq<Area>

    constructor ()
      ensures reqs == []
    {
      reqs := [];
    }

    /** nfp_dev_cpp_range_check(): true is -ETXTBSY. */
    method RangeCheck(offset: u64, size: u64) returns (busy: bool)
      ensures busy == Collides(reqs, offset, size)
    {
      for i := 0 to |reqs|
        invariant forall k :: 0 <= k < i ==> !CollidesWith(reqs[k], offset, size)
      {
        var area := reqs[i];
        if offset < Add64(area.offset, area.size) && Add64(offset, size) > area.offset {
          assert CollidesWith(reqs[i], offset, size);
          return true;
        }
      }
      return false;
    }

    /** The search of do_cpp_area_request() for an automatic offset. */
    method FindSlot(size: u64) returns (busy: bool, offset: u64)
      ensures !busy && offset == Place(reqs, size).1
    {
      PlacementNeverFails(reqs, size);
      offset := 0;
      busy := RangeCheck(offset, size);
      if busy {
        var i: nat := 0;
        while i < |reqs|
          invariant i <= |reqs| && FirstFreeEnd(reqs, 0, size) == FirstFreeEnd(reqs, i, size)
          invariant busy
        {
          offset := Add64(reqs[i].offset, reqs[i].size);
          busy := RangeCheck(offset, size);
          if !busy {
            break;
          }
          i := i + 1;
        }
      }
    }

    /** do_cpp_area_request(); `placed` is the offset written back, `canAlloc`
        whether the area and its CPP handle can be allocated. */
    method AreaRequest(offset: u64, size: u64, canAlloc: bool) returns (err: Error, placed: u64)
      modifies this
      ensures (err, reqs) == Request(old(reqs), offset, size, canAlloc)
      ensures placed == if err == EINVAL then offset else PlacedAt(old(reqs), offset, size)
    {
      placed := offset;
      if size % PAGE_SIZE != 0 {
        return EINVAL, placed;
      }
      if offset != ANYWHERE && offset % PAGE_SIZE != 0 {
        return EINVAL, placed;
      }
      var busy := false;
      if offset == ANYWHERE {
        busy, placed := FindSlot(size);
      }
      if !busy {
        busy := RangeCheck(placed, size);
      }
      if busy {
        return ETXTBSY, placed;
      }
      if !canAlloc {
        return EALLOC, placed;
      }
      reqs := reqs + [Area(placed, size, false)];
      return Ok, placed;
    }

    /** do_cpp_area_release() */
    method AreaRelease(offset: u64) returns (err: Error)
      modifies this
      ensures (err, reqs) == Release(old(reqs), offset)
    {
      err := ENOENT;
      var i: nat := 0;
      while i < |reqs|
        invariant i <= |reqs| && reqs == old(reqs) && err == ENOENT
        invariant FirstAt(reqs, offset, 0) == FirstAt(reqs, offset, i)
      {
        if reqs[i].offset == offset {
          err := if reqs[i].mapped then EBUSY else Ok;
          if err == Ok {
            reqs := reqs[..i] + reqs[i + 1..];
          }
          break;
        }
        i := i + 1;
      }
    }

    /** The search of nfp_dev_cpp_mmap(): the first area the test accepts. For
        a range that ends inside the space that is the area containing it, and
        -EINVAL means that there is none. */
    method Lookup(offset: u64, size: u64) returns (err: Error, k: nat)
      ensures err == Ok || err == EINVAL
      ensures err == Ok ==> k < |reqs| && Selects(reqs[k], offset, size)
      ensures err == Ok ==> forall i :: 0 <= i < k ==> !Selects(reqs[i], offset, size)
      ensures err == EINVAL <==> forall i :: 0 <= i < |reqs| ==> !Selects(reqs[i], offset, size)
      ensures Good(reqs) && FitsBelow(offset, size) ==>
                && (err == Ok ==> Contains(reqs[k], offset, size))
                && (err == Ok && size > 0 ==>
                      forall i :: 0 <= i < |reqs| && i != k ==> !Contains(reqs[i], offset, size))
                && (err == EINVAL ==> forall i :: 0 <= i < |reqs| ==> !Contains(reqs[i], offset, size))
    {
      k := 0;
      while k < |reqs|
        invariant k <= |reqs|
        invariant forall i :: 0 <= i < k ==> !Selects(reqs[i], offset, size)
      {
        if reqs[k].offset <= offset && Add64(reqs[k].offset, reqs[k].size) >= Add64(offset, size) {
          OnlyContainer(reqs, offset, size, k);
          return Ok, k;
        }
        k := k + 1;
      }
      return EINVAL, k;
    }
  }

  lemma OnlyContainer(list: seq<Area>, offset: u64, size: u64, k: nat)
    requires k < |list| && Selects(list[k], offset, size)
    requires forall i :: 0 <= i < k ==> !Selects(list[i], offset, size)
    ensures Good(list) && FitsBelow(offset, size) && size > 0 ==>
              forall i :: 0 <= i < |list| && i != k ==> !Contains(list[i], offset, size)
  {
    if Good(list) && FitsBelow(offset, size) && size > 0 {
      forall i | k < i < |list| ensures !Contains(list[i], offset, size) {
        ContainerIsUnique(list, offset, size, k, i);
      }
    }
  }
}
