/** 32-bit machine words as bounded naturals, masking, and the modular
    arithmetic that the ring indices rely on. */
module Words {

  const TWO_32: nat := 0x1_0000_0000

  type u32 = x: nat | x < TWO_32

  function Add32(a: u32, b: u32): u32 { (a + b) % TWO_32 }

  function Sub32(a: u32, b: u32): u32 { (a - b) % TWO_32 }

  function Pow2(k: nat): (p: nat)
    ensures p >= 1
  {
    if k == 0 then 1 else 2 * Pow2(k - 1)
  }

  /** Bitwise conjunction, one binary digit at a time. */
  function BitAnd(a: nat, b: nat): (r: nat)
    ensures r <= a && r <= b
  {
    if a == 0 || b == 0 then 0 else (a % 2) * (b % 2) + 2 * BitAnd(a / 2, b / 2)
  }

  datatype Option<T> = None | Some(value: T)

  /** Finitely many numbers leave one unused. */
  lemma FreshNumber(s: set<nat>)
    ensures exists n: nat :: n !in s
  {
    var top, left := 0, s;
    while left != {}
      invariant left <= s && forall n :: n in s && n !in left ==> n < top
    {
      var n :| n in left;
      top, left := if n < top then top else n + 1, left - {n};
    }
    assert top !in s;
  }

  // --- Multiplication and remainders ---------------------------------------

  lemma {:induction false} AddMultiple(x: int, q: nat, c: nat)
    requires c > 0
    ensures (x + q * c) % c == x % c
  {
    if q != 0 {
      AddMultiple(x, q - 1, c);
      var y := x + (q - 1) * c;
      assert x + q * c == y + c;
      AddOne(y, c);
    }
  }

  lemma AddOne(y: int, c: nat)
    requires c > 0
    ensures (y + c) % c == y % c
  {
    var q, r := y / c, y % c;
    assert y + c == (q + 1) * c + r;
    DivisionIsUnique(y + c, c, q + 1, r);
  }

  lemma {:induction false} MulAtLeast(d: nat, c: nat)
    requires d >= 1
    ensures d * c >= c
  {
    if d > 1 {
      MulAtLeast(d - 1, c);
    }
  }

  /** Multiples closer than the unit are equal. */
  lemma MultiplesApart(q: int, q': int, c: nat)
    requires c > 0 && -(c as int) < q * c - q' * c < c
    ensures q == q'
  {
    assert (q - q') * c == q * c - q' * c;
    assert (q' - q) * c == q' * c - q * c;
    if q > q' {
      MulAtLeast(q - q', c);
    } else if q < q' {
      MulAtLeast(q' - q, c);
    }
  }

  lemma DivisionIsUnique(y: int, c: nat, q: int, r: int)
    requires c > 0 && 0 <= r < c && y == q * c + r
    ensures y / c == q && y % c == r
  {
    var q', r' := y / c, y % c;
    assert y == q' * c + r';
    MultiplesApart(q, q', c);
  }

  /** Two integers with equal remainders differ by a multiple; if they are
      closer than the modulus they are equal. */
  lemma SameSlot(a: int, b: int, c: nat)
    requires c > 0 && a % c == b % c && -(c as int) < a - b < c
    ensures a == b
  {
    var qa, qb := a / c, b / c;
    assert a == qa * c + a % c;
    assert b == qb * c + b % c;
    MultiplesApart(qa, qb, c);
  }

  /** Reducing first by a multiple of the modulus changes nothing. */
  lemma ModOfMod(x: int, c: nat, m: nat)
    requires c > 0 && m > 0
    ensures c * m > 0 && (x % (c * m)) % c == x % c
  {
    assert c * m > 0;
    var q, r := x / (c * m), x % (c * m);
    var rq, rr := r / c, r % c;
    assert x == (q * m + rq) * c + rr by {
      assert q * (c * m) == (q * m) * c;
    }
    DivisionIsUnique(x, c, q * m + rq, rr);
  }

  /** Remainders of sums and differences depend only on the remainders. */
  lemma Congruent(a: int, b: int, a': int, b': int, c: nat)
    requires c > 0 && a % c == a' % c && b % c == b' % c
    ensures (a - b) % c == (a' - b') % c
    ensures (a + b) % c == (a' + b') % c
  {
    var k, l := a / c - a' / c, b / c - b' / c;
    assert a == a' + k * c;
    assert b == b' + l * c;
    assert a - b == a' - b' + (k - l) * c;
    assert a + b == a' + b' + (k + l) * c;
    Shift(a' - b', k - l, c);
    Shift(a' + b', k + l, c);
  }

  lemma Shift(x: int, q: int, c: nat)
    requires c > 0
    ensures (x + q * c) % c == x % c
  {
    if q >= 0 {
      AddMultiple(x, q, c);
    } else {
      AddMultiple(x + q * c, -q, c);
      assert x + q * c + (-q) * c == x;
    }
  }

  lemma Small(x: nat, c: nat)
    requires x < c
    ensures x % c == x
  {
    DivisionIsUnique(x, c, 0, x);
  }

  // --- Powers of two ---------------------------------------------------------

  lemma {:induction false} Pow2Add(a: nat, b: nat)
    ensures Pow2(a + b) == Pow2(a) * Pow2(b)
  {
    if a != 0 {
      Pow2Add(a - 1, b);
    }
  }

  lemma DoubleMod(x: nat, h: nat)
    requires h > 0
    ensures x % (2 * h) == x % 2 + 2 * ((x / 2) % h)
  {
    var q, r := (x / 2) / h, (x / 2) % h;
    assert x / 2 == q * h + r;
    assert q * (2 * h) == 2 * (q * h);
    DivisionIsUnique(x, 2 * h, q, x % 2 + 2 * r);
  }

  lemma BitAndOdd(x: nat, h: nat)
    requires h > 0 && x > 0
    ensures BitAnd(x, 2 * h - 1) == x % 2 + 2 * BitAnd(x / 2, h - 1)
  {
    assert (2 * h - 1) / 2 == h - 1 && (2 * h - 1) % 2 == 1;
  }

  lemma MaskStep(x: nat, h: nat)
    requires h > 0 && x > 0 && BitAnd(x / 2, h - 1) == (x / 2) % h
    ensures BitAnd(x, 2 * h - 1) == x % (2 * h)
  {
    BitAndOdd(x, h);
    DoubleMod(x, h);
  }

  /** Masking with 2^k - 1 is the remainder modulo 2^k. */
  lemma {:induction false} MaskIsMod(x: nat, k: nat)
    ensures BitAnd(x, Pow2(k) - 1) == x % Pow2(k)
  {
    if k == 0 || x == 0 {
      Small(0, Pow2(k));
    } else {
      var h := Pow2(k - 1);
      MaskIsMod(x / 2, k - 1);
      MaskStep(x, h);
    }
  }

  /** Ring sizes the driver accepts: a power of two from 256 to 2^18. */
  ghost predicate RingSize(cnt: nat) {
    exists k: nat :: 8 <= k <= 18 && cnt == Pow2(k)
  }

  lemma {:induction false} Pow2Monotone(a: nat, b: nat)
    requires a <= b
    ensures Pow2(a) <= Pow2(b)
  {
    if a < b {
      Pow2Monotone(a, b - 1);
    }
  }

  lemma RingSizeFacts(cnt: nat) returns (k: nat, m: nat)
    requires RingSize(cnt)
    ensures cnt == Pow2(k) && m > 0 && cnt * m == TWO_32
  {
    k :| 8 <= k <= 18 && cnt == Pow2(k);
    m := Pow2(32 - k);
    Pow2Add(k, 32 - k);
    Pow2Table();
  }

  lemma RingSizeBounds(cnt: nat)
    requires RingSize(cnt)
    ensures 256 <= cnt <= 0x40000 && cnt % 16 == 0
  {
    var k: nat :| 8 <= k <= 18 && cnt == Pow2(k);
    Pow2Table();
    Pow2Monotone(8, k);
    Pow2Monotone(k, 18);
    Pow2Sixteenths(k);
  }

  lemma {:induction false} Pow2Sixteenths(k: nat)
    requires k >= 4
    ensures Pow2(k) % 16 == 0
  {
    if k > 4 {
      Pow2Sixteenths(k - 1);
      TwiceSixteenths(Pow2(k - 1));
    } else {
      Pow2Table();
    }
  }

  lemma TwiceSixteenths(p: nat)
    requires p % 16 == 0
    ensures (2 * p) % 16 == 0
  {
    assert 2 * p == 16 * (2 * (p / 16));
  }

  lemma Pow2Table()
    ensures Pow2(4) == 16 && Pow2(8) == 256 && Pow2(18) == 0x40000 && Pow2(20) == 0x10_0000
    ensures Pow2(25) == 0x200_0000 && Pow2(29) == 0x2000_0000 && Pow2(32) == TWO_32
  {
    assert Pow2(4) == 16;
    Pow2Add(4, 4);
    Pow2Add(8, 8);
    Pow2Add(16, 2);
    Pow2Add(16, 4);
    Pow2Add(20, 5);
    Pow2Add(25, 4);
    Pow2Add(29, 3);
  }

  /** Index of a free-running counter value in a ring (the D_IDX macro). */
  function DIdx(cnt: u32, i: u32): u32
    requires cnt > 0
  {
    BitAnd(i, cnt - 1)
  }

  /** Slot that the n-th descriptor occupies in a ring of cnt slots. */
  function SlotOf(n: int, cnt: nat): (i: nat)
    requires cnt > 0
    ensures i < cnt
  {
    n % cnt
  }

  /** A wrapped counter indexes the same slot as the unbounded count. */
  lemma DIdxOfCounter(cnt: u32, n: int)
    requires RingSize(cnt)
    ensures DIdx(cnt, n % TWO_32) == n % cnt
  {
    var k, m := RingSizeFacts(cnt);
    MaskIsMod(n % TWO_32, k);
    ModOfMod(n, cnt, m);
  }

  /** Counts less than a ring apart use different slots. */
  lemma SlotsDiffer(m: int, n: int, cnt: nat)
    requires cnt > 0 && m != n && -(cnt as int) < m - n < cnt
    ensures SlotOf(m, cnt) != SlotOf(n, cnt)
  {
    if SlotOf(m, cnt) == SlotOf(n, cnt) {
      SameSlot(m, n, cnt);
    }
  }

  lemma OtherSlots(k: nat, lo: nat, cnt: nat)
    requires cnt > 0 && lo <= k < lo + cnt
    ensures forall n :: lo <= n < lo + cnt && n != k ==> SlotOf(n, cnt) != SlotOf(k, cnt)
  {
    forall n | lo <= n < lo + cnt && n != k
      ensures SlotOf(n, cnt) != SlotOf(k, cnt)
    {
      SlotsDiffer(n, k, cnt);
    }
  }

  /** Every slot is used once in any ring-long run of counts. */
  lemma SlotCovered(lo: nat, n: int, c: nat) returns (m: nat)
    requires c > 0
    ensures lo <= m < lo + c && SlotOf(m, c) == SlotOf(n, c)
  {
    var r := (n - lo) % c;
    m := lo + r;
    Small(r, c);
    Congruent(r, lo, n - lo, lo, c);
  }

  lemma SlotOfIs(n: nat, cnt: nat)
    requires cnt > 0
    ensures SlotOf(n, cnt) == n % cnt
  {
  }

  lemma SlotOfSmall(n: nat, cnt: nat)
    requires n < cnt
    ensures SlotOf(n, cnt) == n
  {
    Small(n, cnt);
  }
}
