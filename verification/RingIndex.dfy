/**
 Slot arithmetic of the ring buffer in PathWorkStealingQueue: a signed 64-bit index is cast to
 an unsigned one and masked with capacity - 1. For a power-of-two capacity this is the index
 modulo the capacity, so indices less than one capacity apart never share a slot.
 */
module RingIndex {
  import opened Integers

  predicate IsPowerOfTwo(n: nat) {
    n == 1 || (n > 0 && n % 2 == 0 && IsPowerOfTwo(n / 2))
  }

  /** What the constructor asserts about the capacity; the bound is that of any allocatable array. */
  type Capacity = c: nat | 0 < c && IsPowerOfTwo(c) && c <= TWO_63 witness 1

  /** The cast of a signed 64-bit value to size_t. */
  function SizeT(x: int): nat {
    x % TWO_64
  }

  /** The bitwise and of two naturals, bit by bit from the low end. */
  function BitAnd(x: nat, y: nat): nat {
    if x == 0 || y == 0 then 0 else (if x % 2 == 1 && y % 2 == 1 then 1 else 0) + 2 * BitAnd(x / 2, y / 2)
  }

  /** The array slot used for index i: the cast index masked with c - 1. */
  function Slot(i: int, c: Capacity): nat {
    BitAnd(SizeT(i), c - 1)
  }

  /** The back-pressure threshold of push. */
  function Limit(c: Capacity): (limit: nat)
    ensures 1 <= limit <= c && limit + c / 10 == c
  {
    c - c / 10
  }

  /** How many of the available items a batch takes: half of them, at least one, within the limit. */
  function BatchLength(available: nat, max: nat): (n: nat)
    ensures n <= available && n <= max
    ensures available > 0 && max > 0 ==> n > 0
  {
    if available == 0 then 0 else
    var n := if available / 2 > 1 then available / 2 else 1;
    if n > max then max else n
  }

  /** A batch is half of what there is, rounded down, or one, or the limit if that is less. */
  lemma HalfOrLimit(available: nat, max: nat)
    requires available > 0 && max > 0
    ensures var n := BatchLength(available, max);
      && 1 <= n <= max && (n > 1 ==> 2 * n <= available)
      && (n < max ==> available <= 2 * n + 1)
  {
  }

  /** Masking the cast index is taking it modulo the capacity. */
  lemma SlotIsModulo(i: int, c: Capacity)
    ensures Slot(i, c) == i % c
  {
    MaskIsModulo(SizeT(i), c);
    SizeRangeIsPowerOfTwo();
    PowersDivide(c, TWO_64);
    ModOfMod(i, c, TWO_64);
  }

  lemma SlotsInRange(c: Capacity)
    ensures forall i {:trigger Slot(i, c)} :: Slot(i, c) < c
  {
    forall i {:trigger Slot(i, c)}
      ensures Slot(i, c) < c
    {
      SlotIsModulo(i, c);
    }
  }

  /** Masking with a power of two less one keeps the remainder. */
  lemma {:induction false} MaskIsModulo(x: nat, c: nat)
    requires IsPowerOfTwo(c)
    ensures BitAnd(x, c - 1) == x % c
  {
    if c == 1 {
    } else if x == 0 {
    } else {
      MaskIsModulo(x / 2, c / 2);
      HalveModulus(x, c / 2);
      assert (c - 1) / 2 == c / 2 - 1 && (c - 1) % 2 == 1;
    }
  }

  lemma HalveModulus(x: nat, h: nat)
    requires h > 0
    ensures x % (2 * h) == 2 * (x / 2 % h) + x % 2
  {
    var q, r := x / 2 / h, x / 2 % h;
    assert x == 2 * (q * h + r) + x % 2;
    assert x == q * (2 * h) + (2 * r + x % 2) by {
      assert 2 * (q * h) == q * (2 * h);
    }
    RemainderIsUnique(x, 2 * h, q, 2 * r + x % 2);
  }

  lemma MultipleIsFar(d: int, m: nat)
    ensures d >= 1 ==> d * m >= m
    ensures d <= -1 ==> d * m + m <= 0
  {
  }

  lemma RemainderIsUnique(x: int, m: nat, q: int, r: int)
    requires m > 0 && x == q * m + r && 0 <= r < m
    ensures x % m == r
  {
    var d := x / m - q;
    assert d * m == r - x % m by {
      assert d * m == x / m * m - q * m;
    }
    MultipleIsFar(d, m);
  }

  lemma ModOfMod(x: int, c: nat, m: nat)
    requires c > 0 && m > 0 && m % c == 0
    ensures x % m % c == x % c
  {
    var k, q := m / c, x / m;
    var r := x % m;
    assert x == (q * k + r / c) * c + r % c by {
      assert m == k * c;
      assert q * m == q * k * c;
      assert (q * k + r / c) * c == q * k * c + r / c * c;
    }
    RemainderIsUnique(x, c, q * k + r / c, r % c);
  }

  /** The smaller of two powers of two divides the larger. */
  lemma {:induction false} PowersDivide(c: nat, m: nat)
    requires IsPowerOfTwo(c) && IsPowerOfTwo(m) && c <= m
    ensures m % c == 0
  {
    if c > 1 {
      PowersDivide(c / 2, m / 2);
      HalveModulus(m, c / 2);
    }
  }

  lemma PowersMultiply(a: nat, b: nat)
    requires IsPowerOfTwo(a) && IsPowerOfTwo(b)
    ensures IsPowerOfTwo(a * b)
  {
    if a > 1 {
      PowersMultiply(a / 2, b);
      assert a * b == 2 * (a / 2 * b);
    }
  }

  lemma SizeRangeIsPowerOfTwo()
    ensures IsPowerOfTwo(TWO_64)
  {
    PowersMultiply(16, 16);
    PowersMultiply(256, 256);
    PowersMultiply(65536, 65536);
    PowersMultiply(0x1_0000_0000, 0x1_0000_0000);
  }

  lemma ResiduesDiffer(i: int, j: int, c: nat)
    requires c > 0 && i < j < i + c
    ensures i % c != j % c
  {
    var d := j / c - i / c;
    assert j - i == d * c + (j % c - i % c) by {
      assert d * c == j / c * c - i / c * c;
    }
    MultipleIsFar(d, c);
  }

  lemma TwoSlotsDiffer(i: int, j: int, c: Capacity)
    requires i < j < i + c
    ensures Slot(i, c) != Slot(j, c)
  {
    hide Slot;
    SlotIsModulo(i, c);
    SlotIsModulo(j, c);
    ResiduesDiffer(i, j, c);
  }

  /** Different indices less than one capacity apart occupy different slots. */
  lemma SlotsDistinct(c: Capacity)
    ensures forall i, j {:trigger Slot(i, c), Slot(j, c)} :: i < j < i + c ==> Slot(i, c) != Slot(j, c)
  {
    hide Slot;
    forall i, j {:trigger Slot(i, c), Slot(j, c)} | i < j < i + c
      ensures Slot(i, c) != Slot(j, c)
    {
      TwoSlotsDiffer(i, j, c);
    }
  }

  /** Indices that are a multiple of the capacity apart come to the same slot. */
  lemma SlotRecurs(i: int, j: int, c: Capacity)
    requires (j - i) % c == 0
    ensures Slot(i, c) == Slot(j, c)
  {
    hide Slot;
    SlotIsModulo(i, c);
    SlotIsModulo(j, c);
    var k := (j - i) / c;
    assert j == (i / c + k) * c + i % c by {
      assert (i / c + k) * c == i / c * c + k * c;
    }
    RemainderIsUnique(j, c, i / c + k, i % c);
  }

  lemma SlotWraps(i: int, c: Capacity)
    ensures Slot(i + c, c) == Slot(i, c)
  {
    hide Slot;
    RemainderIsUnique(c, c, 1, 0);
    SlotRecurs(i, i + c, c);
  }

  /** The first index from top on that comes to the slot of i. */
  function NextHit(i: int, top: int, c: Capacity): (b: int)
    ensures top <= b < top + c
  {
    var lag := (top - i) % c;
    if lag == 0 then top else top + c - lag
  }

  lemma NextHitHits(i: int, top: int, c: Capacity)
    ensures Slot(NextHit(i, top, c), c) == Slot(i, c)
  {
    hide Slot;
    var d, lag := top - i, (top - i) % c;
    if lag == 0 {
      SlotRecurs(i, top, c);
    } else {
      assert d + c - lag == (d / c + 1) * c;
      RemainderIsUnique(d + c - lag, c, d / c + 1, 0);
      SlotRecurs(i, top + c - lag, c);
    }
  }

  /**
   How far `top` may run ahead of an index i before a push that the guard admits can hit slot i again:
   no further than the tenth of the capacity that the guard keeps free, counted modulo the capacity.
   Every push index b that passes the guard with the current top is harmless if and only if that holds.
   */
  lemma LagBoundIsExact(i: int, top: int, c: Capacity)
    ensures (forall b :: top <= b && SizeT(b - top) < Limit(c) && b - top < TWO_63 ==> Slot(b, c) != Slot(i, c))
       <==> 0 < (top - i) % c <= c / 10
  {
    var hit := NextHit(i, top, c);
    NextHitHits(i, top, c);
    if 0 < (top - i) % c <= c / 10 {
      forall b | top <= b && SizeT(b - top) < Limit(c) && b - top < TWO_63
        ensures Slot(b, c) != Slot(i, c)
      {
        hide Slot;
        TwoSlotsDiffer(b, hit, c);
      }
    } else {
      assert SizeT(hit - top) < Limit(c);
    }
  }
}
