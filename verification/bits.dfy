// Powers of two, and the masks and cursors the source computes with them.
module Bits {
  // Cursors and keys are 64 bits wide.
  const WRAP: nat := 0x1_0000_0000_0000_0000

  function Pow2(n: nat): nat {
    if n == 0 then 1 else 2 * Pow2(n - 1)
  }

  ghost predicate IsPow2(n: nat) {
    exists k: nat :: n == Pow2(k)
  }

  lemma {:induction false} PowSum(a: nat, b: nat)
    ensures Pow2(a + b) == Pow2(a) * Pow2(b)
  {
    if a > 0 {
      PowSum(a - 1, b);
      assert Pow2(a - 1 + b) == Pow2(a - 1) * Pow2(b);
    }
  }

  lemma {:induction false} PowGrows(a: nat, b: nat)
    requires a <= b
    ensures Pow2(a) <= Pow2(b)
  {
    if a < b {
      PowGrows(a, b - 1);
    }
  }

  lemma WrapIsPow2()
    ensures Pow2(64) == WRAP
  {
    assert Pow2(8) == 0x100;
    PowSum(8, 8);
    PowSum(16, 16);
    PowSum(32, 32);
  }

  lemma PowTop()
    ensures Pow2(63) == 0x8000_0000_0000_0000
  {
    WrapIsPow2();
  }

  lemma PowStep(n: nat)
    ensures Pow2(n + 1) == 2 * Pow2(n)
  {
  }

  lemma PowNone()
    ensures Pow2(0) == 1
  {
  }

  lemma PowSixteen()
    ensures Pow2(4) == 16
  {
    assert Pow2(2) == 4;
  }

  // Where a cursor points in a buffer of n places.
  function Spot(cursor: nat, n: nat): (i: nat)
    requires n > 0
    ensures i < n
  {
    cursor % n
  }

  lemma {:induction false} MultipleAtLeast(m: nat, d: nat)
    requires d > 0
    ensures m * d >= m
  {
    if d > 1 {
      MultipleAtLeast(m, d - 1);
      assert m * d == m * (d - 1) + m;
    }
  }

  lemma MultipleGap(m: nat, q: nat, q': nat)
    requires q < q'
    ensures m * q' >= m * q + m
  {
    MultipleAtLeast(m, q' - q);
    assert m * q' == m * q + m * (q' - q);
  }

  lemma RemainderUnique(m: nat, q: nat, r: nat, q': nat, r': nat)
    requires r < m && r' < m && m * q + r == m * q' + r'
    ensures r == r' && q == q'
  {
    if q < q' {
      MultipleGap(m, q, q');
    } else if q' < q {
      MultipleGap(m, q', q);
    }
  }

  lemma SpotIs(m: nat, q: nat, r: nat)
    requires r < m
    ensures Spot(m * q + r, m) == r
  {
    var x := m * q + r;
    assert x == m * (x / m) + x % m;
    RemainderUnique(m, q, r, x / m, x % m);
  }

  lemma SpotSplit(x: nat, m: nat) returns (q: nat)
    requires m > 0
    ensures x == m * q + Spot(x, m)
  {
    q := x / m;
  }

  lemma SpotOfMultiple(x: nat, m: nat, q: nat)
    requires m > 0 && q > 0
    ensures m * q > 0 && Spot(Spot(x, m * q), m) == Spot(x, m)
  {
    hide Spot;
    MultipleAtLeast(m, q);
    var d := SpotSplit(x, m * q);
    var e := SpotSplit(Spot(x, m * q), m);
    var r := Spot(Spot(x, m * q), m);
    assert (m * q) * d == m * (q * d);
    assert m * (q * d) + m * e == m * (q * d + e);
    SpotIs(m, q * d + e, r);
  }

  // Cursors with the same place keep it when both move.
  lemma SpotShift(x: nat, y: nat, k: nat, m: nat)
    requires m > 0 && Spot(x, m) == Spot(y, m)
    ensures Spot(x + k, m) == Spot(y + k, m)
  {
    hide Spot;
    var a := SpotSplit(x, m);
    var b := SpotSplit(y, m);
    var c := SpotSplit(Spot(x, m) + k, m);
    var r := Spot(Spot(x, m) + k, m);
    assert m * a + m * c == m * (a + c) && m * b + m * c == m * (b + c);
    SpotIs(m, a + c, r);
    SpotIs(m, b + c, r);
  }

  // A capacity that is a power of two divides the wrap, so a cursor's place in the buffer
  // survives its wrapping.
  lemma WrapKeepsPlace(x: nat, capacity: nat)
    requires IsPow2(capacity) && capacity <= WRAP
    ensures capacity > 0 && Spot(Spot(x, WRAP), capacity) == Spot(x, capacity)
  {
    hide Spot;
    var k: nat :| capacity == Pow2(k);
    WrapIsPow2();
    PowPositive(k);
    if k >= 64 {
      PowGrows(64, k);
      assert capacity == WRAP * 1;
      SpotOfMultiple(x, capacity, 1);
    } else {
      PowPositive(64 - k);
      PowSum(k, 64 - k);
      SpotOfMultiple(x, Pow2(k), Pow2(64 - k));
    }
  }

  lemma {:induction false} PowPositive(k: nat)
    ensures Pow2(k) > 0
  {
    if k > 0 {
      PowPositive(k - 1);
    }
  }

  // Two places less than a capacity apart differ.
  lemma PlacesDiffer(x: nat, j: nat, k: nat, capacity: nat)
    requires j < k < capacity + j
    ensures Spot(x + j, capacity) != Spot(x + k, capacity)
  {
    hide Spot;
    var a := SpotSplit(x + j, capacity);
    var b := SpotSplit(x + k, capacity);
    if Spot(x + j, capacity) == Spot(x + k, capacity) {
      assert capacity * b == capacity * a + (k - j);
      if k - j < capacity {
        RemainderUnique(capacity, a, k - j, b, 0);
      }
    }
  }

  // Bitwise operations ----------------------------------------------------------------

  function And(a: nat, b: nat): nat
    decreases a
  {
    if a == 0 || b == 0 then 0 else (a % 2) * (b % 2) + 2 * And(a / 2, b / 2)
  }

  function Xor(a: nat, b: nat): nat
    decreases a + b
  {
    if a == 0 && b == 0 then 0 else (a % 2 + b % 2) % 2 + 2 * Xor(a / 2, b / 2)
  }

  // Masking with a power of two less one is taking the place in a buffer of that size.
  lemma {:induction false} MaskIsSpot(x: nat, k: nat)
    ensures Pow2(k) > 0 && And(x, Pow2(k) - 1) == Spot(x, Pow2(k))
  {
    hide Spot, And;
    PowPositive(k);
    if k == 0 {
      MaskOfNone(x);
      SpotIs(1, x, 0);
    } else {
      var m := Pow2(k - 1);
      MaskIsSpot(x / 2, k - 1);
      var q := SpotSplit(x / 2, m);
      var r := Spot(x / 2, m);
      assert x == 2 * (m * q + r) + x % 2;
      assert 2 * (m * q) == (2 * m) * q;
      SpotIs(2 * m, q, 2 * r + x % 2);
      MaskStep(x, m);
    }
  }

  lemma MaskOfNone(x: nat)
    ensures And(x, 0) == 0
  {
  }

  lemma MaskStep(x: nat, m: nat)
    requires m > 0
    ensures And(x, 2 * m - 1) == x % 2 + 2 * And(x / 2, m - 1)
  {
    var b := 2 * m - 1;
    assert b % 2 == 1 && b / 2 == m - 1;
  }

  lemma MaskOf(x: nat, size: nat)
    requires IsPow2(size)
    ensures size > 0 && And(x, size - 1) == Spot(x, size)
  {
    var k: nat :| size == Pow2(k);
    MaskIsSpot(x, k);
  }

  lemma SpotStep(x: nat, k: nat)
    ensures Pow2(k) > 0 && Spot(x, Pow2(k + 1)) == x % 2 + 2 * Spot(x / 2, Pow2(k))
  {
    hide Spot;
    PowPositive(k);
    var m := Pow2(k);
    var q := SpotSplit(x / 2, m);
    var r := Spot(x / 2, m);
    assert x == 2 * (m * q + r) + x % 2;
    assert 2 * (m * q) == (2 * m) * q;
    SpotIs(2 * m, q, 2 * r + x % 2);
  }

  lemma XorStep(a: nat, b: nat)
    ensures Xor(a, b) % 2 == (a % 2 + b % 2) % 2 && Xor(a, b) / 2 == Xor(a / 2, b / 2)
  {
  }

  lemma {:induction false} XorCommutes(a: nat, b: nat)
    ensures Xor(a, b) == Xor(b, a)
  {
    if a > 0 || b > 0 {
      XorCommutes(a / 2, b / 2);
    }
  }

  // Exclusive-or with the same number again undoes it.
  lemma {:induction false} XorUndoes(a: nat, b: nat)
    ensures Xor(Xor(a, b), b) == a
    decreases a + b
  {
    hide Xor;
    if a == 0 && b == 0 {
      XorNone();
    } else {
      XorStep(a, b);
      XorStep(Xor(a, b), b);
      XorUndoes(a / 2, b / 2);
      ParityUndoes(a % 2, b % 2);
    }
  }

  lemma ParityUndoes(p: nat, q: nat)
    requires p < 2 && q < 2
    ensures ((p + q) % 2 + q) % 2 == p
  {
  }

  // The low bits of an exclusive-or are that of the low bits.
  lemma {:induction false} XorLow(a: nat, b: nat, k: nat)
    ensures Pow2(k) > 0 && Spot(Xor(a, b), Pow2(k)) == Xor(Spot(a, Pow2(k)), Spot(b, Pow2(k)))
  {
    hide Spot, Xor;
    PowPositive(k);
    if k == 0 {
      SpotIs(1, Xor(a, b), 0);
      SpotIs(1, a, 0);
      SpotIs(1, b, 0);
      XorNone();
    } else {
      SpotStep(a, k - 1);
      SpotStep(b, k - 1);
      SpotStep(Xor(a, b), k - 1);
      XorStep(a, b);
      XorStep(Spot(a, Pow2(k)), Spot(b, Pow2(k)));
      XorLow(a / 2, b / 2, k - 1);
    }
  }

  lemma XorNone()
    ensures Xor(0, 0) == 0
  {
  }

  // The cursor after this one.
  function Next(cursor: nat): nat {
    if cursor + 1 == WRAP then 0 else cursor + 1
  }

  // The difference of two cursors.
  function Gap(head: nat, tail: nat): int {
    if head >= tail then head - tail else head + WRAP - tail
  }

  // Moving a cursor on by n, through the wrap or not, moves its place on by n.
  lemma CursorPlace(head: nat, tail: nat, n: nat, capacity: nat)
    requires head < WRAP && tail < WRAP && Gap(head, tail) == n
    requires IsPow2(capacity) && capacity <= WRAP
    ensures capacity > 0 && Spot(head, capacity) == Spot(tail + n, capacity)
  {
    hide Spot;
    WrapKeepsPlace(tail + n, capacity);
    assert tail + n == WRAP * 0 + head || tail + n == WRAP * 1 + head;
    SpotIs(WRAP, if tail + n == head then 0 else 1, head);
  }

  lemma NextPlace(cursor: nat, capacity: nat)
    requires cursor < WRAP && IsPow2(capacity) && capacity <= WRAP
    ensures capacity > 0 && Spot(Next(cursor), capacity) == Spot(cursor + 1, capacity)
  {
    CursorPlace(Next(cursor), cursor, 1, capacity);
  }
}
