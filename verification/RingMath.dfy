/** Arithmetic of the 1-indexed ring: write number j (from 0) goes to slot j mod n + 1. */
module RingMath {

  /** j mod n + 1, by repeated subtraction (SlotIsMod). */
  function Slot(n: nat, j: nat): (s: nat)
    requires n > 0
    ensures 1 <= s <= n
    decreases j
  {
    if j < n then j + 1 else Slot(n, j - n)
  }

  /** A nonzero multiple of n is at least n away from zero. */
  lemma MultipleAway(n: nat, d: int)
    requires n > 0
    ensures d > 0 ==> n * d >= n
    ensures d < 0 ==> n * d + n <= 0
  {
  }

  lemma DivMod(a: int, n: nat)
    requires n > 0
    ensures a == n * (a / n) + a % n
  {
  }

  /** Quotient and remainder are determined by their defining equation. */
  lemma ModUnique(a: int, n: nat, q: int, r: int)
    requires n > 0 && a == n * q + r && 0 <= r < n
    ensures a % n == r && a / n == q
  {
    var d := q - a / n;
    assert n * d == a % n - r;
    MultipleAway(n, d);
  }

  lemma ModShift(a: int, n: nat, k: int)
    requires n > 0
    ensures (a + n * k) % n == a % n
  {
    ModUnique(a + n * k, n, a / n + k, a % n);
  }

  lemma {:induction false} SlotIsMod(n: nat, j: nat)
    requires n > 0
    ensures Slot(n, j) == j % n + 1
    decreases j
  {
    if j < n {
      ModUnique(j, n, 0, j);
    } else {
      SlotIsMod(n, j - n);
      ModShift(j, n, -1);
    }
  }

  /** The cursor update of the source keeps the cursor on the next write's slot. */
  lemma {:induction false} SlotNext(n: nat, j: nat)
    requires n > 0
    ensures Slot(n, j + 1) == if Slot(n, j) + 1 > n then 1 else Slot(n, j) + 1
    decreases j
  {
    if j >= n {
      SlotNext(n, j - n);
    }
  }

  /** Writes less than a full ring apart go to different slots. */
  lemma {:induction false} SlotDistinct(n: nat, i: nat, j: nat)
    requires n > 0 && i < j < i + n
    ensures Slot(n, i) != Slot(n, j)
    decreases i
  {
    if i >= n {
      SlotDistinct(n, i - n, j - n);
    }
  }

  /** The latest of k writes that went to slot s. */
  function Latest(n: nat, k: nat, s: nat): (j: nat)
    requires 1 <= s <= n && s <= k
    ensures j < k <= j + n && Slot(n, j) == s
    decreases k
  {
    if k <= n then s - 1
    else if s <= k - n then Latest(n, k - n, s) + n
    else s - 1
  }

  lemma LatestUnique(n: nat, k: nat, j: nat)
    requires n > 0 && j < k <= j + n
    ensures Slot(n, j) <= k && Latest(n, k, Slot(n, j)) == j
  {
    SlotAtMost(n, j);
    var l := Latest(n, k, Slot(n, j));
    if l < j {
      SlotDistinct(n, l, j);
    } else if j < l {
      SlotDistinct(n, j, l);
    }
  }

  lemma {:induction false} SlotAtMost(n: nat, j: nat)
    requires n > 0
    ensures Slot(n, j) <= j + 1
    decreases j
  {
    if j >= n {
      SlotAtMost(n, j - n);
    }
  }
}
