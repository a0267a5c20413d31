/** Division with remainder, for circular buffers. */
module Modular {
  lemma ModUnique(a: int, n: int, q: int, r: int)
    requires n > 0 && a == n * q + r && 0 <= r < n
    ensures a / n == q && a % n == r
  {
    var d := a / n - q;
    assert n * d == r - a % n by {
      assert a == n * (a / n) + a % n;
      assert n * d == n * (a / n) - n * q;
    }
    MultipleSize(n, d);
  }

  lemma MultipleSize(n: int, d: int)
    requires n > 0
    ensures (d >= 1 ==> n * d >= n) && (d <= -1 ==> n * d <= -n)
  {
  }

  /** Circular positions advance by one and wrap once within a lap. */
  lemma SlotAfter(s: int, d: nat, n: nat)
    requires n > 0 && d < n
    ensures (s + d) % n == if s % n + d < n then s % n + d else s % n + d - n
  {
    assert s == n * (s / n) + s % n;
    if s % n + d < n {
      ModUnique(s + d, n, s / n, s % n + d);
    } else {
      assert n * (s / n + 1) == n * (s / n) + n;
      ModUnique(s + d, n, s / n + 1, s % n + d - n);
    }
  }

  /** Two numbers less than a lap apart that share a position are equal. */
  lemma SlotDeterminesBucket(a: int, b: int, n: nat)
    requires n > 0 && a % n == b % n && 0 - n < a - b < n
    ensures a == b
  {
    if a < b {
      SlotAfter(a, b - a, n);
    } else {
      SlotAfter(b, a - b, n);
    }
  }
}
