/** The open-addressing tables of dpkg: double hashing, where a key's probe
sequence starts at one slot and steps back by a fixed decrement. */
module OpenHash {
  import opened Bits

  ghost predicate Prime(p: nat) {
    p >= 2 && forall d :: 2 <= d < p ==> p % d != 0
  }

  // ----- primes -----

  /** None of 2..d divides p. */
  predicate NoDivisor(p: nat, d: nat) {
    d < 2 || (p % d != 0 && NoDivisor(p, d - 1))
  }

  /** None of lo+1..d divides p. */
  predicate NoneBetween(p: nat, lo: nat, d: nat) {
    d <= lo || d == 0 || (p % d != 0 && NoneBetween(p, lo, d - 1))
  }

  lemma {:induction false} Further(p: nat, lo: nat, d: nat)
    requires NoDivisor(p, lo) && NoneBetween(p, lo, d) && lo <= d
    ensures NoDivisor(p, d)
  {
    if lo < d { Further(p, lo, d - 1); }
  }

  lemma {:induction false} NoDivisorAt(p: nat, d: nat, k: nat)
    requires NoDivisor(p, d) && 2 <= k <= d
    ensures p % k != 0
  {
    if k < d { NoDivisorAt(p, d - 1, k); }
  }

  lemma Signs(x: int, p: nat)
    ensures (x <= 0 ==> x * p <= 0) && (x >= 1 ==> x * p >= p)
  {
  }

  lemma Squares(a: nat, b: nat, c: nat)
    ensures a >= c && b >= c ==> a * b >= c * c
  {
  }

  /** Division with remainder is unique. */
  lemma Quotient(x: nat, q: nat, a: nat)
    requires q > 0 && x == a * q
    ensures x % q == 0
  {
    var b, r := x / q, x % q;
    assert x == b * q + r;
    assert (a - b) * q == r;
    Signs(a - b, q);
  }

  /** A divisor comes with its partner. */
  lemma DivisorPair(p: nat, k: nat)
    requires 2 <= k < p && p % k == 0
    ensures 2 <= p / k < p && p % (p / k) == 0 && k * (p / k) == p
  {
    var q := p / k;
    assert p == k * q;
    Signs(q - 1, k);
    Signs(k - 1, q);
    assert k * q == (q - 1) * k + k && k * q == (k - 1) * q + q;
    Quotient(p, q, k);
  }

  /** Trial division up to the square root. */
  lemma TrialDivision(p: nat, d: nat)
    requires p >= 2 && NoDivisor(p, d) && (d + 1) * (d + 1) > p
    ensures Prime(p)
  {
    forall k | 2 <= k < p ensures p % k != 0 {
      if p % k == 0 {
        DivisorPair(p, k);
        Squares(k, p / k, d + 1);
        NoDivisorAt(p, d, if k <= d then k else p / k);
      }
    }
  }

  lemma Remainder(p: nat, a: nat, k: nat, m: nat, q: nat, r: nat)
    requires p == q * a + r && a * k == m * p && 0 < r && 0 < k
    ensures k - q * m >= 0 && r * k == (k - q * m) * p
  {
    calc {
      r * k;
      (p - q * a) * k;
      p * k - q * (a * k);
      p * k - q * (m * p);
      (k - q * m) * p;
    }
    Signs(k - q * m, p);
    Signs(r, k);
  }

  /** Euclid's lemma: a prime does not divide a product of two smaller numbers. */
  lemma {:induction false} NoZeroProduct(p: nat, a: nat, k: nat, m: nat)
    requires Prime(p) && 0 < a < p && 0 < k < p
    ensures a * k != m * p
    decreases a
  {
    if a * k == m * p {
      if a == 1 {
        Signs(m, p);
      } else {
        Remainder(p, a, k, m, p / a, p % a);
        NoZeroProduct(p, p % a, k, k - p / a * m);
      }
    }
  }

  // ----- probing -----

  /** The next slot: the decrement below, or that plus the table size. */
  function Step(x: nat, dec: nat, p: nat): (r: nat)
    requires x < p && 1 <= dec < p
    ensures r < p
  {
    if x >= dec then x - dec else x + p - dec
  }

  /** The i-th slot probed. */
  function Slot(start: nat, dec: nat, p: nat, i: nat): (r: nat)
    requires start < p && 1 <= dec < p
    ensures r < p
  {
    if i == 0 then start else Step(Slot(start, dec, p, i - 1), dec, p)
  }

  /** Slot i lies i decrements below the start, modulo p. */
  lemma {:induction false} SlotDistance(start: nat, dec: nat, p: nat, i: nat) returns (m: nat)
    requires start < p && 1 <= dec < p
    ensures i * dec == start - Slot(start, dec, p, i) + m * p
  {
    m := 0;
    if i > 0 {
      m := SlotDistance(start, dec, p, i - 1);
      assert i * dec == (i - 1) * dec + dec;
      if Slot(start, dec, p, i - 1) < dec {
        assert (m + 1) * p == m * p + p;
        m := m + 1;
      }
    }
  }

  /** With a prime table size, no slot is probed twice in the first p steps. */
  lemma SlotsDiffer(start: nat, dec: nat, p: nat, i: nat, j: nat)
    requires Prime(p) && start < p && 1 <= dec < p && i < j < i + p
    ensures Slot(start, dec, p, i) != Slot(start, dec, p, j)
  {
    var m := SlotDistance(start, dec, p, i);
    var n := SlotDistance(start, dec, p, j);
    if Slot(start, dec, p, i) == Slot(start, dec, p, j) {
      var k, x := j - i, n - m;
      assert dec * k == x * p;
      Signs(x, p);
      NoZeroProduct(p, dec, k, x);
    }
  }

  ghost function Range(n: nat): (r: set<nat>)
    ensures |r| == n && forall x: nat :: x in r <==> x < n
  {
    if n == 0 then {} else Range(n - 1) + {n - 1}
  }

  /** The first n slots probed. */
  ghost function Probed(start: nat, dec: nat, p: nat, n: nat): set<nat>
    requires start < p && 1 <= dec < p
  {
    if n == 0 then {} else Probed(start, dec, p, n - 1) + {Slot(start, dec, p, n - 1)}
  }

  lemma {:induction false} ProbedFrom(start: nat, dec: nat, p: nat, n: nat, x: nat) returns (i: nat)
    requires start < p && 1 <= dec < p && x in Probed(start, dec, p, n)
    ensures i < n && Slot(start, dec, p, i) == x
  {
    if x == Slot(start, dec, p, n - 1) { i := n - 1; } else { i := ProbedFrom(start, dec, p, n - 1, x); }
  }

  lemma {:induction false} ProbedCount(start: nat, dec: nat, p: nat, n: nat)
    requires Prime(p) && start < p && 1 <= dec < p && n <= p
    ensures |Probed(start, dec, p, n)| == n && Probed(start, dec, p, n) <= Range(p)
  {
    if n > 0 {
      ProbedCount(start, dec, p, n - 1);
      var x := Slot(start, dec, p, n - 1);
      if x in Probed(start, dec, p, n - 1) {
        var i := ProbedFrom(start, dec, p, n - 1, x);
        SlotsDiffer(start, dec, p, i, n - 1);
      }
    }
  }

  lemma {:induction false} SameSize(a: set<nat>, b: set<nat>)
    requires a <= b && |a| == |b|
    ensures a == b
    decreases |a|
  {
    if x :| x in b && x !in a {
      SameSizeLess(a, b - {x});
    }
  }

  lemma {:induction false} SameSizeLess(a: set<nat>, b: set<nat>)
    requires a <= b
    ensures |a| <= |b|
    decreases |a|
  {
    if x :| x in a { SameSizeLess(a - {x}, b - {x}); }
  }

  /** Within p steps every slot is probed. */
  lemma EverySlot(start: nat, dec: nat, p: nat, x: nat) returns (i: nat)
    requires Prime(p) && start < p && 1 <= dec < p && x < p
    ensures i < p && Slot(start, dec, p, i) == x
  {
    ProbedCount(start, dec, p, p);
    SameSize(Probed(start, dec, p, p), Range(p));
    i := ProbedFrom(start, dec, p, p, x);
  }

  const NAME_HASH_PRIME := 16381
  const PACKAGE_HASH_PRIME := 10007
  const STATUS_HASH_PRIME := 8191

  lemma NameSizeLow()
    ensures NoDivisor(16381, 61)
  {
    Further(16381, 1, 11);
    Further(16381, 11, 21);
    Further(16381, 21, 31);
    Further(16381, 31, 41);
    Further(16381, 41, 51);
    Further(16381, 51, 61);
  }

  lemma NameSize()
    ensures Prime(NAME_HASH_PRIME)
  {
    NameSizeLow();
    Further(16381, 61, 71);
    Further(16381, 71, 81);
    Further(16381, 81, 91);
    Further(16381, 91, 101);
    Further(16381, 101, 111);
    Further(16381, 111, 121);
    Further(16381, 121, 127);
    TrialDivision(16381, 127);
  }

  lemma PackageSize()
    ensures Prime(PACKAGE_HASH_PRIME)
  {
    Further(10007, 1, 11);
    Further(10007, 11, 21);
    Further(10007, 21, 31);
    Further(10007, 31, 41);
    Further(10007, 41, 51);
    Further(10007, 51, 61);
    Further(10007, 61, 71);
    Further(10007, 71, 81);
    Further(10007, 81, 91);
    Further(10007, 91, 100);
    TrialDivision(10007, 100);
  }

  lemma StatusSize()
    ensures Prime(STATUS_HASH_PRIME)
  {
    Further(8191, 1, 11);
    Further(8191, 11, 21);
    Further(8191, 21, 31);
    Further(8191, 31, 41);
    Further(8191, 41, 51);
    Further(8191, 51, 61);
    Further(8191, 61, 71);
    Further(8191, 71, 81);
    Further(8191, 81, 90);
    TrialDivision(8191, 90);
  }
}
