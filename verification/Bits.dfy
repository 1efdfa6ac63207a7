/** Arithmetic facts behind the masks and wrap-arounds of the C code: the bitwise
    "and" on naturals, powers of two, and remainders. */
module Bits {

  const WORD: nat := 0x1_0000_0000_0000_0000  // values of a 64-bit size_t
  const HALF: nat := 0x8000_0000_0000_0000    // first negative value of an intptr_t

  function Pow2(k: nat): (p: nat)
    ensures p >= 1
  {
    if k == 0 then 1 else 2 * Pow2(k - 1)
  }

  ghost predicate IsPow2(n: nat) {
    exists k: nat :: n == Pow2(k)
  }

  /** Bitwise "and" of two non-negative numbers. */
  function And(a: nat, b: nat): nat {
    if a == 0 || b == 0 then 0
    else 2 * And(a / 2, b / 2) + if a % 2 == 1 && b % 2 == 1 then 1 else 0
  }

  // ---- remainders -------------------------------------------------------

  lemma MulBound(d: int, m: nat)
    requires m > 0 && -1 * m < d * m < m
    ensures d == 0
  {
    assert d >= 1 ==> d * m >= m;
    assert d <= -1 ==> d * m <= -1 * m;
  }

  lemma ModIs(x: int, m: nat, q: int, r: int)
    requires m > 0 && x == q * m + r && 0 <= r < m
    ensures x % m == r && x / m == q
  {
    var d := x / m - q;
    assert x == (x / m) * m + x % m;
    assert d * m == (x / m) * m - q * m == r - x % m;
    MulBound(d, m);
  }

  lemma ModShift(x: int, m: nat)
    requires m > 0
    ensures (x + m) % m == x % m && (x - m) % m == x % m
  {
    assert x == (x / m) * m + x % m;
    assert x + m == (x / m + 1) * m + x % m;
    assert x - m == (x / m - 1) * m + x % m;
    ModIs(x + m, m, x / m + 1, x % m);
    ModIs(x - m, m, x / m - 1, x % m);
  }

  /** Two numbers less than m apart with the same remainder are equal. */
  lemma ModApart(x: int, y: int, m: nat)
    requires m > 0 && y - x < m && x - y < m && x % m == y % m
    ensures x == y
  {
    var d := x / m - y / m;
    assert x == (x / m) * m + x % m && y == (y / m) * m + y % m;
    assert d * m == (x / m) * m - (y / m) * m == x - y;
    MulBound(d, m);
  }

  /** Reducing by a multiple of m first does not change the remainder by m. */
  lemma ModOfMod(x: int, m: nat, n: nat)
    requires m > 0
    ensures m * n > 0 ==> (x % (m * n)) % m == x % m
  {
    if m * n > 0 {
      var w := m * n;
      var y := x % w;
      assert x == (x / w) * w + y;
      assert y == (y / m) * m + y % m;
      assert (x / w) * w == ((x / w) * n) * m;
      assert x == ((x / w) * n + y / m) * m + y % m;
      ModIs(x, m, (x / w) * n + y / m, y % m);
    }
  }

  // ---- masks ------------------------------------------------------------

  lemma ModDouble(x: nat, m: nat)
    requires m > 0
    ensures x % (2 * m) == 2 * ((x / 2) % m) + x % 2
  {
    var q, r := (x / 2) / m, (x / 2) % m;
    assert x / 2 == q * m + r;
    assert q * (2 * m) == 2 * (q * m);
    ModIs(x, 2 * m, q, 2 * r + x % 2);
  }

  lemma {:induction false} MaskIsMod(x: nat, k: nat)
    ensures And(x, Pow2(k) - 1) == x % Pow2(k)
    decreases k
  {
    if k > 0 {
      var m := Pow2(k - 1);
      MaskIsMod(x / 2, k - 1);
      ModDouble(x, m);
      assert Pow2(k) == 2 * m;
      assert (2 * m - 1) / 2 == m - 1 && (2 * m - 1) % 2 == 1;
    }
  }

  lemma {:induction false} AndSelf(x: nat)
    ensures And(x, x) == x
  {
    if x > 0 {
      AndSelf(x / 2);
    }
  }

  /** c & (c - 1) for positive c. */
  lemma {:induction false} MaskTest(c: nat)
    requires c > 0
    ensures And(c, c - 1) == 0 <==> IsPow2(c)
  {
    if c == 1 {
      assert Pow2(0) == 1;
    } else if c % 2 == 1 {
      AndSelf(c / 2);
      assert (c - 1) / 2 == c / 2;
      forall k: nat ensures c != Pow2(k) {
        assert k > 0 ==> Pow2(k) % 2 == 0;
      }
    } else {
      MaskTest(c / 2);
      assert (c - 1) / 2 == c / 2 - 1;
      if And(c, c - 1) == 0 {
        var k: nat :| c / 2 == Pow2(k);
        assert c == Pow2(k + 1);
      }
      if k: nat :| c == Pow2(k) {
        assert k > 0 && c / 2 == Pow2(k - 1);
      }
    }
  }

  /** The capacity test on a size_t, whose c - 1 wraps at zero: it passes exactly zero
      and the powers of two, and those are at most half the word range. */
  lemma PowerOfTwoTest(c: nat)
    requires c < WORD
    ensures And(c, (c - 1) % WORD) == 0 <==> c == 0 || IsPow2(c)
    ensures IsPow2(c) ==> c <= HALF
  {
    if c > 0 {
      ModIs(c - 1, WORD, 0, c - 1);
      MaskTest(c);
    }
    if k: nat :| c == Pow2(k) {
      Pow2BelowWord(k);
    }
  }

  lemma Pow2BelowWord(k: nat)
    requires Pow2(k) < WORD
    ensures Pow2(k) <= HALF
  {
    WordIsPow2();
    if k > 64 {
      Pow2Monotone(64, k);
    } else if k < 63 {
      Pow2Monotone(k, 63);
    }
  }

  lemma {:induction false} Pow2Monotone(j: nat, k: nat)
    requires j < k
    ensures Pow2(j) < Pow2(k)
  {
    if j + 1 < k {
      Pow2Monotone(j, k - 1);
    }
  }

  lemma {:induction false} Pow2Sum(j: nat, k: nat)
    ensures Pow2(j + k) == Pow2(j) * Pow2(k)
  {
    if k > 0 {
      Pow2Sum(j, k - 1);
      assert Pow2(j + k) == 2 * Pow2(j + k - 1);
    }
  }

  lemma Pow2Of16()
    ensures Pow2(16) == 0x1_0000
  {
    DoublePow2(0);
    Pow2Sum(1, 1);
    Pow2Sum(2, 2);
    Pow2Sum(4, 4);
    Pow2Sum(8, 8);
  }

  lemma DoublePow2(k: nat)
    ensures Pow2(k + 1) == 2 * Pow2(k)
  {
  }

  lemma WordIsPow2()
    ensures Pow2(64) == WORD && Pow2(63) == HALF
  {
    Pow2Of16();
    Pow2Sum(16, 16);
    Pow2Sum(32, 32);
    DoublePow2(63);
  }

  /** A power of two that fits a word divides the number of words, so wrapping a
      position does not change the slot the mask selects. */
  lemma MaskOfWord(x: nat, c: nat)
    requires IsPow2(c) && c <= HALF
    ensures And(x % WORD, c - 1) == x % c
  {
    var k: nat :| c == Pow2(k);
    WordIsPow2();
    if k > 63 {
      Pow2Monotone(63, k);
    }
    Pow2Sum(k, 64 - k);
    MaskIsMod(x % WORD, k);
    ModOfMod(x, c, Pow2(64 - k));
  }

  /** Adding to a wrapped word and wrapping again is wrapping the sum. */
  lemma ModOfSum(x: nat, y: nat)
    ensures (x % WORD + y) % WORD == (x + y) % WORD
  {
    ModIs(x + y, WORD, x / WORD + (x % WORD + y) / WORD, (x % WORD + y) % WORD);
  }

  /** Half the word range is a whole number of laps. */
  lemma HalfInLaps(c: nat) returns (n: nat)
    requires IsPow2(c) && c <= HALF
    ensures HALF == n * c
  {
    var k: nat :| c == Pow2(k);
    WordIsPow2();
    if k > 63 {
      Pow2Monotone(63, k);
    }
    Pow2Sum(63 - k, k);
    n := Pow2(63 - k);
  }

  /** Less than n laps apart in the same slot is at most n - 1 laps. */
  lemma LapsBelow(x: int, y: int, c: nat, n: nat)
    requires c > 0 && x % c == y % c && x - y < n * c
    ensures x - y <= n * c - c
  {
    assert x == x / c * c + x % c && y == y / c * c + y % c;
    var d := x / c - y / c;
    assert x - y == d * c;
    MulOrder(n, d, c);
    MulOrder(d, n - 1, c);
    assert (n - 1) * c == n * c - c;
  }

  lemma MulOrder(a: int, b: int, c: nat)
    ensures a <= b ==> a * c <= b * c
  {
    assert b * c - a * c == (b - a) * c;
  }

  // ---- signed distance of two words -------------------------------------

  /** (intptr_t)a - (intptr_t)b on two's-complement words. */
  function SignedDif(a: nat, b: nat): int {
    var d := (a - b) % WORD;
    if d < HALF then d else d - WORD
  }

  /** The signed word distance depends on the true distance alone. */
  lemma SignedDifOf(x: nat, y: nat)
    ensures SignedDif(x % WORD, y % WORD) == if (x - y) % WORD < HALF then (x - y) % WORD else (x - y) % WORD - WORD
  {
    var q, r := (x - y) / WORD, (x - y) % WORD;
    assert x == x / WORD * WORD + x % WORD && y == y / WORD * WORD + y % WORD && x - y == q * WORD + r;
    ModIs(x % WORD - y % WORD, WORD, q - x / WORD + y / WORD, r);
  }

  /** The signed word distance is the true distance exactly when that fits the
      signed range. */
  lemma SignedDifExact(x: nat, y: nat)
    ensures SignedDif(x % WORD, y % WORD) == x - y <==> -1 * HALF <= x - y < HALF
  {
    var a, b := x % WORD, y % WORD;
    var q := x / WORD - y / WORD;
    assert x - y == q * WORD + (a - b);
    if -1 * HALF <= x - y < HALF {
      if x - y >= 0 {
        ModIs(a - b, WORD, -q, x - y);
      } else {
        ModIs(a - b, WORD, -q - 1, x - y + WORD);
      }
    }
  }
}
