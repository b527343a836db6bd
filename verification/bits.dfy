/** Machine arithmetic shared by the models: bytes, 32-bit wrap-around and the bit mask
    operators of C on unsigned values. */
module Bits {

  type byte = x: int | 0 <= x < 256

  /** The number of values of a uint32_t. */
  const WORD: int := 0x1_0000_0000

  /** a + b on uint32_t. */
  function Add32(a: int, b: int): nat {
    (a + b) % WORD
  }

  /** a - b on uint32_t. */
  function Sub32(a: int, b: int): nat {
    (a - b) % WORD
  }

  /** a * b on uint32_t. */
  function Mul32(a: int, b: int): nat {
    (a * b) % WORD
  }

  /** The operator & of C on unsigned values. */
  function And(a: nat, b: nat): nat
    decreases a
  {
    if a == 0 then 0 else 2 * And(a / 2, b / 2) + (if a % 2 == 1 && b % 2 == 1 then 1 else 0)
  }

  /** The operator | of C on unsigned values. */
  function Or(a: nat, b: nat): nat
    decreases a
  {
    if a == 0 then b else 2 * Or(a / 2, b / 2) + (if a % 2 == 1 || b % 2 == 1 then 1 else 0)
  }

  function Pow2(k: nat): (r: nat)
    ensures r >= 1
  {
    if k == 0 then 1 else 2 * Pow2(k - 1)
  }

  ghost predicate IsPow2(n: nat) {
    exists k: nat :: n == Pow2(k)
  }

  /** The one-comparison range test of the source: with wrap-around, x - lo < len exactly
      when x lies in [lo, lo + len). */
  lemma RangeTest(x: nat, lo: nat, len: nat)
    requires x < WORD && lo + len <= WORD
    ensures Sub32(x, lo) < len <==> lo <= x < lo + len
  {
    if x >= lo {
      assert Sub32(x, lo) == x - lo;
    } else {
      assert (x - lo + WORD) % WORD == x - lo + WORD;
      assert Sub32(x, lo) == x - lo + WORD;
    }
  }

  /** The overflow test of the source. */
  lemma OverflowTest(a: nat, b: nat)
    requires a < WORD && b < WORD
    ensures Add32(a, b) < a <==> a + b >= WORD
    ensures a + b < WORD ==> Add32(a, b) == a + b
  {
    if a + b >= WORD {
      RemainderIs(a + b, WORD, 1, a + b - WORD);
    }
  }

  /** Masking with 2^k - 1 is the remainder by 2^k. */
  lemma MaskIsRemainder(a: nat, k: nat)
    ensures And(a, Pow2(k) - 1) == a % Pow2(k)
  {
    MaskIsLow(a, k);
    LowIsRemainder(a, k);
  }

  lemma {:induction false} MaskIsLow(a: nat, k: nat)
    ensures And(a, Pow2(k) - 1) == Low(a, k)
    decreases k
  {
    if k == 0 {
      AndZero(a);
    } else {
      MaskIsLow(a / 2, k - 1);
      assert (Pow2(k) - 1) / 2 == Pow2(k - 1) - 1 && (Pow2(k) - 1) % 2 == 1;
    }
  }

  lemma HalfRemainder(a: nat, p: nat)
    requires p > 0
    ensures a % (2 * p) == 2 * (a / 2 % p) + a % 2
  {
    var q, r := a / 2 / p, a / 2 % p;
    assert a / 2 == p * q + r;
    assert 2 * (p * q) == (2 * p) * q;
    RemainderIs(a, 2 * p, q, 2 * r + a % 2);
  }

  lemma RemainderIs(a: nat, m: nat, q: nat, r: nat)
    requires a == m * q + r && r < m
    ensures a / m == q && a % m == r
  {
    MulGap(m, a / m - q);
    assert m * (a / m - q) == r - a % m;
  }

  lemma MulGap(m: nat, d: int)
    ensures d > 0 ==> m * d >= m
    ensures d < 0 ==> m * d + m <= 0
  {
  }

  lemma {:induction false} AndZero(a: nat)
    ensures And(a, 0) == 0
    decreases a
  {
    if a != 0 {
      AndZero(a / 2);
    }
  }

  lemma {:induction false} AndSelf(a: nat)
    ensures And(a, a) == a
    decreases a
  {
    if a != 0 {
      AndSelf(a / 2);
    }
  }

  /** The test n & (n - 1) of the mount code is zero exactly on the powers of two. */
  lemma {:induction false} PowerOfTwoTest(n: nat)
    requires n > 0
    ensures And(n, n - 1) == 0 <==> IsPow2(n)
    decreases n
  {
    if n == 1 {
      assert 1 == Pow2(0);
    } else if n % 2 == 1 {
      assert (n - 1) / 2 == n / 2;
      AndSelf(n / 2);
    } else {
      PowerOfTwoTest(n / 2);
      assert (n - 1) / 2 == n / 2 - 1;
      if IsPow2(n / 2) {
        var k: nat :| n / 2 == Pow2(k);
        assert n == Pow2(k + 1);
      }
      if IsPow2(n) {
        var k: nat :| n == Pow2(k);
        assert n / 2 == Pow2(k - 1);
      }
    }
  }

  /** The operators << and >> of C (without a width), and the bits shifted out. */
  function Shl(a: nat, k: nat): nat {
    if k == 0 then a else 2 * Shl(a, k - 1)
  }

  function Shr(a: nat, k: nat): nat {
    if k == 0 then a else Shr(a / 2, k - 1)
  }

  function Low(a: nat, k: nat): nat {
    if k == 0 then 0 else a % 2 + 2 * Low(a / 2, k - 1)
  }

  lemma {:induction false} ShlIsProduct(a: nat, k: nat)
    ensures Shl(a, k) == a * Pow2(k)
  {
    if k != 0 {
      ShlIsProduct(a, k - 1);
      DoubleProduct(a, Pow2(k - 1));
    }
  }

  lemma DoubleProduct(a: nat, p: nat)
    ensures 2 * (a * p) == a * (2 * p)
  {
  }

  lemma {:induction false} ShrIsQuotient(a: nat, k: nat)
    ensures Shr(a, k) == a / Pow2(k)
    decreases k
  {
    if k != 0 {
      ShrIsQuotient(a / 2, k - 1);
      HalfQuotient(a, Pow2(k - 1));
    }
  }

  lemma {:induction false} LowIsRemainder(a: nat, k: nat)
    ensures Low(a, k) == a % Pow2(k)
    decreases k
  {
    if k != 0 {
      LowIsRemainder(a / 2, k - 1);
      HalfRemainder(a, Pow2(k - 1));
    }
  }

  lemma HalfQuotient(a: nat, p: nat)
    requires p > 0
    ensures a / (2 * p) == a / 2 / p
  {
    var q, r := a / 2 / p, a / 2 % p;
    assert a / 2 == p * q + r;
    assert 2 * (p * q) == (2 * p) * q;
    RemainderIs(a, 2 * p, q, 2 * r + a % 2);
  }

  /** & with a mask that is zero below bit k only looks at the bits from k on. */
  lemma {:induction false} AndHigh(a: nat, h: nat, k: nat)
    ensures And(a, Shl(h, k)) == Shl(And(Shr(a, k), h), k)
    decreases k
  {
    if k != 0 {
      AndHigh(a / 2, h, k - 1);
      assert Shl(h, k) / 2 == Shl(h, k - 1);
    }
  }

  /** | with a value that is zero below bit k leaves the bits below k alone. */
  lemma {:induction false} OrHigh(a: nat, h: nat, k: nat)
    ensures Or(a, Shl(h, k)) == Low(a, k) + Shl(Or(Shr(a, k), h), k)
    decreases k
  {
    if k != 0 {
      OrHigh(a / 2, h, k - 1);
      assert Shl(h, k) / 2 == Shl(h, k - 1);
      OrHead(a, Shl(h, k));
    }
  }

  lemma OrHead(a: nat, b: nat)
    ensures Or(a, b) == 2 * Or(a / 2, b / 2) + (if a % 2 == 1 || b % 2 == 1 then 1 else 0)
  {
  }

  lemma Pow28()
    ensures Pow2(28) == 0x1000_0000 && Pow2(4) == 16
  {
    assert Pow2(8) == 256;
    assert Pow2(12) == 4096;
    assert Pow2(16) == 0x1_0000;
    assert Pow2(20) == 0x10_0000;
    assert Pow2(24) == 0x100_0000;
  }

  lemma AndHighIs(a: nat, h: nat, k: nat, mask: nat, q: nat)
    requires mask == Shl(h, k) && q == Shr(a, k)
    ensures And(a, mask) == Shl(And(q, h), k)
  {
    AndHigh(a, h, k);
  }

  lemma OrHighIs(a: nat, h: nat, k: nat, x: nat, q: nat, r: nat)
    requires x == Shl(h, k) && q == Shr(a, k) && r == Low(a, k)
    ensures Or(a, x) == r + Shl(Or(q, h), k)
  {
    OrHigh(a, h, k);
  }

  /** Shifting by 28 in arithmetic. */
  lemma Shift28(a: nat)
    ensures Shl(a, 28) == a * 0x1000_0000
    ensures Shr(a, 28) == a / 0x1000_0000 && Low(a, 28) == a % 0x1000_0000
  {
    Pow28();
    ShlIsProduct(a, 28);
    ShrIsQuotient(a, 28);
    LowIsRemainder(a, 28);
  }

  /** The expression val | (old & 0xF0000000) of put_fat: the top four bits of both are
      merged, the lower 28 bits are those of val. */
  lemma MergeTop(val: nat, old': nat)
    requires val < WORD && old' < WORD
    ensures Or(val, And(old', 0xF000_0000))
            == val % 0x1000_0000 + 0x1000_0000 * Or(val / 0x1000_0000, old' / 0x1000_0000)
  {
    var q, q' := val / 0x1000_0000, old' / 0x1000_0000;
    Shift28(15);
    Shift28(old');
    AndHighIs(old', 15, 28, 0xF000_0000, q');
    Nibble(q');
    Shift28(val);
    OrHighIs(val, q', 28, Shl(q', 28), q, val % 0x1000_0000);
    Shift28(Or(q, q'));
  }

  lemma Nibble(q: nat)
    requires q < 16
    ensures And(q, 15) == q
  {
    hide *;
    Pow28();
    MaskIsRemainder(q, 4);
  }

  /** | of values below 2^k stays below 2^k. */
  lemma {:induction false} OrBound(a: nat, b: nat, k: nat)
    requires a < Pow2(k) && b < Pow2(k)
    ensures Or(a, b) < Pow2(k)
    decreases k
  {
    if k != 0 {
      OrBound(a / 2, b / 2, k - 1);
      OrHead(a, b);
    }
  }

  lemma {:induction false} Pow2Sum(a: nat, b: nat)
    ensures Pow2(a) * Pow2(b) == Pow2(a + b)
  {
    if a != 0 {
      Pow2Sum(a - 1, b);
      DoubleProduct(Pow2(b), Pow2(a - 1));
    }
  }

  lemma Pow32()
    ensures Pow2(32) == WORD
  {
    Pow28();
    assert Pow2(32) == 16 * Pow2(28);
  }

  /** Masking with the complement of 2^k - 1 rounds down to a multiple of 2^k. */
  lemma ClearLow(x: nat, k: nat)
    requires x < WORD && k <= 32
    ensures Pow2(k) <= WORD && And(x, WORD - Pow2(k)) == x - x % Pow2(k)
  {
    hide *;
    var p, m := Pow2(k), Pow2(32 - k);
    Pow32();
    Pow2Sum(32 - k, k);
    assert (m - 1) * p == WORD - p && WORD - p >= 0 by {
      PredProduct(m, p);
    }
    ShlIsProduct(m - 1, k);
    AndHigh(x, m - 1, k);
    ShrIsQuotient(x, k);
    QuotientBound(x, p, m);
    MaskIsRemainder(x / p, 32 - k);
    ShlIsProduct(x / p, k);
  }

  lemma PredProduct(m: nat, p: nat)
    requires m > 0
    ensures (m - 1) * p == m * p - p && m * p >= p
  {
    MulGap(p, m - 1);
  }

  lemma QuotientBound(x: nat, p: nat, m: nat)
    requires p > 0 && x < m * p
    ensures x / p < m && x / p % m == x / p && x / p * p == x - x % p
  {
    var q, r := x / p, x % p;
    assert x == p * q + r;
    MulOrder(q, m, p);
    assert q < m;
    RemainderIs(q, m, 0, q);
  }

  lemma MulOrder(q: nat, m: nat, p: nat)
    ensures q >= m ==> p * q >= m * p
  {
    MulGap(p, q - m);
    assert p * (q - m) == p * q - m * p;
  }
}
