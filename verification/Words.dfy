/**
 Machine words and power-of-two arithmetic shared by the driver models.
 A 64-bit bus address travels through descriptors as two 32-bit halves, and the
 ring indices wrap with a bit mask instead of a remainder.
 */
module Words {
  const TWO_32 := 0x1_0000_0000
  const TWO_64 := 0x1_0000_0000_0000_0000

  type Byte = x: int | 0 <= x < 256
  type Word = x: int | 0 <= x < 0x1_0000_0000
  type Addr = x: int | 0 <= x < 0x1_0000_0000_0000_0000

  datatype Option<+T> = None | Some(value: T)

  /** PCI_DMA_L */
  function Lo(a: Addr): Word {
    a % TWO_32
  }

  /** PCI_DMA_H */
  function Hi(a: Addr): Word {
    a / TWO_32
  }

  /** The address the device reassembles from the two halves. */
  function Join(hi: Word, lo: Word): Addr {
    hi * TWO_32 + lo
  }

  lemma JoinOfHalves(a: Addr)
    ensures Join(Hi(a), Lo(a)) == a
  {
  }

  /** The 64-bit address that an address computation past 2^64 wraps to. */
  function Wrap(x: nat): Addr {
    if x < TWO_64 then x else Wrap(x - TWO_64)
  }

  lemma {:induction false} WrapIsMod(x: nat)
    ensures Wrap(x) == x % TWO_64
  {
    if x >= TWO_64 {
      WrapIsMod(x - TWO_64);
    }
  }

  lemma WrapAdd(x: nat, y: nat)
    ensures Wrap(Wrap(x) + y) == Wrap(x + y)
  {
    WrapIsMod(x);
    WrapIsMod(x % TWO_64 + y);
    WrapIsMod(x + y);
  }

  /** 32-bit addition and subtraction. */
  function AddWord(a: Word, b: Word): Word {
    if a + b < TWO_32 then a + b else a + b - TWO_32
  }

  function SubWord(a: Word, b: Word): Word {
    if a >= b then a - b else a - b + TWO_32
  }

  /** The conversion to a 32-bit int. */
  function ToInt(x: int): (r: int)
    ensures -0x8000_0000 <= r < 0x8000_0000
    decreases if x >= 0x8000_0000 then x else if x < -0x8000_0000 then -x else 0
  {
    if x >= 0x8000_0000 then ToInt(x - TWO_32)
    else if x < -0x8000_0000 then ToInt(x + TWO_32)
    else x
  }

  /** It keeps the low 32 bits. */
  lemma {:induction false} ToIntKeepsBits(x: int)
    ensures (x - ToInt(x)) % TWO_32 == 0
    decreases if x >= 0x8000_0000 then x else if x < -0x8000_0000 then -x else 0
  {
    if x >= 0x8000_0000 {
      ToIntKeepsBits(x - TWO_32);
    } else if x < -0x8000_0000 {
      ToIntKeepsBits(x + TWO_32);
    }
  }

  function Pow2(k: nat): (r: nat)
    ensures r >= 1
  {
    if k == 0 then 1 else 2 * Pow2(k - 1)
  }

  /** The bitwise AND of two natural numbers, bit by bit from the lowest. */
  function BitAnd(x: nat, y: nat): nat {
    if x == 0 || y == 0 then 0
    else 2 * BitAnd(x / 2, y / 2) + (if x % 2 == 1 && y % 2 == 1 then 1 else 0)
  }

  lemma HalfOfMod(x: nat, m: nat)
    requires m >= 1
    ensures x % (2 * m) == 2 * ((x / 2) % m) + x % 2
  {
    var q, r := (x / 2) / m, (x / 2) % m;
    assert x / 2 == q * m + r;
    assert x == 2 * (x / 2) + x % 2;
    assert x == q * (2 * m) + (2 * r + x % 2) by {
      assert 2 * (q * m) == q * (2 * m);
    }
    ModUnique(x, 2 * m, q, 2 * r + x % 2);
  }

  lemma ModUnique(x: int, n: int, q: int, r: int)
    requires n > 0 && 0 <= r < n && x == q * n + r
    ensures x % n == r && x / n == q
  {
    var q', r' := x / n, x % n;
    assert x == q' * n + r' by { assert q' * n == n * q'; }
    assert (q - q') * n == r' - r;
    SmallMultiple(q - q', n);
  }

  /** Only the zero multiple of n lies strictly between -n and n. */
  lemma SmallMultiple(d: int, n: int)
    requires n > 0 && -n < d * n < n
    ensures d == 0
  {
    assert d >= 1 ==> d * n >= n;
    assert d <= -1 ==> d * n <= -n;
  }

  /** Masking with N - 1 is the remainder by N for every power of two N. */
  lemma {:induction false} MaskIsMod(x: nat, k: nat)
    ensures BitAnd(x, Pow2(k) - 1) == x % Pow2(k)
  {
    if k == 0 {
      assert Pow2(0) == 1;
    } else {
      var m := Pow2(k - 1);
      HalfOfMod(x, m);
      if x == 0 {
        ModUnique(0, Pow2(k), 0, 0);
      } else {
        MaskIsMod(x / 2, k - 1);
        if m > 1 {
          assert (2 * m - 1) / 2 == m - 1 && (2 * m - 1) % 2 == 1;
        } else {
          assert (2 * m - 1) / 2 == 0 && (x / 2) % 1 == 0;
        }
      }
    }
  }

  lemma ModStep(j: nat, n: nat)
    requires n > 0
    ensures (j + 1) % n == (j % n + 1) % n
  {
    var q, r := j / n, j % n;
    if r + 1 < n {
      ModUnique(r + 1, n, 0, r + 1);
      ModUnique(j + 1, n, q, r + 1);
    } else {
      ModUnique(r + 1, n, 1, 0);
      assert (q + 1) * n == q * n + n;
      ModUnique(j + 1, n, q + 1, 0);
    }
  }

  lemma ModPeriod(j: nat, n: nat)
    requires n > 0
    ensures (j + n) % n == j % n
  {
    var q := j / n;
    assert (q + 1) * n == q * n + n;
    ModUnique(j + n, n, q + 1, j % n);
  }

  /** The remainders of two numbers less than n apart determine their difference. */
  lemma ModDifference(a: nat, b: nat, n: nat)
    requires n > 0 && a <= b < a + n
    ensures (b % n - a % n) % n == b - a
  {
    var qa, qb := a / n, b / n;
    assert (qa - qb) * n == qa * n - qb * n;
    ModUnique(b % n - a % n, n, qa - qb, b - a);
  }

  lemma {:induction false} Pow2Add(a: nat, b: nat)
    ensures Pow2(a + b) == Pow2(a) * Pow2(b)
  {
    if a > 0 {
      Pow2Add(a - 1, b);
      assert (2 * Pow2(a - 1)) * Pow2(b) == 2 * (Pow2(a - 1) * Pow2(b));
    }
  }

  lemma ModOfMultiple(x: int, n: int, m: int)
    requires n > 0 && m > 0
    ensures (x % (m * n)) % n == x % n
  {
    assert m * n >= 1 by { SmallProduct(m, n); }
    var q, r := x / (m * n), x % (m * n);
    assert x == q * (m * n) + r;
    assert q * (m * n) == (q * m) * n;
    var t := r / n;
    assert x == (q * m + t) * n + r % n by {
      assert r == t * n + r % n;
      assert (q * m + t) * n == (q * m) * n + t * n;
    }
    ModUnique(x, n, q * m + t, r % n);
  }

  lemma SmallProduct(m: int, n: int)
    requires m >= 1 && n >= 1
    ensures m * n >= 1
  {
  }

  /** Position r of row s in a table of rows of length len, after wrapping at n rows. */
  lemma WrappedIndex(s: nat, r: nat, n: nat, len: nat)
    requires n > 0 && r < len
    ensures n * len > 0
    ensures (len * s + r) % (n * len) == len * (s % n) + r
  {
    SmallProduct(n, len);
    var q, t := s / n, s % n;
    assert len * (q * n + t) == q * (n * len) + len * t by {
      assert len * (q * n) == q * (n * len);
    }
    assert len * t + r < n * len by {
      MulMonotonic(t + 1, n, len);
      assert (t + 1) * len == len * t + len;
    }
    ModUnique(len * s + r, n * len, q, len * t + r);
  }

  lemma WrappedShift(s: nat, d: nat, r: nat, n: nat, len: nat)
    requires n > 0 && r < len
    ensures n * len > 0
    ensures (len * s + (len * d + r)) % (n * len) == len * ((s + d) % n) + r
  {
    WrappedIndex(s + d, r, n, len);
    assert len * s + (len * d + r) == len * (s + d) + r;
  }

  lemma RowAndColumn(s: nat, r: nat, len: nat)
    requires r < len
    ensures (len * s + r) / len == s && (len * s + r) % len == r
  {
    ModUnique(len * s + r, len, s, r);
  }

  lemma DivBelow(x: nat, len: nat, n: nat)
    requires len > 0
    ensures x / len < n <==> x < n * len
  {
    var q, r := x / len, x % len;
    assert x == q * len + r;
    if q < n {
      assert (q + 1) * len == q * len + len;
      MulMonotonic(q + 1, n, len);
    } else {
      MulMonotonic(n, q, len);
    }
  }

  lemma MulMonotonic(a: int, b: int, c: nat)
    requires a <= b
    ensures a * c <= b * c
  {
  }

  lemma ModAddLeft(x: nat, step: nat, n: nat)
    requires n > 0
    ensures (x % n + step) % n == (x + step) % n
  {
    var q, s := x / n, x % n + step;
    assert x == q * n + x % n;
    assert (q + s / n) * n == q * n + (s / n) * n;
    assert s == (s / n) * n + s % n;
    ModUnique(x + step, n, q + s / n, s % n);
  }

  /** Masking after every addition is the same as masking once. */
  lemma MaskedStep(x: nat, step: nat, k: nat)
    ensures BitAnd(BitAnd(x, Pow2(k) - 1) + step, Pow2(k) - 1) == BitAnd(x + step, Pow2(k) - 1)
  {
    MaskIsMod(x, k);
    MaskIsMod(x % Pow2(k) + step, k);
    MaskIsMod(x + step, k);
    ModAddLeft(x, step, Pow2(k));
  }
}
