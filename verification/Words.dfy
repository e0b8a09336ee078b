/** Fixed-width machine arithmetic: powers of two, bitwise OR and the byte type. */
module Words {
  type byte = b: int | 0 <= b < 0x100

  datatype Option<+T> = None | Some(value: T)

  const U32: int := 0x1_0000_0000
  const U64: int := 0x1_0000_0000_0000_0000

  function Pow2(k: nat): (r: nat)
    ensures r >= 1
  {
    if k == 0 then 1 else 2 * Pow2(k - 1)
  }

  /** C's `x | y` on unsigned integers, bit by bit. */
  function BitOr(x: nat, y: nat): nat {
    if x == 0 then y
    else if y == 0 then x
    else (if x % 2 == 1 || y % 2 == 1 then 1 else 0) + 2 * BitOr(x / 2, y / 2)
  }

  /** Bit `k` of `x`. */
  predicate Bit(x: nat, k: nat) {
    if k == 0 then x % 2 == 1 else Bit(x / 2, k - 1)
  }

  lemma {:induction false} Pow2Values()
    ensures Pow2(3) == 8 && Pow2(7) == 0x80 && Pow2(8) == 0x100 && Pow2(16) == 0x1_0000
    ensures Pow2(24) == 0x100_0000 && Pow2(32) == U32 && Pow2(64) == U64
  {
    assert Pow2(8) == 0x100;
    assert Pow2(16) == 0x1_0000;
    assert Pow2(24) == 0x100_0000;
    assert Pow2(32) == U32;
    Pow2Sum(32, 32);
  }

  lemma {:induction false} Pow2Sum(a: nat, b: nat)
    ensures Pow2(a + b) == Pow2(a) * Pow2(b)
  {
    if a > 0 {
      Pow2Sum(a - 1, b);
      assert Pow2(a) * Pow2(b) == 2 * (Pow2(a - 1) * Pow2(b));
    }
  }

  /** OR-ing in bits above position `k` is addition. */
  lemma {:induction false} OrDisjoint(x: nat, y: nat, k: nat)
    requires x < Pow2(k)
    ensures y * Pow2(k) >= 0
    ensures BitOr(x, y * Pow2(k)) == x + y * Pow2(k)
  {
    if k > 0 && x > 0 && y > 0 {
      var z := y * Pow2(k - 1);
      assert z >= 1 && y * Pow2(k) == 2 * z;
      assert y * Pow2(k) / 2 == z && (2 * z) % 2 == 0;
      OrDisjoint(x / 2, y, k - 1);
    }
  }

  lemma {:induction false} MulMod(a: nat, b: nat, m: nat)
    requires m > 0 && b > 0
    ensures (a % m) * b == (a * b) % (m * b)
  {
    var q, r := a / m, a % m;
    assert a == q * m + r;
    assert a * b == q * (m * b) + r * b by {
      assert (q * m + r) * b == q * m * b + r * b;
      assert q * m * b == q * (m * b);
    }
    assert 0 <= r * b < m * b;
    ModUnique(a * b, q, m * b, r * b);
  }

  lemma {:induction false} ModUnique(x: int, q: int, m: nat, r: int)
    requires m > 0 && 0 <= r < m && x == q * m + r
    ensures x % m == r && x / m == q
  {
    var d := q - x / m;
    assert d * m == x % m - r by {
      assert x == (x / m) * m + x % m;
      assert (q - x / m) * m == q * m - (x / m) * m;
    }
    MultipleIsFar(d, m);
  }

  lemma {:induction false} MultipleIsFar(d: int, m: nat)
    ensures d >= 1 ==> d * m >= m
    ensures d <= -1 ==> d * m <= -(m as int)
  {
    if d <= -1 {
      assert (-d) * m >= m;
      assert (-d) * m == -(d * m);
    }
  }

  /** The decoder's accumulation step: `r |= b << p` in an `n`-bit register. */
  lemma {:induction false} OrShift(n: nat, r: nat, b: nat, p: nat)
    requires p <= n && r < Pow2(p)
    ensures b * Pow2(p) >= 0
    ensures BitOr(r, (b * Pow2(p)) % Pow2(n)) == (r + b * Pow2(p)) % Pow2(n)
  {
    var top, low := Pow2(n - p), Pow2(p);
    Pow2Sum(n - p, p);
    MulMod(b, low, top);
    OrDisjoint(r, b % top, p);
    AddBelow(r, b, low, top);
  }

  /** Adding a number below `low` to a multiple of `low` never carries past `top * low`. */
  lemma {:induction false} AddBelow(r: nat, b: nat, low: nat, top: nat)
    requires r < low && top > 0
    ensures r + b * low >= 0
    ensures (r + b * low) % (top * low) == r + (b % top) * low
  {
    var q, y := b / top, b % top;
    assert y * low + low == (y + 1) * low <= top * low;
    assert b * low == q * (top * low) + y * low by {
      assert b == q * top + y;
      assert (q * top + y) * low == q * top * low + y * low;
      assert q * top * low == q * (top * low);
    }
    ModUnique(r + b * low, q, top * low, r + y * low);
  }

  lemma {:induction false} OrBit(x: nat, y: nat, k: nat)
    ensures Bit(BitOr(x, y), k) == (Bit(x, k) || Bit(y, k))
  {
    ZeroBits(k);
    if x > 0 && y > 0 {
      OrHalf(x, y);
      if k > 0 {
        OrBit(x / 2, y / 2, k - 1);
      }
    }
  }

  lemma {:induction false} OrHalf(x: nat, y: nat)
    ensures BitOr(x, y) / 2 == BitOr(x / 2, y / 2)
    ensures BitOr(x, y) % 2 == if x % 2 == 1 || y % 2 == 1 then 1 else 0
  {
    if x > 0 && y > 0 {
      var h := BitOr(x / 2, y / 2);
      assert BitOr(x, y) == (if x % 2 == 1 || y % 2 == 1 then 1 else 0) + 2 * h;
    }
  }

  lemma {:induction false} ZeroBits(k: nat)
    ensures !Bit(0, k)
  {
    if k > 0 { ZeroBits(k - 1); }
  }

  lemma {:induction false} Pow2Bits(p: nat, k: nat)
    ensures Bit(Pow2(p), k) == (k == p)
  {
    if p == 0 {
      if k > 0 { ZeroBits(k - 1); }
    } else if k > 0 {
      Pow2Bits(p - 1, k - 1);
    }
  }

  lemma {:induction false} OrBound(x: nat, y: nat, n: nat)
    requires x < Pow2(n) && y < Pow2(n)
    ensures BitOr(x, y) < Pow2(n)
  {
    if x > 0 && y > 0 {
      OrBound(x / 2, y / 2, n - 1);
    }
  }

  /** The first `n` bits of `x` are `r` ones followed by zeros. */
  ghost predicate IsRun(x: nat, r: nat, n: nat) {
    forall k: nat | k < n :: Bit(x, k) == (k < r)
  }

  /** An `n`-bit word is 2^r - 1 exactly when its bits are `r` ones followed by zeros. */
  lemma {:induction false} LowOnes(x: nat, r: nat, n: nat)
    requires r <= n && x < Pow2(n)
    ensures x == Pow2(r) - 1 <==> IsRun(x, r, n)
  {
    if n > 0 {
      var r' := if r == 0 then 0 else r - 1;
      LowOnes(x / 2, r', n - 1);
      assert Bit(x, 0) == (x % 2 == 1);
      assert x == Pow2(r) - 1 <==> x / 2 == Pow2(r') - 1 && Bit(x, 0) == (0 < r);
      if IsRun(x, r, n) {
        forall k: nat | k < n - 1
          ensures Bit(x / 2, k) == (k < r')
        {
          assert Bit(x, k + 1) == (k + 1 < r);
        }
      }
      if IsRun(x / 2, r', n - 1) && Bit(x, 0) == (0 < r) {
        forall k: nat | k < n
          ensures Bit(x, k) == (k < r)
        {
          if k > 0 { assert Bit(x / 2, k - 1) == (k - 1 < r'); }
        }
      }
    }
  }
}
