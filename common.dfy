/** Small shared vocabulary: an Option type, machine word ranges and powers of two. */
module Common {

  datatype Option<T> = None | Some(value: T)

  /** `unsigned long` / `uint32_t` on the AVR target. */
  type u32 = x: int | 0 <= x < 0x1_0000_0000

  /** `uint8_t` and `uint16_t`. */
  type u8 = x: int | 0 <= x < 0x100
  type u16 = x: int | 0 <= x < 0x1_0000

  /** `int` (16-bit) and `long` (32-bit) on the AVR target. */
  type i16 = x: int | -0x8000 <= x < 0x8000
  type i32 = x: int | -0x8000_0000 <= x < 0x8000_0000

  const TwoTo32: int := 0x1_0000_0000
  const TwoTo31: int := 0x8000_0000

  /** Signed 32-bit (`long` on the AVR target). */
  predicate IsLong(x: int) {
    -TwoTo31 <= x < TwoTo31
  }

  /** Signed 16-bit (`int` on the AVR target). */
  predicate IsInt16(x: int) {
    -0x8000 <= x < 0x8000
  }

  function Pow2(n: nat): (r: nat)
    ensures r >= 1
  {
    if n == 0 then 1 else 2 * Pow2(n - 1)
  }

  lemma {:induction false} Pow2Monotone(m: nat, n: nat)
    requires m <= n
    ensures Pow2(m) <= Pow2(n)
  {
    if m < n {
      Pow2Monotone(m, n - 1);
    }
  }

  lemma {:induction false} Pow2Add(a: nat, b: nat)
    ensures Pow2(a + b) == Pow2(a) * Pow2(b)
  {
    if a > 0 {
      Pow2Add(a - 1, b);
    }
  }

  lemma Pow2Facts()
    ensures Pow2(8) == 256 && Pow2(31) == TwoTo31 && Pow2(32) == TwoTo32
  {
    assert Pow2(8) == 256;
    assert Pow2(16) == 0x1_0000;
    assert Pow2(24) == 0x100_0000;
    assert Pow2(31) == 0x8000_0000;
  }

  lemma {:induction false} MulAtLeast(d: int, n: int)
    requires d >= 1 && n > 0
    ensures d * n >= n
  {
    if d > 1 {
      MulAtLeast(d - 1, n);
      assert d * n == (d - 1) * n + n;
    }
  }

  /** The Euclidean remainder is the only `r` in [0, n) with `x == q * n + r`. */
  lemma ModUnique(x: int, n: int, q: int, r: int)
    requires n > 0 && 0 <= r < n && x == q * n + r
    ensures x % n == r
  {
    var q2 := x / n;
    var r2 := x % n;
    assert x == q2 * n + r2;
    assert (q - q2) * n == r2 - r;
    if q > q2 {
      MulAtLeast(q - q2, n);
    } else if q < q2 {
      MulAtLeast(q2 - q, n);
    }
  }

  /** The Euclidean quotient is the only `q` with `x == q * n + r` for some `r` in [0, n). */
  lemma DivUnique(x: int, n: int, q: int, r: int)
    requires n > 0 && 0 <= r < n && x == q * n + r
    ensures x / n == q
  {
    ModUnique(x, n, q, r);
    var q2 := x / n;
    assert x == q2 * n + r;
    assert (q - q2) * n == 0;
    if q > q2 {
      MulAtLeast(q - q2, n);
    } else if q < q2 {
      MulAtLeast(q2 - q, n);
    }
  }

  /** Reducing modulo a multiple of `m` first does not change the remainder modulo `m`. */
  lemma ModOfMod(r: int, m: int, k: int)
    requires m > 0 && k > 0
    ensures (r % (m * k)) % m == r % m
  {
    var y := r % (m * k);
    var q := r / (m * k);
    assert r == q * (m * k) + y;
    var z := y % m;
    var q2 := y / m;
    assert y == q2 * m + z;
    assert r == (q * k + q2) * m + z;
    ModUnique(r, m, q * k + q2, z);
  }

  /** Counting up by one modulo `n` wraps from `n - 1` to 0. */
  lemma ModNext(a: int, n: int)
    requires n > 0 && a >= 0
    ensures (a + 1) % n == if a % n + 1 == n then 0 else a % n + 1
  {
    var q := a / n;
    var r := a % n;
    assert a == q * n + r;
    if r + 1 == n {
      ModUnique(a + 1, n, q + 1, 0);
    } else {
      ModUnique(a + 1, n, q, r + 1);
    }
  }

  /** Conversion of any integer to `unsigned long`: the value modulo 2^32. */
  function ToUnsigned(x: int): (r: u32)
    ensures 0 <= x < TwoTo32 ==> r == x
  {
    x % TwoTo32
  }

  /** Adding a multiple of 2^32 changes nothing modulo 2^32. */
  lemma ShiftByWord(x: int, k: int)
    ensures ToUnsigned(x + k * TwoTo32) == ToUnsigned(x)
  {
    var q := x / TwoTo32;
    assert x == q * TwoTo32 + x % TwoTo32;
    assert x + k * TwoTo32 == (q + k) * TwoTo32 + x % TwoTo32;
    ModUnique(x + k * TwoTo32, TwoTo32, q + k, x % TwoTo32);
  }

  /** Reducing one operand of a sum modulo 2^32 first does not change the sum modulo 2^32. */
  lemma WrapAdd(x: int, y: int)
    ensures ToUnsigned(ToUnsigned(x) + y) == ToUnsigned(x + y)
  {
    var q := x / TwoTo32;
    assert x == q * TwoTo32 + ToUnsigned(x);
    ShiftByWord(ToUnsigned(x) + y, q);
  }
}
