/** Small shared vocabulary: optional values, results, powers of two and the
    integer facts the block arithmetic rests on. */
module Common {

  /** The counterpart of std::optional: a value that may be absent. */
  datatype Optional<+T> = Absent | Present(value: T)

  /** The outcome of an operation that the program would abort with `die`. */
  datatype Result<+T, +E> = Ok(value: T) | Err(error: E)

  /** The outcome of an operation that returns nothing but may abort. */
  datatype Outcome<+E> = Pass | Fail(error: E)

  newtype byte = x: int | 0 <= x < 256

  function Min(a: int, b: int): (m: int)
  {
    if a <= b then a else b
  }

  /** Number of blocks of size `d` needed to hold `n` bytes. */
  function CeilDiv(n: nat, d: nat): (c: nat)
    requires d > 0
  {
    (n + d - 1) / d
  }

  /** The least multiple of `a` that is at least `x`. */
  function RoundUp(x: nat, a: nat): (r: nat)
    requires a > 0
    ensures x <= r && r % a == 0
  {
    CeilDivBounds(x, a);
    DivModUnique(CeilDiv(x, a) * a, a, CeilDiv(x, a), 0);
    CeilDiv(x, a) * a
  }

  /** A positive power of two. */
  predicate IsPow2(n: nat)
    decreases n
  {
    n == 1 || (n >= 2 && n % 2 == 0 && IsPow2(n / 2))
  }

  lemma DivModUnique(x: int, d: int, q: int, m: int)
    requires d > 0 && 0 <= m < d && x == q * d + m
    ensures x / d == q && x % d == m
  {
    var q0, m0 := x / d, x % d;
    assert x == q0 * d + m0;
    assert (q0 - q) * d == m - m0;
    if q0 > q {
      MulLe(1, q0 - q, d);
    } else if q0 < q {
      MulLe(1, q - q0, d);
    }
  }

  /** Multiplication by a positive number keeps order. */
  lemma MulLe(a: nat, b: nat, c: nat)
    requires a <= b
    ensures a * c <= b * c
  {
  }

  /** `CeilDiv` is the least block count that covers `n` bytes. */
  lemma CeilDivBounds(n: nat, d: nat)
    requires d > 0
    ensures n <= CeilDiv(n, d) * d
    ensures CeilDiv(n, d) > 0 ==> (CeilDiv(n, d) - 1) * d < n
  {
    var c := CeilDiv(n, d);
    var r := (n + d - 1) % d;
    assert n + d - 1 == c * d + r;
    assert c * d == n + d - 1 - r;
    if c > 0 {
      assert (c - 1) * d == c * d - d;
    }
  }

  lemma {:induction false} Pow2Positive(n: nat)
    requires IsPow2(n)
    ensures n >= 1
  {
  }

  /** Of two powers of two, the smaller divides the larger. */
  lemma {:induction false} Pow2Divides(a: nat, b: nat)
    requires IsPow2(a) && IsPow2(b) && a <= b
    ensures b % a == 0
  {
    if a == 1 {
    } else {
      assert b != 1;
      Pow2Divides(a / 2, b / 2);
      var m := (b / 2) / (a / 2);
      assert b / 2 == m * (a / 2);
      assert b == m * a;
      DivModUnique(b, a, m, 0);
    }
  }

  /** Multiples of `c` are closed under addition and scaling. */
  lemma MultipleAdd(x: nat, y: nat, c: nat)
    requires c > 0 && x % c == 0 && y % c == 0
    ensures (x + y) % c == 0
  {
    DivModUnique(x + y, c, x / c + y / c, 0);
  }

  lemma MultipleScale(k: nat, x: nat, c: nat)
    requires c > 0 && x % c == 0
    ensures (k * x) % c == 0
  {
    assert k * x == (k * (x / c)) * c;
    DivModUnique(k * x, c, k * (x / c), 0);
  }

  /** Divisibility is transitive. */
  lemma MultipleTrans(x: nat, y: nat, c: nat)
    requires c > 0 && y > 0 && x % y == 0 && y % c == 0
    ensures x % c == 0
  {
    assert x == (x / y) * y;
    MultipleScale(x / y, y, c);
  }
}
