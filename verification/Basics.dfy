/** Types shared by the modules. */
module Basics {

  datatype Option<+T> = None | Some(value: T)

  /** The C integer types, as ranges of integers. */
  type U16 = n: int | 0 <= n < 0x1_0000
  type U32 = n: int | 0 <= n < 0x1_0000_0000
  type U64 = n: int | 0 <= n < 0x1_0000_0000_0000_0000
  type I32 = n: int | -0x8000_0000 <= n < 0x8000_0000
  type I64 = n: int | -0x8000_0000_0000_0000 <= n < 0x8000_0000_0000_0000

  const TWO64: int := 0x1_0000_0000_0000_0000
  const TWO63: int := 0x8000_0000_0000_0000

  predicate InInt64(x: int) {
    -TWO63 <= x < TWO63
  }

  /** Reduction to int64_t. C leaves signed overflow undefined; the model takes the two's
      complement result of the x86-64 instructions. */
  function Wrap64(x: int): (r: I64)
    ensures InInt64(x) ==> r == x
    ensures (x - r) % TWO64 == 0
  {
    (x + TWO63) % TWO64 - TWO63
  }

  ghost predicate NoDuplicates<T>(s: seq<T>) {
    forall i, j | 0 <= i < j < |s| :: s[i] != s[j]
  }

  const NS_PER_SEC: int := 1_000_000_000

  /** C's integer division and remainder, which truncate toward zero. */
  function CDiv(a: int, b: int): int
    requires b > 0
  {
    if a >= 0 then a / b else -((-a) / b)
  }

  function CMod(a: int, b: int): int
    requires b > 0
  {
    a - CDiv(a, b) * b
  }

  /** `struct timespec`. */
  datatype Time = Time(sec: int, nsec: int) {

    /** The instant in nanoseconds. */
    function Total(): int {
      sec * NS_PER_SEC + nsec
    }

    predicate Normalized() {
      0 <= nsec < NS_PER_SEC
    }
  }

  ghost predicate Nondecreasing(times: seq<Time>) {
    forall i, j | 0 <= i < j < |times| :: times[i].Total() <= times[j].Total()
  }
}

/** Facts about division that the solver does not find alone. */
module Arithmetic {
  import opened Basics

  lemma WrapAdds(x: int, d: int)
    ensures Wrap64(Wrap64(x) + d) == Wrap64(x + d)
  {
    var k := (x - Wrap64(x)) / TWO64;
    assert x == Wrap64(x) + k * TWO64;
  }

  lemma MultipleIsFar(d: int, n: int)
    requires n > 0
    ensures d >= 1 ==> d * n >= n
    ensures d <= -1 ==> d * n <= -n
  {
    if d >= 1 {
      assert d * n == n + (d - 1) * n;
    } else if d <= -1 {
      assert d * n == -n + (d + 1) * n;
    }
  }

  lemma QuotientUnique(v: int, n: int, q: int, rest: int)
    requires 0 <= rest < n && v == q * n + rest
    ensures v / n == q && v % n == rest
  {
    var d := v / n - q;
    assert d * n == (v / n) * n - q * n == rest - v % n;
    MultipleIsFar(d, n);
  }

  lemma AddMultiple(q: int, r: int, n: int)
    requires n > 0
    ensures (q * n + r) / n == q + r / n
    ensures (q * n + r) % n == r % n
  {
    assert q * n + r == (q + r / n) * n + r % n;
    QuotientUnique(q * n + r, n, q + r / n, r % n);
  }
}
