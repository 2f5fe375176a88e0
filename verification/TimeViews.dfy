/**
  The ways src/shim/time.c shows one snapshot of virtual time, and when they
  agree. A snapshot is None when `linbox_virtual_now` fails.
 */
module TimeViews {
  import opened Arithmetic
  import opened Basics

  const USEC_PER_SEC: int := 1_000_000

  datatype Timeval = Timeval(sec: int, usec: int) {
    function Micros(): int {
      sec * USEC_PER_SEC + usec
    }
  }

  /** `linbox_virtual_gettimeofday` with a non-NULL `tv`; None is the error return. */
  function Gettimeofday(now: Option<Time>): Option<Timeval> {
    if now.None? then None else Some(Timeval(now.value.sec, CDiv(now.value.nsec, 1000)))
  }

  /** `linbox_virtual_time`. */
  function TimeOf(now: Option<Time>): int {
    if now.None? then -1 else now.value.sec
  }

  /** The tick count of `times` at `hz` ticks a second, in int64_t throughout. */
  function Ticks(t: Time, hz: int): int {
    Wrap64(Wrap64(t.sec * hz) + CDiv(Wrap64(t.nsec * hz), NS_PER_SEC))
  }

  /** The instant in ticks, rounded down. */
  function TickFloor(t: Time, hz: int): int {
    t.Total() * hz / NS_PER_SEC
  }

  function Times(now: Option<Time>, hz: int): int {
    if now.None? || hz <= 0 then -1 else Ticks(now.value, hz)
  }

  /** Without a snapshot, or a tick rate, the calls fail. */
  lemma ViewsFailTogether(now: Option<Time>, hz: int)
    ensures now.None? <==> Gettimeofday(now).None?
    ensures now.None? ==> TimeOf(now) == -1 && Times(now, hz) == -1
    ensures hz <= 0 ==> Times(now, hz) == -1
  {}

  lemma FloorExactly(a: int, n: int)
    requires n > 0
    ensures CDiv(a, n) == a / n <==> a >= 0 || a % n == 0
    ensures CDiv(a, n) >= a / n
  {
    if a < 0 {
      var q, r := (-a) / n, (-a) % n;
      assert -a == q * n + r;
      if r == 0 {
        QuotientUnique(a, n, -q, 0);
      } else {
        assert a == (-q - 1) * n + (n - r);
        QuotientUnique(a, n, -q - 1, n - r);
      }
    }
  }

  /** The formula without overflow. */
  lemma SplitIsFloorExactly(t: Time, hz: int)
    requires hz > 0
    ensures t.sec * hz + CDiv(t.nsec * hz, NS_PER_SEC) == TickFloor(t, hz)
            <==> t.nsec >= 0 || t.nsec * hz % NS_PER_SEC == 0
    ensures 0 <= t.sec * hz + CDiv(t.nsec * hz, NS_PER_SEC) - TickFloor(t, hz) <= 1
  {
    assert t.Total() * hz == (t.sec * hz) * NS_PER_SEC + t.nsec * hz;
    AddMultiple(t.sec * hz, t.nsec * hz, NS_PER_SEC);
    FloorExactly(t.nsec * hz, NS_PER_SEC);
    assert t.nsec >= 0 <==> t.nsec * hz >= 0 by {
      if t.nsec >= 0 {
        assert t.nsec * hz >= 0;
      } else {
        assert t.nsec * hz < 0;
      }
    }
  }

  /** The split formula of `times` is the whole-nanosecond count scaled and floored, for either
      sign of the seconds, exactly when that fits int64_t and nothing negative is truncated away. */
  lemma TicksAreFloorExactly(t: Time, hz: int)
    requires hz > 0 && InInt64(t.nsec * hz)
    ensures Ticks(t, hz) == TickFloor(t, hz)
            <==> InInt64(TickFloor(t, hz)) && (t.nsec >= 0 || t.nsec * hz % NS_PER_SEC == 0)
  {
    hide Wrap64, TickFloor;
    SplitIsFloorExactly(t, hz);
    var part := CDiv(t.nsec * hz, NS_PER_SEC);
    WrapAdds(t.sec * hz, part);
    WrapIsExactly(t.sec * hz + part, TickFloor(t, hz));
  }

  /** A wrapped value is a number close to it exactly when they are equal and fit. */
  lemma WrapIsExactly(x: int, y: int)
    requires -TWO64 < x - y < TWO64
    ensures Wrap64(x) == y <==> x == y && InInt64(y)
  {}

  /** For a normalized time the product with the nanoseconds has to fit as well. */
  lemma NormalizedTicksAreFloorExactly(t: Time, hz: I64)
    requires t.Normalized() && hz > 0
    ensures Ticks(t, hz) == TickFloor(t, hz) <==> InInt64(TickFloor(t, hz)) && InInt64(t.nsec * hz)
  {
    var x := t.nsec * hz;
    if InInt64(x) {
      TicksAreFloorExactly(t, hz);
    } else {
      hide Wrap64, TickFloor;
      SplitIsFloorExactly(t, hz);
      ScaledProduct(t.nsec, hz);
      WrappedProductIsFar(x);
      WrapAdds(t.sec * hz, CDiv(Wrap64(x), NS_PER_SEC));
      WrapIsExactly(t.sec * hz + CDiv(Wrap64(x), NS_PER_SEC), TickFloor(t, hz));
    }
  }

  lemma ScaledProduct(nsec: int, hz: I64)
    requires 0 <= nsec < NS_PER_SEC && hz > 0
    ensures 0 <= nsec * hz < NS_PER_SEC * TWO63
  {
    assert nsec * hz <= NS_PER_SEC * hz;
  }

  lemma WrappedProductIsFar(x: int)
    requires TWO63 <= x < NS_PER_SEC * TWO63
    ensures 0 < CDiv(x, NS_PER_SEC) - CDiv(Wrap64(x), NS_PER_SEC) < TWO64
  {}

  /** `gettimeofday` is the floor to microseconds exactly when no negative part is truncated. */
  lemma MicrosAreFloorExactly(t: Time)
    ensures Gettimeofday(Some(t)).value.Micros() == t.Total() / 1000 <==> t.nsec >= 0 || t.nsec % 1000 == 0
  {
    assert t.Total() == (t.sec * USEC_PER_SEC) * 1000 + t.nsec;
    AddMultiple(t.sec * USEC_PER_SEC, t.nsec, 1000);
    FloorExactly(t.nsec, 1000);
  }

  /** The views of one normalized snapshot describe the same instant, each rounded down to its unit;
      the tick count does exactly as far as int64_t reaches. */
  lemma ViewsAgree(t: Time, hz: I64)
    requires t.Normalized() && hz > 0
    ensures var tv := Gettimeofday(Some(t)).value;
            && tv.sec == TimeOf(Some(t)) == t.Total() / NS_PER_SEC
            && 0 <= tv.usec < 1_000_000
            && tv.sec * 1_000_000 + tv.usec == tv.Micros() == t.Total() / 1000
    ensures Times(Some(t), hz) == TickFloor(t, hz) <==> InInt64(TickFloor(t, hz)) && InInt64(t.nsec * hz)
    ensures TickFloor(t, hz) / hz == TimeOf(Some(t))
  {
    hide Ticks;
    MicrosAreFloorExactly(t);
    NormalizedTicksAreFloorExactly(t, hz);
    SplitIsFloorExactly(t, hz);
    QuotientUnique(t.Total(), NS_PER_SEC, t.sec, t.nsec);
    var part := t.nsec * hz / NS_PER_SEC;
    assert 0 <= part < hz && 0 <= t.nsec * hz by {
      ScaledBelow(t.nsec, hz);
    }
    QuotientUnique(t.sec * hz + part, hz, t.sec, part);
  }

  lemma ScaledBelow(nsec: int, hz: int)
    requires 0 <= nsec < NS_PER_SEC && hz > 0
    ensures 0 <= nsec * hz && 0 <= nsec * hz / NS_PER_SEC < hz
  {
    assert 0 <= nsec * hz;
    assert nsec * hz < NS_PER_SEC * hz;
  }

  lemma FloorMonotone(a: int, b: int, n: int)
    requires a <= b && n > 0
    ensures a / n <= b / n
  {
    var d := a / n - b / n;
    assert d * n == (a / n) * n - (b / n) * n;
    assert d >= 1 ==> d * n >= n;
  }

  lemma ScaleMonotone(a: int, b: int, hz: int)
    requires a <= b && hz > 0
    ensures a * hz <= b * hz
  {}

  /** No view runs backwards when the snapshots do not, ticks as far as int64_t reaches. */
  lemma ViewsAreMonotone(a: Time, b: Time, hz: I64)
    requires a.Normalized() && b.Normalized() && hz > 0 && a.Total() <= b.Total()
    ensures TimeOf(Some(a)) <= TimeOf(Some(b))
    ensures Gettimeofday(Some(a)).value.Micros() <= Gettimeofday(Some(b)).value.Micros()
    ensures InInt64(TickFloor(a, hz)) && InInt64(TickFloor(b, hz)) && InInt64(a.nsec * hz) && InInt64(b.nsec * hz) ==>
              Times(Some(a), hz) <= Times(Some(b), hz)
  {
    hide Gettimeofday, TimeOf, Times, Ticks, TickFloor;
    ViewsAgree(a, hz);
    ViewsAgree(b, hz);
    FloorMonotone(a.Total(), b.Total(), NS_PER_SEC);
    FloorMonotone(a.Total(), b.Total(), 1000);
    TickFloorMonotone(a, b, hz);
  }

  lemma TickFloorMonotone(a: Time, b: Time, hz: int)
    requires hz > 0 && a.Total() <= b.Total()
    ensures TickFloor(a, hz) <= TickFloor(b, hz)
  {
    ScaleMonotone(a.Total(), b.Total(), hz);
    FloorMonotone(a.Total() * hz, b.Total() * hz, NS_PER_SEC);
  }
}
