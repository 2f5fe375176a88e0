/**
  The arithmetic behind rejection sampling: which 32-bit draws
  `linbox_prng_uniform` accepts and how they spread over the residues.
 */
module Rejection {
  import opened Arithmetic
  import opened Basics

  const DRAWS: nat := 0x1_0000_0000

  /** The C expression `(uint32_t)(-upper_bound) % upper_bound`: unsigned negation, then remainder. */
  function Threshold(bound: U32): (t: U32)
    requires bound > 0
    ensures t == DRAWS % bound
  {
    var negated := (DRAWS - bound) % DRAWS;
    assert DRAWS % bound == negated % bound by { AddMultiple(1, DRAWS - bound, bound); }
    negated % bound
  }

  predicate Accepted(bound: U32, draw: U32)
    requires bound > 0
  {
    draw >= Threshold(bound)
  }

  /** The accepted draws that `linbox_prng_uniform` turns into `v`. */
  ghost function Preimages(bound: U32, v: nat): set<nat>
    requires bound > 0
  {
    set r: nat | r < DRAWS && Accepted(bound, r) && r % bound == v
  }

  /** The draws turned away are the smallest ones, as many as 2^32 leaves over. */
  lemma RejectedAreSmallest(bound: U32, draw: U32)
    requires bound > 0
    ensures Accepted(bound, draw) <==> 0x1_0000_0000 % bound <= draw
  {}

  lemma SameResidueNear(a: nat, b: nat, n: nat)
    requires n > 0 && a % n == b % n && a < b + n && b < a + n
    ensures a == b
  {
    var d: int := a / n - b / n;
    assert d * n == (a / n) * n - (b / n) * n;
    MultipleIsFar(d, n);
  }

  /** Any window of `n` consecutive naturals meets each residue exactly once. */
  lemma OnePerWindow(lo: nat, n: nat, v: nat) returns (e: nat)
    requires v < n
    ensures lo <= e < lo + n && e % n == v
    ensures forall r: nat | lo <= r < lo + n && r % n == v :: r == e
  {
    var q, base: int := lo / n, lo - lo % n;
    assert base == q * n && (q + 1) * n == base + n;
    QuotientUnique(base + v, n, q, v);
    QuotientUnique(base + n + v, n, q + 1, v);
    e := if v >= lo % n then base + v else base + n + v;
    forall r: nat | lo <= r < lo + n && r % n == v
      ensures r == e
    {
      SameResidueNear(r, e, n);
    }
  }

  lemma {:induction false} WindowCount(lo: nat, k: nat, n: nat, v: nat)
    requires v < n
    ensures |set r: nat | lo <= r < lo + k * n && r % n == v| == k
  {
    var all := set r: nat | lo <= r < lo + k * n && r % n == v;
    if k == 0 {
      assert all == {};
    } else {
      var mid := lo + (k - 1) * n;
      assert lo + k * n == mid + n by { assert k * n == (k - 1) * n + n; }
      var rest := set r: nat | lo <= r < mid && r % n == v;
      WindowCount(lo, k - 1, n, v);
      var e := OnePerWindow(mid, n, v);
      assert all == rest + {e};
    }
  }

  /** Exactly unbiased: every value below the bound comes from the same number of accepted draws. */
  lemma Unbiased(bound: U32, v: nat)
    requires v < bound
    ensures |Preimages(bound, v)| == 0x1_0000_0000 / bound
  {
    var t := Threshold(bound);
    var k := DRAWS / bound;
    assert t + k * bound == DRAWS;
    WindowCount(t, k, bound, v);
    assert Preimages(bound, v) == set r: nat | t <= r < t + k * bound && r % bound == v;
  }

  /** More than half of all draws are accepted, whatever the bound. */
  lemma MostDrawsAccepted(bound: U32)
    requires bound > 0
    ensures 2 * |set r: nat | r < 0x1_0000_0000 && Accepted(bound, r)| > 0x1_0000_0000
  {
    var t := Threshold(bound);
    var accepted := set r: nat | r < DRAWS && Accepted(bound, r);
    WindowCount(t, DRAWS - t, 1, 0);
    assert accepted == set r: nat | t <= r < t + (DRAWS - t) * 1 && r % 1 == 0;
    var k := DRAWS / bound;
    assert t == DRAWS - k * bound && t < bound;
    assert k >= 1;
    assert k * bound >= bound;
  }
}
