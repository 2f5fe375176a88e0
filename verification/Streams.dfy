/**
  What the streams of src/shim/prng.c have in common and what keeps them apart:
  the step permutes the states, seeds and pids are not confused, and a stream of
  bytes does not depend on how it is cut into whole-word requests.
 */
module Streams {
  import opened Basics
  import opened Words
  import opened Rejection
  import opened Prng

  // ---- Stepping ------------------------------------------------------------

  lemma StepInjective(s: bv64, t: bv64)
    ensures Step(s) == Step(t) <==> s == t
  {
    hide *;
    StepInverse(s);
    StepInverse(t);
  }

  lemma StepFixesZero()
    ensures Step(0) == 0
  {}

  /** A nonzero state never decays to the absorbing state 0. */
  lemma {:induction false} NonzeroForever(s: bv64, k: nat)
    ensures StateAfter(s, k) == 0 <==> s == 0
  {
    hide Step;
    if k > 0 {
      NonzeroForever(s, k - 1);
      StepFixesZero();
      StepInjective(StateAfter(s, k - 1), 0);
    }
  }

  lemma {:induction false} StatesDiffer(s: bv64, t: bv64, k: nat)
    ensures StateAfter(s, k) == StateAfter(t, k) <==> s == t
  {
    hide Step;
    if k > 0 {
      StatesDiffer(s, t, k - 1);
      StepInjective(StateAfter(s, k - 1), StateAfter(t, k - 1));
    }
  }

  /** Streams of different states differ in every single output. */
  lemma StreamsDiffer(s: bv64, t: bv64, k: nat)
    ensures WordAt(s, k) == WordAt(t, k) <==> s == t
  {
    hide Step, MulOut;
    StatesDiffer(s, t, k + 1);
    MulOutInverse(StateAfter(s, k + 1));
    MulOutInverse(StateAfter(t, k + 1));
  }

  lemma {:induction false} StateAfterSum(s: bv64, j: nat, k: nat)
    ensures StateAfter(StateAfter(s, j), k) == StateAfter(s, j + k)
  {
    hide Step;
    if k > 0 {
      StateAfterSum(s, j, k - 1);
    }
  }

  /** Every state lies `k` steps after some state. */
  lemma {:induction false} StateBefore(t: bv64, k: nat) returns (s: bv64)
    ensures StateAfter(s, k) == t
    decreases k
  {
    hide Step, Unstep;
    if k == 0 {
      s := t;
    } else {
      s := StateBefore(Unstep(t), k - 1);
      StepInverse(t);
    }
  }

  // ---- Seeding -------------------------------------------------------------

  /** The words that `splitmix64` sends to 0 and to the fallback state. */
  const ZERO_SEED: bv64 := 0x61C8864680B583EB
  const FALLBACK_SEED: bv64 := 0x20679008D31C893F

  predicate IsMergedPair(a: bv64, b: bv64) {
    a == ZERO_SEED && b == FALLBACK_SEED
  }

  function Unsplitmix64(w: bv64): bv64 { Unfinalize(w) - 0x9E3779B97F4A7C15 }

  lemma Splitmix64Bijective(x: bv64)
    ensures Unsplitmix64(Splitmix64(x)) == x && Splitmix64(Unsplitmix64(x)) == x
  {
    hide Finalize, Unfinalize;
    FinalizeInverse(x + 0x9E3779B97F4A7C15);
    FinalizeInverse(x);
  }

  lemma Splitmix64Injective(x: bv64, y: bv64)
    ensures Splitmix64(x) == Splitmix64(y) <==> x == y
  {
    hide *;
    Splitmix64Bijective(x);
    Splitmix64Bijective(y);
  }

  lemma SpecialSeeds()
    ensures Splitmix64(ZERO_SEED) == 0
    ensures Splitmix64(FALLBACK_SEED) == FALLBACK_STATE
    ensures FALLBACK_STATE != 0
  {}

  lemma SeedStateNonzero(seed: bv64)
    ensures SeedState(seed) != 0
  {
    hide Splitmix64;
  }

  /** Seeding confuses exactly one pair of seeds. */
  lemma SeedMergesOnePair(a: bv64, b: bv64)
    ensures SeedState(a) == SeedState(b) <==> a == b || IsMergedPair(a, b) || IsMergedPair(b, a)
  {
    hide Splitmix64, FALLBACK_STATE, ZERO_SEED, FALLBACK_SEED;
    SpecialSeeds();
    Splitmix64Injective(a, b);
    Splitmix64Injective(a, ZERO_SEED);
    Splitmix64Injective(b, ZERO_SEED);
    Splitmix64Injective(a, FALLBACK_SEED);
    Splitmix64Injective(b, FALLBACK_SEED);
  }

  lemma ProcessSeedInjective(seed: bv64, seed': bv64, pid: bv32, pid': bv32)
    ensures ProcessSeed(seed, pid) == ProcessSeed(seed', pid) <==> seed == seed'
    ensures ProcessSeed(seed, pid) == ProcessSeed(seed, pid') <==> pid == pid'
  {
    hide Splitmix64;
    Splitmix64Injective(seed ^ Spread(pid), seed' ^ Spread(pid));
    Splitmix64Injective(seed ^ Spread(pid), seed ^ Spread(pid'));
  }

  /** No shared seed sends two pids to the merged pair: the words in front of that pair
      differ in unequal halves, and two spread pids never do. */
  lemma PidsAvoidMergedPair(seed: bv64, p: bv32, q: bv32)
    ensures !IsMergedPair(ProcessSeed(seed, p), ProcessSeed(seed, q))
  {}

  /** Processes with different pids get streams that differ at every index, for every shared seed. */
  lemma ProcessStreamsDiffer(seed: bv64, p: bv32, q: bv32, k: nat)
    ensures WordAt(SeedState(ProcessSeed(seed, p)), k) == WordAt(SeedState(ProcessSeed(seed, q)), k) <==> p == q
  {
    hide *;
    StreamsDiffer(SeedState(ProcessSeed(seed, p)), SeedState(ProcessSeed(seed, q)), k);
    SeedMergesOnePair(ProcessSeed(seed, p), ProcessSeed(seed, q));
    PidsAvoidMergedPair(seed, p, q);
    PidsAvoidMergedPair(seed, q, p);
    ProcessSeedInjective(seed, seed, p, q);
  }

  /** Words of the generator and of its seeding, as numbers. */
  lemma KnownWords()
    ensures Splitmix64(0) == 0xE220A8397B1DCDAF && Splitmix64(1) == 0x910A2DEC89025CC1
    ensures SeedState(0x61C8864680B583EB) == 0xA5A5A5A5A5A5A5A5 && SeedState(1) == 0x910A2DEC89025CC1
    ensures ProcessSeed(24, 3657) == 0x838554ED517C4171
    ensures ProcessSeed(0xDEADBEEF12345678, 0x01020304) == 0xA8C28B7C8E798EEB
    ensures Step(1) == 0x0000000002000001 && Step(0x8000000000000001) == 0x8008001003000001
    ensures WordAt(1, 0) == 0x47E4CE4B896CDD1D && WordAt(1, 1) == 0xABCFA6A8E079651D && WordAt(1, 2) == 0xB9D10D8FEB731F57
  {
    assert StateAfter(1, 1) == 0x0000000002000001 && StateAfter(1, 2) == 0x0004004000802801
        && StateAfter(1, 3) == 0x000D004003202803;
  }

  // ---- Filling -------------------------------------------------------------

  /** A shorter fill is a prefix of a longer one. */
  lemma FillPrefix(s: bv64, a: nat, b: nat)
    requires a <= b
    ensures Bytes(s, a) == Bytes(s, b)[..a]
  {
    hide ByteAt;
  }

  /** The bytes of a fill of `a` followed by a fill of `b`. */
  ghost function SplitFill(s: bv64, a: nat, b: nat): seq<bv8> {
    Bytes(s, a) + Bytes(StateAfter(s, WordsFor(a)), b)
  }

  lemma WordAtLater(s: bv64, j: nat, k: nat)
    ensures WordAt(StateAfter(s, j), k) == WordAt(s, j + k)
  {
    hide Step, MulOut;
    StateAfterSum(s, j, k + 1);
  }

  lemma ByteAtLater(s: bv64, j: nat, i: nat)
    ensures ByteAt(StateAfter(s, j), i) == ByteAt(s, 8 * j + i)
  {
    hide WordAt, ByteOf;
    WordAtLater(s, j, i / 8);
    assert (8 * j + i) / 8 == j + i / 8 && (8 * j + i) % 8 == i % 8;
  }

  lemma AlignedFillSplits(s: bv64, a: nat, b: nat)
    requires a % 8 == 0
    ensures SplitFill(s, a, b) == Bytes(s, a + b)
    ensures StateAfter(StateAfter(s, WordsFor(a)), WordsFor(b)) == StateAfter(s, WordsFor(a + b))
  {
    hide ByteAt, Step;
    var w := WordsFor(a);
    StateAfterSum(s, w, WordsFor(b));
    assert 8 * w == a && w + WordsFor(b) == WordsFor(a + b);
    forall i | 0 <= i < a + b
      ensures SplitFill(s, a, b)[i] == Bytes(s, a + b)[i]
    {
      if i >= a {
        ByteAtLater(s, w, i - a);
      }
    }
  }

  /** Eight bytes of the stream are one word, least significant byte first. */
  lemma BytesOfWord(s: bv64, k: nat)
    ensures var w := WordAt(s, k);
            && ByteAt(s, 8 * k) == (w & 0xFF) as bv8 && ByteAt(s, 8 * k + 1) == ((w >> 8) & 0xFF) as bv8
            && ByteAt(s, 8 * k + 2) == ((w >> 16) & 0xFF) as bv8 && ByteAt(s, 8 * k + 3) == ((w >> 24) & 0xFF) as bv8
            && ByteAt(s, 8 * k + 4) == ((w >> 32) & 0xFF) as bv8 && ByteAt(s, 8 * k + 5) == ((w >> 40) & 0xFF) as bv8
            && ByteAt(s, 8 * k + 6) == ((w >> 48) & 0xFF) as bv8 && ByteAt(s, 8 * k + 7) == ((w >> 56) & 0xFF) as bv8
  {
    hide WordAt, ByteOf;
    forall i: nat | i < 8
      ensures ByteAt(s, 8 * k + i) == ByteOf(WordAt(s, k), i)
    {
      assert (8 * k + i) / 8 == k && (8 * k + i) % 8 == i;
    }
    BytesAreShifts(WordAt(s, k));
  }

  lemma BytesAreShifts(w: bv64)
    ensures ByteOf(w, 0) == (w & 0xFF) as bv8 && ByteOf(w, 1) == ((w >> 8) & 0xFF) as bv8
    ensures ByteOf(w, 2) == ((w >> 16) & 0xFF) as bv8 && ByteOf(w, 3) == ((w >> 24) & 0xFF) as bv8
    ensures ByteOf(w, 4) == ((w >> 32) & 0xFF) as bv8 && ByteOf(w, 5) == ((w >> 40) & 0xFF) as bv8
    ensures ByteOf(w, 6) == ((w >> 48) & 0xFF) as bv8 && ByteOf(w, 7) == ((w >> 56) & 0xFF) as bv8
  {
    assert Drop(w, 1) == w >> 8;
    assert Drop(w, 2) == w >> 16;
    assert Drop(w, 3) == w >> 24;
    assert Drop(w, 4) == w >> 32;
    assert Drop(w, 5) == w >> 40;
    assert Drop(w, 6) == w >> 48;
    assert Drop(w, 7) == w >> 56;
  }

  /** A 32-bit draw is the upper half of its word: what the last four of its eight bytes spell. */
  lemma DrawIsUpperBytes(s: bv64, k: nat)
    ensures DrawAt(s, k) ==
            (((ByteAt(s, 8 * k + 7) as bv32) << 24) | ((ByteAt(s, 8 * k + 6) as bv32) << 16)
             | ((ByteAt(s, 8 * k + 5) as bv32) << 8) | (ByteAt(s, 8 * k + 4) as bv32)) as int
  {
    hide WordAt, ByteAt;
    BytesOfWord(s, k);
    UpperBytes(WordAt(s, k));
  }

  lemma UpperBytes(w: bv64)
    ensures (w >> 32) as bv32 ==
            (((((w >> 56) & 0xFF) as bv8) as bv32) << 24) | (((((w >> 48) & 0xFF) as bv8) as bv32) << 16)
            | (((((w >> 40) & 0xFF) as bv8) as bv32) << 8) | ((((w >> 32) & 0xFF) as bv8) as bv32)
  {}

  /** A bound of 0 gives 0 and draws nothing. */
  lemma ZeroBoundDrawsNothing(s: bv64, budget: nat)
    ensures BoundedDraw(s, 0, budget) == (Some(0), s)
  {}

  lemma StateOneBytes(i: nat)
    requires 0 < i < 8
    ensures ByteOf(WordAt(1, 0), i) != ByteOf(WordAt(1, 1), 0)
  {
    var w := WordAt(1, 0);
    assert w == 0x47E4CE4B896CDD1D;
    assert LowByte(WordAt(1, 1)) == 0x1D;
    assert Drop(w, 1) == 0x47E4CE4B896CDD;
    assert Drop(w, 2) == 0x47E4CE4B896C;
    assert Drop(w, 3) == 0x47E4CE4B89;
    assert Drop(w, 4) == 0x47E4CE4B;
    assert Drop(w, 5) == 0x47E4CE;
    assert Drop(w, 6) == 0x47E4;
    assert Drop(w, 7) == 0x47;
  }

  lemma UnalignedFillDiffers(a: nat, b: nat) returns (s: bv64)
    requires a % 8 != 0 && b > 0
    ensures SplitFill(s, a, b) != Bytes(s, a + b)
  {
    var k := a / 8;
    s := StateBefore(1, k);
    hide WordAt, ByteOf, Step;
    WordAtLater(s, k, 0);
    WordAtLater(s, k, 1);
    WordAtLater(s, k + 1, 0);
    assert WordsFor(a) == k + 1;
    StateOneBytes(a % 8);
    assert SplitFill(s, a, b)[a] == ByteOf(WordAt(1, 1), 0);
    assert Bytes(s, a + b)[a] == ByteOf(WordAt(1, 0), a % 8);
  }

  /** Cutting a fill in two leaves the bytes alone, in every state, exactly when the first
      part is a whole number of words or the second part is empty. */
  lemma FillSplitsExactlyWhenAligned(a: nat, b: nat)
    ensures (forall s :: SplitFill(s, a, b) == Bytes(s, a + b)) <==> a % 8 == 0 || b == 0
  {
    hide *;
    if a % 8 == 0 {
      forall s
        ensures SplitFill(s, a, b) == Bytes(s, a + b)
      {
        AlignedFillSplits(s, a, b);
      }
    } else if b == 0 {
      forall s
        ensures SplitFill(s, a, 0) == Bytes(s, a)
      {
        EmptyFill(s, a);
      }
    } else {
      var s := UnalignedFillDiffers(a, b);
    }
  }

  lemma EmptyFill(s: bv64, a: nat)
    ensures SplitFill(s, a, 0) == Bytes(s, a)
  {
    hide ByteAt, StateAfter;
    assert Bytes(StateAfter(s, WordsFor(a)), 0) == [];
  }

  // ---- Bounded draws ---------------------------------------------------------

  /** The first `n` draws are all rejected. */
  ghost predicate Rejects(s: bv64, bound: U32, n: nat)
    requires bound > 0
  {
    forall k: nat | k < n :: !Accepted(bound, DrawAt(s, k))
  }

  /** A bounded draw is the residue of the first accepted draw, and consumes the stream up to it. */
  lemma {:induction false} BoundedDrawIsFirstAccepted(s: bv64, bound: U32, budget: nat) returns (used: nat)
    requires bound > 0
    ensures used <= budget
    ensures BoundedDraw(s, bound, budget).1 == StateAfter(s, used)
    ensures match BoundedDraw(s, bound, budget).0
            case None => used == budget && Rejects(s, bound, budget)
            case Some(v) =>
              && used > 0 && Rejects(s, bound, used - 1)
              && Accepted(bound, DrawAt(s, used - 1))
              && v == DrawAt(s, used - 1) % bound && v < bound
    decreases budget
  {
    hide Step, MulOut, HighHalf, Accepted, DrawAt, StateAfter;
    StreamUnfolds(s);
    if budget == 0 {
      used := 0;
    } else if Accepted(bound, DrawAt(s, 0)) {
      used := 1;
    } else {
      var later := BoundedDrawIsFirstAccepted(Step(s), bound, budget - 1);
      used := later + 1;
      if BoundedDraw(Step(s), bound, budget - 1).0.None? {
        LaterRejects(s, bound, later);
      } else {
        LaterRejects(s, bound, later - 1);
        LaterDraw(s, later - 1);
      }
      StateAfterSum(s, 1, later);
    }
  }

  /** Watching for longer does not change a draw that has been made. */
  lemma {:induction false} BudgetDoesNotMatter(s: bv64, bound: U32, budget: nat, more: nat)
    requires BoundedDraw(s, bound, budget).0.Some? && budget <= more
    ensures BoundedDraw(s, bound, more) == BoundedDraw(s, bound, budget)
    decreases budget
  {
    hide Step, MulOut, HighHalf, Accepted;
    if bound > 0 && !Accepted(bound, HighHalf(MulOut(Step(s)))) {
      BudgetDoesNotMatter(Step(s), bound, budget - 1, more - 1);
    }
  }

  lemma StreamUnfolds(s: bv64)
    ensures StateAfter(s, 0) == s && StateAfter(s, 1) == Step(s)
    ensures DrawAt(s, 0) == HighHalf(MulOut(Step(s)))
  {
    hide Step, MulOut, HighHalf;
    assert StateAfter(s, 1) == Step(StateAfter(s, 0));
  }

  lemma LaterDraw(s: bv64, k: nat)
    ensures DrawAt(Step(s), k) == DrawAt(s, k + 1)
  {
    hide Step, WordAt, HighHalf;
    StreamUnfolds(s);
    WordAtLater(s, 1, k);
  }

  lemma LaterRejects(s: bv64, bound: U32, n: nat)
    requires bound > 0 && !Accepted(bound, DrawAt(s, 0)) && Rejects(Step(s), bound, n)
    ensures Rejects(s, bound, n + 1)
  {
    hide Step, DrawAt, Accepted;
    forall k: nat | k < n + 1
      ensures !Accepted(bound, DrawAt(s, k))
    {
      if k > 0 {
        LaterDraw(s, k - 1);
        assert DrawAt(s, k) == DrawAt(Step(s), k - 1);
      }
    }
  }
}
