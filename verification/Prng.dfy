/**
  The generator of src/shim/prng.c: splitmix64 seeding, xorshift64* stepping,
  byte filling and bounded draws. The class is the C struct; the functions say
  which part of which stream each call hands out.
 */
module Prng {
  import opened Basics
  import opened Words
  import opened Rejection

  const FALLBACK_STATE: bv64 := 0xA5A5A5A5A5A5A5A5

  // ---- The stream of a state ---------------------------------------------

  ghost function StateAfter(s: bv64, k: nat): bv64 {
    if k == 0 then s else Step(StateAfter(s, k - 1))
  }

  /** The k-th 64-bit output of a generator in state `s`, counting from 0. */
  ghost function WordAt(s: bv64, k: nat): bv64 {
    MulOut(StateAfter(s, k + 1))
  }

  function HighHalf(word: bv64): U32 {
    ((word >> 32) as bv32) as int
  }

  ghost function DrawAt(s: bv64, k: nat): U32 {
    HighHalf(WordAt(s, k))
  }

  function LowByte(word: bv64): bv8 { (word & 0xFF) as bv8 }

  function DropByte(word: bv64): bv64 { word >> 8 }

  ghost function Drop(word: bv64, i: nat): bv64 {
    if i == 0 then word else DropByte(Drop(word, i - 1))
  }

  /** Byte `i` of a word, least significant first. */
  ghost function ByteOf(word: bv64, i: nat): bv8 {
    LowByte(Drop(word, i))
  }

  /** Byte `i` of the stream: words in order, each cut up least significant byte first. */
  ghost function ByteAt(s: bv64, i: nat): bv8 {
    ByteOf(WordAt(s, i / 8), i % 8)
  }

  ghost function Bytes(s: bv64, len: nat): (bytes: seq<bv8>)
    ensures |bytes| == len
  {
    seq(len, i requires 0 <= i < len => ByteAt(s, i))
  }

  lemma AppendWord(s: bv64, k: nat, chunk: seq<bv8>)
    requires |chunk| <= 8
    requires forall j | 0 <= j < |chunk| :: chunk[j] == ByteOf(WordAt(s, k), j)
    ensures Bytes(s, 8 * k + |chunk|) == Bytes(s, 8 * k) + chunk
  {
    hide WordAt, ByteOf;
    forall j | 0 <= j < |chunk|
      ensures Bytes(s, 8 * k + |chunk|)[8 * k + j] == chunk[j]
    {
      assert (8 * k + j) / 8 == k && (8 * k + j) % 8 == j;
    }
  }

  /** Steps taken to fill `len` bytes: a partly used word is not kept. */
  function WordsFor(len: nat): nat { (len + 7) / 8 }

  // ---- Seeding -------------------------------------------------------------

  function Splitmix64(x: bv64): bv64 { Finalize(x + 0x9E3779B97F4A7C15) }

  function SeedState(seed: bv64): bv64 {
    var s := Splitmix64(seed);
    if s == 0 then FALLBACK_STATE else s
  }

  function Spread(pid: bv32): bv64 { ((pid as bv64) << 32) | (pid as bv64) }

  function ProcessSeed(seed: bv64, pid: bv32): bv64 { Splitmix64(seed ^ Spread(pid)) }

  /** `splitmix64(uint64_t *x)`: advances the word behind the pointer and returns its mix. */
  method SplitmixNext(x: bv64) returns (x': bv64, z: bv64)
    ensures x' == x + 0x9E3779B97F4A7C15 && z == Splitmix64(x)
  {
    hide Shr30, MulA, Shr27, MulB, Shr31;
    x' := x + 0x9E3779B97F4A7C15;
    z := x';
    z := MulA(Shr30(z));
    z := MulB(Shr27(z));
    z := Shr31(z);
  }

  method DeriveProcessSeed(seed: bv64, pid: bv32) returns (r: bv64)
    ensures r == ProcessSeed(seed, pid)
  {
    hide Splitmix64, Spread;
    var mixed := seed ^ Spread(pid);
    mixed, r := SplitmixNext(mixed);
  }

  // ---- Bounded draws ---------------------------------------------------------

  /** Result and final state of `linbox_prng_uniform` when at most `budget` draws are watched. */
  function BoundedDraw(s: bv64, bound: U32, budget: nat): (Option<U32>, bv64)
    decreases budget
  {
    hide Step, MulOut, HighHalf;
    if bound == 0 then (Some(0), s)
    else if budget == 0 then (None, s)
    else
      var s' := Step(s);
      var r := HighHalf(MulOut(s'));
      if Accepted(bound, r) then (Some(r % bound), s') else BoundedDraw(s', bound, budget - 1)
  }

  class Generator {
    var state: bv64

    constructor ()
      ensures state == 0
    {
      state := 0;
    }

    method Seed(seed: bv64)
      modifies this
      ensures state == SeedState(seed)
    {
      var s := seed;
      s, state := SplitmixNext(s);
      if state == 0 {
        state := 0xA5A5A5A5A5A5A5A5;
      }
    }

    method NextU64() returns (word: bv64)
      modifies this
      ensures state == Step(old(state)) && word == MulOut(state)
    {
      hide Shr12, Shl25, Shr27, MulOut;
      var x := state;
      x := Shr12(x);
      x := Shl25(x);
      x := Shr27(x);
      state := x;
      word := MulOut(x);
    }

    method NextU32() returns (draw: U32)
      modifies this
      ensures state == Step(old(state)) && draw == HighHalf(MulOut(state))
    {
      hide *;
      var word := NextU64();
      draw := HighHalf(word);
    }

    method Fill(buf: array<bv8>, len: nat)
      requires len <= buf.Length
      modifies this, buf
      ensures buf[..len] == Bytes(old(state), len)
      ensures buf[len..] == old(buf[len..])
      ensures state == StateAfter(old(state), WordsFor(len))
    {
      hide Step, MulOut, LowByte, DropByte, ByteAt;
      ghost var s, k := state, 0;
      var offset := 0;
      while offset < len
        invariant offset <= len && k == WordsFor(offset) && (offset == 8 * k || offset == len)
        invariant state == StateAfter(s, k)
        invariant buf[..offset] == Bytes(s, offset)
        invariant buf[len..] == old(buf[len..])
      {
        var word := NextU64();
        ghost var w := word;
        var i := 0;
        while i < 8 && offset < len
          invariant 0 <= i <= 8 && offset == 8 * k + i && offset <= len
          invariant state == StateAfter(s, k + 1)
          invariant word == Drop(w, i)
          invariant buf[..8 * k] == Bytes(s, 8 * k)
          invariant forall j | 0 <= j < i :: buf[8 * k + j] == ByteOf(w, j)
          invariant buf[len..] == old(buf[len..])
        {
          buf[offset] := LowByte(word);
          word := DropByte(word);
          i, offset := i + 1, offset + 1;
        }
        AppendWord(s, k, buf[8 * k..offset]);
        assert buf[..offset] == buf[..8 * k] + buf[8 * k..offset];
        k := k + 1;
      }
    }

    method Uniform(bound: U32, budget: nat) returns (r: Option<U32>)
      modifies this
      ensures (r, state) == BoundedDraw(old(state), bound, budget)
    {
      if bound == 0 {
        return Some(0);
      }
      hide Step, MulOut, HighHalf;
      var threshold := ((DRAWS - bound) % DRAWS) % bound;
      var left: nat := budget;
      while left > 0
        invariant left <= budget
        invariant BoundedDraw(state, bound, left) == BoundedDraw(old(state), bound, budget)
      {
        var draw := NextU32();
        if draw >= threshold {
          return Some(draw % bound);
        }
        left := left - 1;
      }
      r := None;
    }
  }
}
