/**
  The per-process randomness of src/shim/linbox.c and random.c: when the shim
  takes its seed from shared memory and when it reseeds. Module RandomRuns says
  what that means for what a process draws.

  What a call finds outside the process is a parameter: whether connecting to
  the controller would succeed, the pid, and the values of the shared seed cell
  at the loads of `linbox_init_state` and `linbox_prng_seed_value`.
 */
module ShimRandom {
  import opened Basics
  import opened Words
  import opened Prng

  datatype World = World(attaches: bool, pid: bv32, initCell: bv64, cell: bv64)

  /** The seed fields of `linbox_state_t` and `g_rand_seeded`; `attached` is
      `controller_connected && shm.layout`. */
  datatype Seeds = Seeds(initialized: bool, attached: bool, shared: bv64, effective: bv64, state: bv64, randSeeded: bool)

  const UNSET := Seeds(false, false, 0, 0, 0, false)

  /** The seed a process initializes with. */
  function FirstSeed(w: World): bv64 {
    ProcessSeed(if w.attaches then w.initCell else 0, w.pid)
  }

  function Initialize(s: Seeds, w: World): Seeds {
    if s.initialized then s
    else
      Seeds(true, w.attaches, if w.attaches then w.initCell else 0, FirstSeed(w), SeedState(FirstSeed(w)), s.randSeeded)
  }

  function Refresh(s: Seeds, w: World): Seeds {
    var i := Initialize(s, w);
    if i.attached && w.cell != i.shared then
      i.(shared := w.cell, effective := ProcessSeed(w.cell, w.pid))
    else i
  }

  function Reseed(s: Seeds, seed: bv64): Seeds {
    s.(effective := seed, state := SeedState(seed))
  }

  /** The state just before a draw: initialize, refresh the seed, and apply the reseed guard. */
  function Prepare(s: Seeds, w: World): Seeds {
    var r := Refresh(Initialize(s, w), w);
    var seed := r.effective;
    if r.state == 0 || r.effective != seed then Reseed(r, seed) else r
  }

  /** A child keeps the parent's `g_rand_seeded`. */
  function Reinitialize(s: Seeds, w: World): Seeds {
    Initialize(s.(initialized := false, attached := false, effective := 0, state := 0), w)
  }

  /** `(unsigned int)seed`. */
  function LowHalf(seed: bv64): bv32 { (seed & 0xFFFF_FFFF) as bv32 }

  /** `(uint64_t)seed`. */
  function Wide(seed: bv32): bv64 { seed as bv64 }

  /** `srand` and `srandom`. */
  function SeedRand(s: Seeds, seed: bv32): Seeds {
    Reseed(s, Wide(seed)).(randSeeded := true)
  }

  /** The first `rand` or `random` seeds from the low half of the effective seed, twice; `second` is
      the seed cell at the second load. */
  function SeedRandOnce(s: Seeds, w: World, second: bv64): Seeds {
    if s.randSeeded then s
    else
      var a := Refresh(s, w);
      var b := Refresh(SeedRand(a, LowHalf(a.effective)), w.(cell := second));
      SeedRand(b, LowHalf(b.effective))
  }

  /** Four bytes in memory as a `uint32_t`, little end first. */
  function Word32(b: seq<bv8>): bv32
    requires |b| == 4
  {
    (b[0] as bv32) | ((b[1] as bv32) << 8) | ((b[2] as bv32) << 16) | ((b[3] as bv32) << 24)
  }

  /** What `rand` and `random` make of 32 drawn bits. */
  function Positive(b: seq<bv8>): bv32
    requires |b| == 4
  {
    Low31(Word32(b))
  }

  /** `& RAND_MAX`. */
  function Low31(x: bv32): bv32 { x & 0x7FFF_FFFF }

  class Shim {
    var initialized: bool
    var attached: bool
    var sharedSeed: bv64
    var effectiveSeed: bv64
    var randSeeded: bool
    const prng: Generator

    ghost function View(): Seeds
      reads this, prng
    {
      Seeds(initialized, attached, sharedSeed, effectiveSeed, prng.state, randSeeded)
    }

    constructor ()
      ensures View() == UNSET && fresh(prng)
    {
      initialized, attached, sharedSeed, effectiveSeed, randSeeded := false, false, 0, 0, false;
      prng := new Generator();
    }

    method InitState(w: World)
      modifies this, prng
      ensures View() == Initialize(old(View()), w)
      ensures initialized && (old(initialized) ==> View() == old(View()))
      ensures !old(initialized) ==>
                && attached == w.attaches && sharedSeed == (if w.attaches then w.initCell else 0)
                && effectiveSeed == ProcessSeed(sharedSeed, w.pid) && prng.state == SeedState(effectiveSeed)
                && randSeeded == old(randSeeded)
    {
      hide ProcessSeed, SeedState;
      if initialized {
        return;
      }
      attached := w.attaches;
      sharedSeed := if attached then w.initCell else 0;
      effectiveSeed := DeriveProcessSeed(sharedSeed, w.pid);
      prng.Seed(effectiveSeed);
      initialized := true;
    }

    method SeedValue(w: World) returns (seed: bv64)
      modifies this, prng
      ensures View() == Refresh(old(View()), w) && seed == effectiveSeed
    {
      hide ProcessSeed, SeedState;
      InitState(w);
      if attached {
        var shared := w.cell;
        if shared != sharedSeed {
          sharedSeed := shared;
          effectiveSeed := DeriveProcessSeed(shared, w.pid);
        }
      }
      seed := effectiveSeed;
    }

    method RandomReseed(seed: bv64)
      modifies this, prng
      ensures View() == Reseed(old(View()), seed)
    {
      hide SeedState;
      effectiveSeed := seed;
      prng.Seed(seed);
    }

    /** The opening of every draw: initialize, fetch the seed, and reseed if the guard says so. */
    method PrepareDraw(w: World)
      modifies this, prng
      ensures View() == Prepare(old(View()), w)
    {
      hide ProcessSeed, SeedState;
      InitState(w);
      var seed := SeedValue(w);
      if prng.state == 0 || effectiveSeed != seed {
        RandomReseed(seed);
      }
    }

    method RandomFill(buf: array<bv8>, len: nat, w: World)
      requires len <= buf.Length
      modifies this, prng, buf
      ensures buf[..len] == Bytes(Prepare(old(View()), w).state, len) && buf[len..] == old(buf[len..])
      ensures View() == FillFrom(Prepare(old(View()), w), len)
    {
      hide Prepare, Bytes, StateAfter;
      PrepareDraw(w);
      prng.Fill(buf, len);
    }

    method RandomUniform(bound: U32, budget: nat, w: World) returns (r: Option<U32>)
      modifies this, prng
      ensures (r, prng.state) == BoundedDraw(Prepare(old(View()), w).state, bound, budget)
      ensures View() == Prepare(old(View()), w).(state := prng.state)
    {
      hide Prepare, BoundedDraw;
      PrepareDraw(w);
      r := prng.Uniform(bound, budget);
    }

    method ReinitState(w: World)
      modifies this, prng
      ensures View() == Reinitialize(old(View()), w)
    {
      attached := false;
      initialized := false;
      prng.state := 0;
      effectiveSeed := 0;
      InitState(w);
    }

    method RandomU32(w: World) returns (r: bv32)
      modifies this, prng
      ensures r == Word32(Bytes(Prepare(old(View()), w).state, 4))
      ensures View() == FillFrom(Prepare(old(View()), w), 4)
    {
      hide Prepare, Bytes, StateAfter;
      var out := new bv8[4](_ => 0);
      RandomFill(out, 4, w);
      assert out[..4] == [out[0], out[1], out[2], out[3]];
      r := (out[0] as bv32) | ((out[1] as bv32) << 8) | ((out[2] as bv32) << 16) | ((out[3] as bv32) << 24);
    }

    method Srand(seed: bv32)
      modifies this, prng
      ensures View() == SeedRand(old(View()), seed)
    {
      RandomReseed(Wide(seed));
      randSeeded := true;
    }

    method EnsureRandSeeded(w: World, second: bv64)
      modifies this, prng
      ensures View() == SeedRandOnce(old(View()), w, second)
    {
      hide Refresh, SeedRand;
      if !randSeeded {
        var seed := SeedValue(w);
        Srand(LowHalf(seed));
        seed := SeedValue(w.(cell := second));
        Srand(LowHalf(seed));
      }
    }

    /** `rand` and `random`; the seed cell is loaded up to three times. */
    method Rand(w: World, second: bv64, third: bv64) returns (r: bv32)
      modifies this, prng
      ensures var p := Prepare(SeedRandOnce(old(View()), w, second), w.(cell := third));
              r == Positive(Bytes(p.state, 4)) && View() == FillFrom(p, 4)
    {
      hide Prepare, SeedRandOnce, Word32, Low31, Bytes, StateAfter;
      EnsureRandSeeded(w, second);
      r := RandomU32(w.(cell := third));
      r := Low31(r);
    }
  }

  ghost function FillFrom(s: Seeds, len: nat): Seeds {
    s.(state := StateAfter(s.state, WordsFor(len)))
  }
}
