/**
  What a process draws over whole runs: its calls to the shim amount to a walk
  of a bare generator, and only at its start, at forks and at the first `rand`
  or `random` does anything from outside come in.
 */
module RandomRuns {
  import opened Basics
  import opened Words
  import opened Prng
  import opened ShimRandom
  import Streams

  // ---- Calls and runs -------------------------------------------------------------

  /** Draws that go through `linbox_random_fill` and `linbox_random_uniform`, and the 31 bits of
      `rand` and `random`. */
  datatype Draw = Fill(len: nat) | Uniform(bound: U32, budget: nat) | Bits31

  datatype Output = Data(bytes: seq<bv8>) | Number(value: Option<U32>) | Bits(bits: bv32) | Silent

  /** What a process does with its randomness. `Inits` is any call that only initializes, the
      constructor or a time call; `Srand` is `srand` or `srandom`; `Rand` is `rand` or `random`, with
      the seed cell at its later loads; `Forks` goes on as the child. */
  datatype Call =
    | Inits(world: World)
    | Draws(draw: Draw, world: World)
    | Rand(world: World, second: bv64, third: bv64)
    | Srand(seed: bv32)
    | Forks(world: World)

  /** A draw from a generator state: its output and the state it leaves. */
  ghost function DrawFrom(state: bv64, draw: Draw): (Output, bv64) {
    match draw
    case Fill(len) => (Data(Bytes(state, len)), StateAfter(state, WordsFor(len)))
    case Uniform(bound, budget) =>
      var (r, state') := BoundedDraw(state, bound, budget);
      (Number(r), state')
    case Bits31 => (Bits(Positive(Bytes(state, 4))), StateAfter(state, WordsFor(4)))
  }

  ghost function ShimDraw(p: Seeds, draw: Draw): (Output, Seeds) {
    var (out, state) := DrawFrom(p.state, draw);
    (out, p.(state := state))
  }

  /** A call to the shim. */
  ghost function Perform(s: Seeds, call: Call): (Output, Seeds) {
    match call
    case Inits(w) => (Silent, Initialize(s, w))
    case Draws(draw, w) => ShimDraw(Prepare(s, w), draw)
    case Rand(w, second, third) => ShimDraw(Prepare(SeedRandOnce(s, w, second), w.(cell := third)), Bits31)
    case Srand(seed) => (Silent, SeedRand(s, seed))
    case Forks(w) => (Silent, Reinitialize(s, w))
  }

  ghost function Run(s: Seeds, calls: seq<Call>): (r: (seq<Output>, Seeds))
    ensures |r.0| == |calls|
    decreases |calls|
  {
    if calls == [] then ([], s)
    else
      var (out, s') := Perform(s, calls[0]);
      var (outs, s'') := Run(s', calls[1..]);
      ([out] + outs, s'')
  }

  // ---- The bare generator -----------------------------------------------------------

  /** What a bare generator can be asked: to start over from a seed, and then to draw. */
  datatype Op = Op(restart: Option<bv64>, take: Option<Draw>)

  ghost function Answer(state: bv64, op: Op): (Output, bv64) {
    var from := if op.restart.Some? then SeedState(op.restart.value) else state;
    if op.take.Some? then DrawFrom(from, op.take.value) else (Silent, from)
  }

  ghost function Walk(state: bv64, ops: seq<Op>): (seq<Output>, bv64)
    decreases |ops|
  {
    if ops == [] then ([], state)
    else
      var (out, state') := Answer(state, ops[0]);
      var (outs, state'') := Walk(state', ops[1..]);
      ([out] + outs, state'')
  }

  /** Whether `rand` still has to seed, and whether there is a seed cell it would load. */
  datatype RandStatus = Pending(attached: bool) | Settled

  function StatusOf(s: Seeds): RandStatus {
    if s.randSeeded then Settled else Pending(s.attached)
  }

  function StatusAfter(status: RandStatus, call: Call): RandStatus {
    if status.Settled? || call.Rand? || call.Srand? then Settled
    else if call.Forks? then Pending(call.world.attaches)
    else status
  }

  /** The 32-bit seed that the first `rand` ends up with. */
  function RandSeed(attached: bool, cell: bv64, pid: bv32): bv32 {
    LowHalf(ProcessSeed(if attached then cell else 0, pid))
  }

  /** What a call asks of the generator. */
  function OpOf(status: RandStatus, call: Call): Op {
    match call
    case Inits(_) => Op(None, None)
    case Draws(draw, _) => Op(None, Some(draw))
    case Rand(w, second, _) =>
      Op(if status.Settled? then None else Some(Wide(RandSeed(status.attached, second, w.pid))), Some(Bits31))
    case Srand(seed) => Op(Some(Wide(seed)), None)
    case Forks(w) => Op(Some(ProcessSeed(if w.attaches then w.initCell else 0, w.pid)), None)
  }

  ghost function Ops(status: RandStatus, calls: seq<Call>): seq<Op>
    decreases |calls|
  {
    if calls == [] then []
    else [OpOf(status, calls[0])] + Ops(StatusAfter(status, calls[0]), calls[1..])
  }

  // ---- One call ---------------------------------------------------------------------

  predicate Seeded(s: Seeds) {
    s.initialized && s.state != 0
  }

  /** Until `rand` or `srand` seeds, the effective seed is the process seed of the last cell seen. */
  predicate Rooted(s: Seeds, pid: bv32) {
    s.effective == ProcessSeed(s.shared, pid) && (!s.attached ==> s.shared == 0)
  }

  /** A process with the pid, between calls. */
  predicate Started(s: Seeds, pid: bv32) {
    Seeded(s) && (s.randSeeded || Rooted(s, pid))
  }

  /** The calls come from one process and, after each fork, its child. */
  predicate InProcess(pid: bv32, calls: seq<Call>)
    decreases |calls|
  {
    calls == [] || (OwnPid(pid, calls[0]) && InProcess(PidAfter(pid, calls[0]), calls[1..]))
  }

  predicate OwnPid(pid: bv32, call: Call) {
    call.Srand? || call.Forks? || call.world.pid == pid
  }

  function PidAfter(pid: bv32, call: Call): bv32 {
    if call.Forks? then call.world.pid else pid
  }

  /** Once seeded, the reseed guard never fires: a draw leaves the generator to its stream. */
  lemma GuardNeverFires(s: Seeds, w: World)
    requires Seeded(s)
    ensures Prepare(s, w) == Refresh(s, w) && Prepare(s, w).state == s.state && Seeded(Prepare(s, w))
  {
    hide ProcessSeed, SeedState;
  }

  lemma DrawKeepsNonzero(state: bv64, draw: Draw)
    requires state != 0
    ensures DrawFrom(state, draw).1 != 0
  {
    hide Step, MulOut, Positive;
    match draw
    case Fill(len) => Streams.NonzeroForever(state, WordsFor(len));
    case Uniform(bound, budget) =>
      if bound > 0 {
        var used := Streams.BoundedDrawIsFirstAccepted(state, bound, budget);
        Streams.NonzeroForever(state, used);
      }
    case Bits31 => Streams.NonzeroForever(state, WordsFor(4));
  }

  lemma LowHalfOfHalf(x: bv32)
    ensures LowHalf(Wide(x)) == x
  {}

  lemma LowHalfIsMask(x: bv64)
    ensures Wide(LowHalf(x)) == x & 0xFFFF_FFFF
  {}

  /** However the cell changes between its loads, the first `rand` starts the generator from the
      low half of the process seed of the last value loaded. */
  lemma FirstRandSeeds(s: Seeds, pid: bv32, w: World, second: bv64)
    requires Seeded(s) && !s.randSeeded && Rooted(s, pid) && w.pid == pid
    ensures var r := SeedRandOnce(s, w, second);
            && r.initialized && r.randSeeded
            && r.state == SeedState(Wide(RandSeed(s.attached, second, pid)))
  {
    hide ProcessSeed, SeedState, LowHalf, Wide, Refresh;
    var a := Refresh(s, w);
    RefreshIs(s, w);
    var half := SeedRand(a, LowHalf(a.effective));
    RefreshIs(half, w.(cell := second));
    LowHalfOfHalf(LowHalf(a.effective));
  }

  /** A refresh of an initialized process touches the seeds only, and only if the cell is new. */
  lemma RefreshIs(s: Seeds, w: World)
    requires s.initialized
    ensures Refresh(s, w) ==
            if s.attached && w.cell != s.shared then s.(shared := w.cell, effective := ProcessSeed(w.cell, w.pid)) else s
  {
    hide ProcessSeed;
  }

  lemma CallIsOp(s: Seeds, pid: bv32, call: Call)
    requires Started(s, pid) && (s.randSeeded || OwnPid(pid, call))
    ensures var (out, s') := Perform(s, call);
            && Started(s', PidAfter(pid, call)) && StatusOf(s') == StatusAfter(StatusOf(s), call)
            && (out, s'.state) == Answer(s.state, OpOf(StatusOf(s), call))
  {
    hide ProcessSeed, SeedState, DrawFrom, LowHalf, Wide, RandSeed, Refresh, Prepare, SeedRandOnce;
    match call
    case Inits(_) =>
    case Draws(draw, w) =>
      GuardNeverFires(s, w);
      RefreshIs(s, w);
      DrawKeepsNonzero(s.state, draw);
    case Rand(w, second, third) => RandIsOp(s, pid, w, second, third);
    case Srand(seed) => Streams.SeedStateNonzero(Wide(seed));
    case Forks(w) => Streams.SeedStateNonzero(FirstSeed(w));
  }

  lemma RandIsOp(s: Seeds, pid: bv32, w: World, second: bv64, third: bv64)
    requires Started(s, pid) && (s.randSeeded || w.pid == pid)
    ensures var (out, s') := Perform(s, Rand(w, second, third));
            && Seeded(s') && s'.randSeeded
            && (out, s'.state) == Answer(s.state, OpOf(StatusOf(s), Rand(w, second, third)))
  {
    hide ProcessSeed, SeedState, DrawFrom, LowHalf, Wide, RandSeed, Rooted, SeedRandOnce, Prepare, Refresh;
    var r := SeedRandOnce(s, w, second);
    if s.randSeeded {
      SeededOnce(s, w, second);
    } else {
      FirstRandSeeds(s, pid, w, second);
      Streams.SeedStateNonzero(Wide(RandSeed(s.attached, second, pid)));
    }
    GuardNeverFires(r, w.(cell := third));
    RefreshIs(r, w.(cell := third));
    DrawKeepsNonzero(r.state, Bits31);
  }

  lemma SeededOnce(s: Seeds, w: World, second: bv64)
    requires s.randSeeded
    ensures SeedRandOnce(s, w, second) == s
  {}

  // ---- Whole runs ---------------------------------------------------------------------

  /** Whatever the seed cell holds at each load, a process hands out exactly the walk of a bare
      generator that restarts at `srand`, at forks, at the first `rand`, and nowhere else. */
  lemma {:induction false} RunIsWalk(s: Seeds, pid: bv32, calls: seq<Call>)
    requires Started(s, pid) && (s.randSeeded || InProcess(pid, calls))
    ensures Run(s, calls).0 == Walk(s.state, Ops(StatusOf(s), calls)).0
    ensures Run(s, calls).1.state == Walk(s.state, Ops(StatusOf(s), calls)).1
    ensures Seeded(Run(s, calls).1)
    decreases |calls|
  {
    if calls != [] {
      hide Perform, Answer, OpOf, Rooted;
      CallIsOp(s, pid, calls[0]);
      RunIsWalk(Perform(s, calls[0]).1, PidAfter(pid, calls[0]), calls[1..]);
    }
  }

  lemma FirstCall(s: Seeds, call: Call)
    requires !s.initialized && !call.Srand?
    ensures var i := Initialize(s, call.world);
            && Started(i, call.world.pid) && i.state == SeedState(FirstSeed(call.world))
            && i.randSeeded == s.randSeeded && i.attached == call.world.attaches
            && Perform(s, call) == Perform(i, call)
  {
    hide SeedState, ProcessSeed, ShimDraw, LowHalf, Wide;
    Streams.SeedStateNonzero(FirstSeed(call.world));
  }

  /** From the very start: `srand` before anything has initialized the shim only keeps `rand` from
      seeding, and from the first other call on the outputs are one walk from the seed found there. */
  lemma {:induction false} RunFromStart(s: Seeds, lost: seq<Call>, calls: seq<Call>)
    requires !s.initialized && (forall i | 0 <= i < |lost| :: lost[i].Srand?)
    requires calls != [] && !calls[0].Srand?
    requires s.randSeeded || lost != [] || InProcess(calls[0].world.pid, calls)
    ensures var status := if s.randSeeded || lost != [] then Settled else Pending(calls[0].world.attaches);
            var w := calls[0].world;
            var seed := ProcessSeed(if w.attaches then w.initCell else 0, w.pid);
            Run(s, lost + calls).0 == seq(|lost|, _ => Silent) + Walk(SeedState(seed), Ops(status, calls)).0
    ensures Seeded(Run(s, lost + calls).1)
    decreases |lost|
  {
    hide Perform, SeedState, ProcessSeed, Walk, Ops, Rooted;
    if lost == [] {
      assert lost + calls == calls;
      FirstCall(s, calls[0]);
      RunIsWalk(Initialize(s, calls[0].world), calls[0].world.pid, calls);
    } else {
      assert (lost + calls)[1..] == lost[1..] + calls;
      LostCall(s, lost[0]);
      RunFromStart(SeedRand(s, lost[0].seed), lost[1..], calls);
      assert seq(|lost|, _ => Silent) == [Silent] + seq(|lost[1..]|, _ => Silent);
    }
  }

  lemma LostCall(s: Seeds, call: Call)
    requires call.Srand? && !s.initialized
    ensures Perform(s, call) == (Silent, SeedRand(s, call.seed))
    ensures !SeedRand(s, call.seed).initialized && SeedRand(s, call.seed).randSeeded
  {}

  lemma {:induction false} RunConcat(s: Seeds, a: seq<Call>, b: seq<Call>)
    ensures Run(s, a + b).0 == Run(s, a).0 + Run(Run(s, a).1, b).0
    ensures Run(s, a + b).1 == Run(Run(s, a).1, b).1
    decreases |a|
  {
    hide Perform;
    if a == [] {
      assert a + b == b;
    } else {
      RunConcat(Perform(s, a[0]).1, a[1..], b);
      assert (a + b)[1..] == a[1..] + b;
    }
  }

  /** After `srand` a process walks from that seed: the outputs depend on the seed and the calls
      alone, whatever happened before and whatever the seed cell holds meanwhile. */
  lemma RunAfterSrand(s: Seeds, seed: bv32, calls: seq<Call>)
    requires s.initialized
    ensures Run(s, [Srand(seed)] + calls).0 == [Silent] + Walk(SeedState(Wide(seed)), Ops(Settled, calls)).0
  {
    hide SeedState, Walk, Wide, Ops, Rooted;
    var more := [Srand(seed)] + calls;
    assert more[1..] == calls;
    Streams.SeedStateNonzero(Wide(seed));
    RunIsWalk(SeedRand(s, seed), 0, calls);
  }

  /** In every run from the very start that has made any other call, everything after an `srand` is
      the walk from its seed. */
  lemma LastSrandDecides(lost: seq<Call>, calls: seq<Call>, seed: bv32, rest: seq<Call>)
    requires forall i | 0 <= i < |lost| :: lost[i].Srand?
    requires calls != [] && !calls[0].Srand? && InProcess(calls[0].world.pid, calls)
    ensures Run(UNSET, lost + calls + [Srand(seed)] + rest).0 ==
            Run(UNSET, lost + calls).0 + [Silent] + Walk(SeedState(Wide(seed)), Ops(Settled, rest)).0
  {
    hide Run, SeedState, Walk, Ops, InProcess;
    var more := [Srand(seed)] + rest;
    assert lost + calls + [Srand(seed)] + rest == (lost + calls) + more;
    RunConcat(UNSET, lost + calls, more);
    RunFromStart(UNSET, lost, calls);
    RunAfterSrand(Run(UNSET, lost + calls).1, seed, rest);
  }

  /** Before initialization an `srand` is lost on the generator: the first call seeds it from the pid. */
  lemma SrandBeforeInitIsLost(s: Seeds, seed: bv32, w: World)
    requires !s.initialized
    ensures Initialize(SeedRand(s, seed), w) == Initialize(s, w).(randSeeded := true)
  {
    hide ProcessSeed, SeedState;
  }

  // ---- When the seed cell matters ---------------------------------------------------------

  /** The same call, but for what the seed cell holds when an initialized process loads it. */
  predicate SameButCells(a: Call, b: Call) {
    match a
    case Inits(w) => b.Inits? && b.world == w.(cell := b.world.cell)
    case Draws(draw, w) => b.Draws? && b.draw == draw && b.world == w.(cell := b.world.cell)
    case Rand(w, _, _) => b.Rand? && b.world == w.(cell := b.world.cell)
    case Srand(_) => b == a
    case Forks(w) => b.Forks? && b.world == w.(cell := b.world.cell)
  }

  ghost predicate CellsAside(a: seq<Call>, b: seq<Call>) {
    |a| == |b| && forall i | 0 <= i < |a| :: SameButCells(a[i], b[i])
  }

  /** A process attached to the cell calls `rand` before it or a parent it was forked from has called
      `rand` or `srand`. */
  predicate RandFindsCell(status: RandStatus, calls: seq<Call>)
    decreases |calls|
  {
    status.Pending? && calls != [] &&
    if calls[0].Rand? then status.attached else RandFindsCell(StatusAfter(status, calls[0]), calls[1..])
  }

  lemma {:induction false} OpsAside(status: RandStatus, a: seq<Call>, b: seq<Call>)
    requires CellsAside(a, b) && !RandFindsCell(status, a)
    ensures Ops(status, a) == Ops(status, b)
    decreases |a|
  {
    if a != [] {
      assert SameButCells(a[0], b[0]);
      OpsAside(StatusAfter(status, a[0]), a[1..], b[1..]);
    }
  }

  lemma {:induction false} InProcessAside(pid: bv32, a: seq<Call>, b: seq<Call>)
    requires CellsAside(a, b) && InProcess(pid, a)
    ensures InProcess(pid, b)
    decreases |a|
  {
    if a != [] {
      assert SameButCells(a[0], b[0]);
      InProcessAside(PidAfter(pid, a[0]), a[1..], b[1..]);
    }
  }

  /** Every 32-bit seed comes from some cell. */
  lemma CellFor(seed: bv32, pid: bv32) returns (cell: bv64)
    ensures RandSeed(true, cell, pid) == seed
  {
    hide Splitmix64, Streams.Unsplitmix64, Spread, LowHalf, Wide;
    cell := Streams.Unsplitmix64(Wide(seed)) ^ Spread(pid);
    CrossedTwice(Streams.Unsplitmix64(Wide(seed)), Spread(pid));
    Streams.Splitmix64Bijective(Wide(seed));
    LowHalfOfHalf(seed);
  }

  lemma CrossedTwice(x: bv64, y: bv64)
    ensures (x ^ y) ^ y == x
  {}

  lemma LowBits(s: bv64)
    ensures Positive(Bytes(s, 4)) == (WordAt(s, 0) & 0x7FFF_FFFF) as bv32
  {
    hide WordAt, Positive, LowByte, DropByte;
    var w := WordAt(s, 0);
    assert Drop(w, 0) == w;
    assert ByteAt(s, 0) == LowByte(w);
    assert ByteAt(s, 1) == LowByte(DropByte(w)) by { assert Drop(w, 1) == DropByte(w); }
    assert ByteAt(s, 2) == LowByte(DropByte(DropByte(w))) by { assert Drop(w, 2) == DropByte(DropByte(w)); }
    assert ByteAt(s, 3) == LowByte(DropByte(DropByte(DropByte(w)))) by {
      assert Drop(w, 3) == DropByte(DropByte(DropByte(w)));
    }
    assert Bytes(s, 4) == [ByteAt(s, 0), ByteAt(s, 1), ByteAt(s, 2), ByteAt(s, 3)];
    FourBytes(w);
  }

  lemma FourBytes(w: bv64)
    ensures Positive([LowByte(w), LowByte(DropByte(w)), LowByte(DropByte(DropByte(w))),
                      LowByte(DropByte(DropByte(DropByte(w))))]) == (w & 0x7FFF_FFFF) as bv32
  {}

  lemma SeedsTellApart()
    ensures DrawFrom(SeedState(Wide(1)), Bits31).0 != DrawFrom(SeedState(Wide(2)), Bits31).0
  {
    hide Positive, Bytes;
    LowBits(SeedState(Wide(1)));
    LowBits(SeedState(Wide(2)));
    assert WordAt(SeedState(Wide(1)), 0) == 0x4B46A55DF3611B9B;
    assert WordAt(SeedState(Wide(2)), 0) == 0x8A6F1A28BEFA4CA9;
  }

  lemma OtherCell(cell: bv64, pid: bv32) returns (other: bv64)
    ensures DrawFrom(SeedState(Wide(RandSeed(true, other, pid))), Bits31).0
         != DrawFrom(SeedState(Wide(RandSeed(true, cell, pid))), Bits31).0
  {
    hide DrawFrom, SeedState, RandSeed, Wide;
    var c1 := CellFor(1, pid);
    var c2 := CellFor(2, pid);
    SeedsTellApart();
    var seed := SeedState(Wide(RandSeed(true, cell, pid)));
    other := if DrawFrom(seed, Bits31).0 == DrawFrom(SeedState(Wide(1)), Bits31).0 then c2 else c1;
  }

  /** If `rand` finds the cell, other values there lead to other outputs. */
  lemma {:induction false} OtherCells(state: bv64, status: RandStatus, calls: seq<Call>) returns (others: seq<Call>)
    requires RandFindsCell(status, calls)
    ensures CellsAside(calls, others)
    ensures Walk(state, Ops(status, others)).0 != Walk(state, Ops(status, calls)).0
    decreases |calls|
  {
    hide DrawFrom, SeedState, RandSeed, Wide, FirstSeed;
    var call := calls[0];
    if call.Rand? {
      var other := OtherCell(call.second, call.world.pid);
      others := calls[0 := call.(second := other)];
      assert Walk(state, Ops(status, others)).0[0] != Walk(state, Ops(status, calls)).0[0];
    } else {
      var rest := OtherCells(Answer(state, OpOf(status, call)).1, StatusAfter(status, call), calls[1..]);
      others := [call] + rest;
      assert others[1..] == rest;
      assert Walk(state, Ops(status, others)).0[1..] != Walk(state, Ops(status, calls)).0[1..];
    }
  }

  /** What SET_SEED can do to a running process: its outputs are the same for all values of the seed
      cell exactly when no `rand` has still to seed and finds the cell, that is, when `rand` or
      `srand` has seeded already, no `rand` comes before an `srand`, or there is no controller. */
  lemma CellsMatterExactlyWhenRandFindsThem(s: Seeds, pid: bv32, calls: seq<Call>)
    requires Started(s, pid) && InProcess(pid, calls)
    ensures (forall others | CellsAside(calls, others) :: Run(s, others).0 == Run(s, calls).0)
            <==> !RandFindsCell(StatusOf(s), calls)
  {
    hide Run, Walk, Ops, Rooted, InProcess, RandFindsCell, CellsAside;
    RunIsWalk(s, pid, calls);
    if RandFindsCell(StatusOf(s), calls) {
      var others := OtherCells(s.state, StatusOf(s), calls);
      InProcessAside(pid, calls, others);
      RunIsWalk(s, pid, others);
    } else {
      forall others | CellsAside(calls, others)
        ensures Run(s, others).0 == Run(s, calls).0
      {
        OpsAside(StatusOf(s), calls, others);
        InProcessAside(pid, calls, others);
        RunIsWalk(s, pid, others);
      }
    }
  }

  // ---- Streams of different processes --------------------------------------------------------

  /** Processes that initialize from the same seed cell, a parent and its forked children say,
      start with streams that differ in every word exactly when their pids differ. */
  lemma ForkedStreamsDiffer(s: Seeds, t: Seeds, w: World, w': World, k: nat)
    requires w.attaches == w'.attaches && w.initCell == w'.initCell
    ensures WordAt(Reinitialize(s, w).state, k) == WordAt(Reinitialize(t, w').state, k) <==> w.pid == w'.pid
  {
    hide ProcessSeed, SeedState, WordAt;
    Streams.ProcessStreamsDiffer(if w.attaches then w.initCell else 0, w.pid, w'.pid, k);
  }

  /** The seed cell reaches the stream: two processes with one pid start with the same word at an index
      exactly when their cells agree, but for one pair of cells that seeding merges. */
  lemma CellsTellStreamsApart(w: World, w': World, k: nat)
    requires w.attaches && w'.attaches && w.pid == w'.pid
    ensures var a, b := ProcessSeed(w.initCell, w.pid), ProcessSeed(w'.initCell, w.pid);
            WordAt(Initialize(UNSET, w).state, k) == WordAt(Initialize(UNSET, w').state, k)
            <==> w.initCell == w'.initCell || Streams.IsMergedPair(a, b) || Streams.IsMergedPair(b, a)
  {
    hide ProcessSeed, SeedState, WordAt, Streams.IsMergedPair;
    Streams.ProcessSeedInjective(w.initCell, w'.initCell, w.pid, w.pid);
    Streams.SeedMergesOnePair(ProcessSeed(w.initCell, w.pid), ProcessSeed(w'.initCell, w.pid));
    Streams.StreamsDiffer(Initialize(UNSET, w).state, Initialize(UNSET, w').state, k);
  }

  /** A process without a controller starts like one that finds 0 in the cell. */
  lemma DetachedStartsFromZero(w: World, w': World)
    requires !w.attaches && w'.attaches && w'.initCell == 0 && w.pid == w'.pid
    ensures Initialize(UNSET, w).state == Initialize(UNSET, w').state
    ensures Initialize(UNSET, w).effective == Initialize(UNSET, w').effective
  {
    hide ProcessSeed, SeedState;
  }

  /** A forked child starts a stream of its own, but does not seed `rand` again if its parent had. */
  lemma ChildKeepsRandSeeded(s: Seeds, w: World, second: bv64, third: bv64)
    requires s.randSeeded
    ensures var child := Perform(s, Forks(w)).1;
            && child.state == SeedState(ProcessSeed(if w.attaches then w.initCell else 0, w.pid))
            && Perform(child, Rand(w, second, third)).1.state == StateAfter(child.state, 1)
  {
    hide ProcessSeed, SeedState, DrawFrom, Positive, Prepare, StateAfter, SeedRandOnce;
    var child := Perform(s, Forks(w)).1;
    Streams.SeedStateNonzero(FirstSeed(w));
    SeededOnce(child, w, second);
    GuardNeverFires(child, w.(cell := third));
    BitsAreOneWord(child.state);
  }

  lemma BitsAreOneWord(state: bv64)
    ensures DrawFrom(state, Bits31).1 == StateAfter(state, 1)
  {
    hide Positive, Bytes;
  }

  lemma OutputOfTwo(s: Seeds, a: Call, b: Call)
    ensures |Run(s, [a, b]).0| == 2 && Run(s, [a, b]).0[1] == Perform(Perform(s, a).1, b).0
  {
    hide Perform;
    var s' := Perform(s, a).1;
    assert Run(s', [b]).0 == [Perform(s', b).0] by {
      assert [b][1..] == [];
    }
    assert [a, b][1..] == [b];
  }

  lemma KnownStates()
    ensures SeedState(ProcessSeed(24, 3657)) == 0x5A5F0A0AE2AD4435 && WordAt(0x5A5F0A0AE2AD4435, 0) == 0xA16CAADFE36310ED
    ensures SeedState(Wide(LowHalf(ProcessSeed(24, 3657)))) == 0x638E90042D4B4E44
    ensures WordAt(0x638E90042D4B4E44, 0) == 0x7EF17BD32411BC65
    ensures SeedState(Wide(1)) == 0x910A2DEC89025CC1 && WordAt(0x910A2DEC89025CC1, 0) == 0x4B46A55DF3611B9B
  {
    hide ProcessSeed;
    Streams.KnownWords();
  }

  /** What processes draw first, as numbers: eight bytes of `getrandom` by process 3657 that finds 24 in
      the cell, its first `rand` instead, and the first `rand` after `srand(1)`. */
  lemma KnownDraws(s: Seeds)
    requires s.initialized
    ensures var w := Seed24(3657);
            && Run(UNSET, [Inits(w), Draws(Fill(8), w)]).0[1] ==
               Data([0xED, 0x10, 0x63, 0xE3, 0xDF, 0xAA, 0x6C, 0xA1])
            && Run(UNSET, [Inits(w), Rand(w, 24, 24)]).0[1] == Bits(0x2411BC65)
    ensures Run(s, [Srand(1), Rand(Seed24(1), 24, 24)]).0[1] == Bits(0x73611B9B)
  {
    hide Run, Perform, WordAt, SeedState, Wide, ProcessSeed, LowHalf, Positive, Bytes, ByteAt;
    var w := Seed24(3657);
    KnownStates();
    OutputOfTwo(UNSET, Inits(w), Draws(Fill(8), w));
    OutputOfTwo(UNSET, Inits(w), Rand(w, 24, 24));
    OutputOfTwo(s, Srand(1), Rand(Seed24(1), 24, 24));
    FirstCall(UNSET, Inits(w));
    InitializedFirst(UNSET, w);
    assert FirstSeed(w) == ProcessSeed(24, 3657);
    var p := Initialize(UNSET, w);
    CallIsOp(p, 3657, Draws(Fill(8), w));
    CallIsOp(p, 3657, Rand(w, 24, 24));
    EightBytes(p.state);
    LowBits(SeedState(Wide(LowHalf(ProcessSeed(24, 3657)))));
    Streams.SeedStateNonzero(Wide(1));
    CallIsOp(SeedRand(s, 1), 1, Rand(Seed24(1), 24, 24));
    SrandIs(s, 1);
    LowBits(SeedState(Wide(1)));
  }

  lemma SrandIs(s: Seeds, seed: bv32)
    ensures Perform(s, Srand(seed)).1 == SeedRand(s, seed)
  {}

  lemma EightBytes(s: bv64)
    ensures Bytes(s, 8) == [ByteAt(s, 0), ByteAt(s, 1), ByteAt(s, 2), ByteAt(s, 3),
                            ByteAt(s, 4), ByteAt(s, 5), ByteAt(s, 6), ByteAt(s, 7)]
    ensures WordAt(s, 0) == 0xA16CAADFE36310ED ==> Bytes(s, 8) == [0xED, 0x10, 0x63, 0xE3, 0xDF, 0xAA, 0x6C, 0xA1]
  {
    hide WordAt, ByteAt;
    Streams.BytesOfWord(s, 0);
  }

  /** Seeds of 32 bits are not confused: the merged pair needs more. */
  lemma HalfSeedsDiffer(a: bv32, b: bv32)
    ensures SeedState(Wide(a)) == SeedState(Wide(b)) <==> a == b
  {
    hide SeedState;
    Streams.SeedMergesOnePair(Wide(a), Wide(b));
    NotWide(a);
    NotWide(b);
    LowHalfOfHalf(a);
    LowHalfOfHalf(b);
  }

  lemma NotWide(a: bv32)
    ensures Wide(a) != Streams.ZERO_SEED && Wide(a) != Streams.FALLBACK_SEED
  {}

  /** After the first `rand` of each, two processes that found the same cell share every later word
      exactly when the low halves of their process seeds agree. */
  lemma FirstRandSharesStream(s: Seeds, t: Seeds, p: bv32, q: bv32, call: Call, call': Call, k: nat)
    requires Started(s, p) && !s.randSeeded && Started(t, q) && !t.randSeeded && s.attached == t.attached
    requires call.Rand? && call'.Rand? && call.world.pid == p && call'.world.pid == q && call.second == call'.second
    ensures var cell := if s.attached then call.second else 0;
            WordAt(Perform(s, call).1.state, k) == WordAt(Perform(t, call').1.state, k)
            <==> LowHalf(ProcessSeed(cell, p)) == LowHalf(ProcessSeed(cell, q))
  {
    hide Perform, WordAt, SeedState, ProcessSeed, LowHalf, Wide, Positive, Rooted, StateAfter;
    CallIsOp(s, p, call);
    CallIsOp(t, q, call');
    var a, b := RandSeed(s.attached, call.second, p), RandSeed(t.attached, call'.second, q);
    HalfSeedsDiffer(a, b);
    Streams.StatesDiffer(SeedState(Wide(a)), SeedState(Wide(b)), WordsFor(4));
    Streams.StreamsDiffer(Perform(s, call).1.state, Perform(t, call').1.state, k);
  }

  /** A process whose shared seed is and stays 24. */
  function Seed24(pid: bv32): World {
    World(true, pid, 24, 24)
  }

  /** And they can: with shared seed 24 the processes 3657 and 4882 start with different streams, and
      share one from their first `rand` on. */
  lemma RandCanShareStream(k: nat)
    ensures var w, w' := Seed24(3657), Seed24(4882);
            && WordAt(Initialize(UNSET, w).state, k) != WordAt(Initialize(UNSET, w').state, k)
            && WordAt(Run(UNSET, [Inits(w), Rand(w, 24, 24)]).1.state, k)
               == WordAt(Run(UNSET, [Inits(w'), Rand(w', 24, 24)]).1.state, k)
  {
    hide Perform, WordAt, SeedState, Wide, ProcessSeed, LowHalf, Run;
    var w, w' := Seed24(3657), Seed24(4882);
    var p, q := Initialize(UNSET, w), Initialize(UNSET, w');
    Collision();
    RunOfTwo(UNSET, Inits(w), Rand(w, 24, 24));
    RunOfTwo(UNSET, Inits(w'), Rand(w', 24, 24));
    InitializedFirst(UNSET, w);
    InitializedFirst(UNSET, w');
    FirstCall(UNSET, Inits(w));
    FirstCall(UNSET, Inits(w'));
    assert FirstSeed(w) == ProcessSeed(24, 3657) && FirstSeed(w') == ProcessSeed(24, 4882);
    Streams.ProcessStreamsDiffer(24, 3657, 4882, k);
    FirstRandSharesStream(p, q, 3657, 4882, Rand(w, 24, 24), Rand(w', 24, 24), k);
  }

  lemma RunOfTwo(s: Seeds, a: Call, b: Call)
    ensures Run(s, [a, b]).1 == Perform(Perform(s, a).1, b).1
  {
    hide Perform;
    var s' := Perform(s, a).1;
    assert Run(s', [b]).1 == Perform(s', b).1 by {
      assert [b][1..] == [];
    }
    assert [a, b][1..] == [b];
  }

  lemma InitializedFirst(s: Seeds, w: World)
    ensures Perform(s, Inits(w)).1 == Initialize(s, w)
  {
    hide Initialize;
  }

  lemma Collision()
    ensures LowHalf(ProcessSeed(24, 3657)) == LowHalf(ProcessSeed(24, 4882)) == 0x517C4171
  {}

  // ---- Walks -----------------------------------------------------------------------------------

  ghost function Sum(used: seq<nat>): nat {
    if used == [] then 0 else used[0] + Sum(used[1..])
  }

  /** Between restarts a walk is contiguous: each draw starts where the previous one stopped. */
  lemma {:induction false} WalkIsContiguous(state: bv64, ops: seq<Op>) returns (used: seq<nat>)
    requires forall i | 0 <= i < |ops| :: ops[i].restart.None?
    ensures |used| == |ops| == |Walk(state, ops).0|
    ensures Walk(state, ops).1 == StateAfter(state, Sum(used))
    ensures forall i | 0 <= i < |ops| ::
              Walk(state, ops).0[i] == Answer(StateAfter(state, Sum(used[..i])), ops[i]).0
    decreases |ops|
  {
    hide Answer, StateAfter;
    if ops == [] {
      used := [];
      assert StateAfter(state, 0) == state by { AtStart(state); }
    } else {
      var n := OpAdvances(state, ops[0]);
      var next := Answer(state, ops[0]).1;
      var rest := WalkIsContiguous(next, ops[1..]);
      used := [n] + rest;
      assert used[1..] == rest;
      Streams.StateAfterSum(state, n, Sum(rest));
      forall i | 0 <= i < |ops|
        ensures Walk(state, ops).0[i] == Answer(StateAfter(state, Sum(used[..i])), ops[i]).0
      {
        if i == 0 {
          AtStart(state);
        } else {
          assert used[..i][1..] == rest[..i - 1];
          Streams.StateAfterSum(state, n, Sum(rest[..i - 1]));
        }
      }
    }
  }

  lemma AtStart(state: bv64)
    ensures StateAfter(state, 0) == state
  {}

  lemma OpAdvances(state: bv64, op: Op) returns (n: nat)
    requires op.restart.None?
    ensures Answer(state, op).1 == StateAfter(state, n)
  {
    hide Step, MulOut, Positive;
    match op.take
    case None => n := 0;
    case Some(Fill(len)) => n := WordsFor(len);
    case Some(Bits31) => n := WordsFor(4);
    case Some(Uniform(bound, budget)) =>
      if bound == 0 {
        n := 0;
      } else {
        n := Streams.BoundedDrawIsFirstAccepted(state, bound, budget);
      }
  }
}
