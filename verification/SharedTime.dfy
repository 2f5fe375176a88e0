/**
  `linbox_shm_write_time` and `linbox_shm_read_time` as code over the seqlock
  machine: each load and store is one step of the machine, and between any two
  of them everybody else may take any number of steps.
 */
module SharedTime {
  import opened Basics
  import opened Seqlock
  import Linearizability

  /** Who is running: reader `r`, or the writer. */
  datatype Thread = ReaderThread(r: nat) | WriterThread

  predicate Runs(who: Thread, step: Step) {
    match step
    case ReadStep(r, _) => who == ReaderThread(r)
    case _ => who.WriterThread?
  }

  /** `t` follows from `s` by steps of threads other than `who`. */
  ghost predicate OthersRan(who: Thread, s: State, t: State) {
    exists steps: seq<Step> :: Exec(s, steps) == Some(t) && forall i | 0 <= i < |steps| :: !Runs(who, steps[i])
  }

  /** What the running thread knows survives the steps of the others. */
  ghost predicate Undisturbed(who: Thread, s: State, t: State) {
    && |t.shared.readers| == |s.shared.readers|
    && (who.ReaderThread? && who.r < |s.shared.readers| ==> t.shared.readers[who.r] == s.shared.readers[who.r])
    && (who.WriterThread? ==>
          && t.writer == s.writer && t.shared.mem == s.shared.mem
          && t.shared.published == s.shared.published)
  }

  lemma {:induction false} OthersLeaveAlone(who: Thread, s: State, steps: seq<Step>)
    requires Exec(s, steps).Some? && forall i | 0 <= i < |steps| :: !Runs(who, steps[i])
    ensures Undisturbed(who, s, Exec(s, steps).value)
  {
    if steps != [] {
      OthersLeaveAlone(who, s, steps[..|steps| - 1]);
    }
  }

  lemma {:induction false} ReachableOn(s: State, steps: seq<Step>)
    requires Reachable(s) && Exec(s, steps).Some?
    ensures Reachable(Exec(s, steps).value)
  {
    var readers: nat, before: seq<Step> :| Exec(Init(readers), before) == Some(s);
    ExecConcat(Init(readers), before, steps);
    assert Exec(Init(readers), before + steps) == Exec(s, steps);
  }

  lemma OthersRanMeans(who: Thread, s: State, t: State)
    requires Reachable(s) && OthersRan(who, s, t)
    ensures Reachable(t) && Undisturbed(who, s, t) && Extends(s.shared, t.shared)
  {
    var steps: seq<Step> :| Exec(s, steps) == Some(t) && forall i | 0 <= i < |steps| :: !Runs(who, steps[i]);
    OthersLeaveAlone(who, s, steps);
    ReachableOn(s, steps);
    ReachableInv(s);
    Linearizability.RunExtends(s, steps);
  }

  lemma ExtendsOn(s: Shared, t: Shared, u: Shared)
    requires Extends(s, t) && Extends(t, u)
    ensures Extends(s, u)
  {}

  /** An access to shared memory by running code, and the state it was made in. */
  datatype Access = Access(who: Thread, step: Step, before: State)

  /** `trace` lists the accesses of the running code. */
  class Machine {
    var state: State
    ghost var trace: seq<Access>

    constructor (readers: nat)
      ensures state == Init(readers) && Reachable(state) && trace == []
    {
      state, trace := Init(readers), [];
      new;
      assert Exec(Init(readers), []) == Some(state);
    }

    /** The other threads run for a while: all a caller learns is that they took some steps. */
    method Others(who: Thread)
      modifies this`state
      ensures OthersRan(who, old(state), state)
    {
      assert Exec(state, []) == Some(state);
    }

    method Yield(who: Thread)
      requires Reachable(state)
      modifies this`state
      ensures Reachable(state) && Undisturbed(who, old(state), state) && Extends(old(state).shared, state.shared)
    {
      Others(who);
      OthersRanMeans(who, old(state), state);
    }

    /** The running thread's own access. */
    method Perform(who: Thread, step: Step)
      requires Reachable(state) && Enabled(state, step) && Runs(who, step)
      modifies this
      ensures Reachable(state) && state == Do(old(state), step) && Extends(old(state).shared, state.shared)
      ensures trace == old(trace) + [Access(who, step, old(state))]
    {
      trace := trace + [Access(who, step, state)];
      Linearizability.ExecStep(state, step);
      ReachableOn(state, [step]);
      ReachableInv(state);
      Linearizability.RunExtends(state, [step]);
      state := Do(state, step);
    }
  }

  /** What a returned value is worth: it is the one the machine logs for this read, and unless the
      counter wrapped it is a publication no older than the newest one at the time of the call. */
  ghost predicate GoodRead(before: Shared, after: Shared, r: nat, value: Time) {
    && after.log != []
    && var read := after.log[|after.log| - 1];
       && read.reader == r && read.value == value
       && before.clock <= read.first
       && (NoWrap(read) ==>
             |before.published| - 1 <= read.firstPub < |after.published| && value == after.published[read.firstPub])
  }

  /** The last read logged is one of reader `r` that began after `s`. */
  ghost predicate LoggedSince(s: State, t: State, r: nat, value: Time) {
    && t.shared.log != []
    && var read := t.shared.log[|t.shared.log| - 1];
       read.reader == r && read.value == value && s.shared.clock <= read.first
  }

  lemma LoggedReadIsGood(s: State, t: State, r: nat, value: Time)
    requires Reachable(s) && Reachable(t) && Extends(s.shared, t.shared) && LoggedSince(s, t, r, value)
    ensures GoodRead(s.shared, t.shared, r, value)
  {
    hide ReaderInv;
    ReachableInv(s);
    ReachableInv(t);
    var read := t.shared.log[|t.shared.log| - 1];
    assert ReadInv(t.shared, read);
    Linearizability.NewestIsNotMissed(s.shared, t.shared, read);
  }

  /** No write is in flight, and none stores to the counter in between. */
  ghost predicate Unwritten(before: Shared, after: Shared) {
    before.mem.counter % 2 == 0 && before.ticks == after.ticks
  }

  lemma UnwrittenReadIsCurrent(s: State, t: State, r: nat, value: Time)
    requires Reachable(s) && Reachable(t) && Extends(s.shared, t.shared) && LoggedSince(s, t, r, value)
    requires Unwritten(s.shared, t.shared)
    ensures s.shared.published != [] && value == Current(s.shared)
  {
    hide ReaderInv;
    ReachableInv(s);
    ReachableInv(t);
    var read := t.shared.log[|t.shared.log| - 1];
    assert ReadInv(t.shared, read);
    Linearizability.NewestIsNotMissed(s.shared, t.shared, read);
  }

  /** A pass that does not return: a write was in flight at its first counter load, or stored to the
      counter before its second. */
  ghost predicate FailedPass(r: nat, pass: seq<Access>) {
    && LoadsOf(r, pass)
    && if |pass| == 1 then pass[0].before.shared.mem.counter % 2 == 1
       else pass[0].before.shared.ticks < pass[3].before.shared.ticks
  }

  /** A pass that returns the two words it loaded, between two equal and even counters. */
  ghost predicate ReturningPass(r: nat, pass: seq<Access>, value: Time) {
    && LoadsOf(r, pass) && |pass| == 4
    && pass[0].before.shared.mem.counter == pass[3].before.shared.mem.counter
    && pass[0].before.shared.mem.counter % 2 == 0
    && value == Time(pass[1].before.shared.mem.time.sec, pass[2].before.shared.mem.time.nsec)
  }

  /** The loads of one pass: the counter alone, or the counter, the two words and the counter again. */
  ghost predicate LoadsOf(r: nat, pass: seq<Access>) {
    && (forall k | 0 <= k < |pass| :: pass[k].who == ReaderThread(r))
    && (|pass| == 1 || |pass| == 4)
    && pass[0].step == ReadStep(r, LoadFirst)
    && (|pass| == 4 ==>
          pass[1].step == ReadStep(r, LoadSec) && pass[2].step == ReadStep(r, LoadNsec)
          && pass[3].step == ReadStep(r, LoadLast))
  }

  ghost function Flatten(passes: seq<seq<Access>>): seq<Access> {
    if passes == [] then [] else Flatten(passes[..|passes| - 1]) + passes[|passes| - 1]
  }

  lemma FlattenSnoc(passes: seq<seq<Access>>, pass: seq<Access>)
    ensures Flatten(passes + [pass]) == Flatten(passes) + pass
  {
    assert (passes + [pass])[..|passes|] == passes;
  }

  /** All accesses were made between two states. */
  ghost predicate Within(s: Shared, pass: seq<Access>, t: Shared) {
    forall k | 0 <= k < |pass| ::
      && s.ticks <= pass[k].before.shared.ticks <= t.ticks
      && pass[k].before.shared.mem.counter == pass[k].before.shared.ticks % WRAP
  }

  lemma CounterIsTicks(s: State)
    requires Reachable(s)
    ensures s.shared.mem.counter == s.shared.ticks % WRAP
  {
    hide ReaderInv, ReadInv, StampsInv, Reachable;
    ReachableInv(s);
  }

  lemma ExtendsTicks(s: Shared, t: Shared)
    requires Extends(s, t)
    ensures s.ticks <= t.ticks
  {}

  ghost function FullPass(r: nat, first: State, second: State, third: State, last: State): seq<Access> {
    [Access(ReaderThread(r), ReadStep(r, LoadFirst), first), Access(ReaderThread(r), ReadStep(r, LoadSec), second),
     Access(ReaderThread(r), ReadStep(r, LoadNsec), third), Access(ReaderThread(r), ReadStep(r, LoadLast), last)]
  }

  lemma OneLoad(s: Shared, r: nat, first: State, t: Shared)
    requires s.ticks <= first.shared.ticks <= t.ticks
    requires first.shared.mem.counter == first.shared.ticks % WRAP && first.shared.mem.counter % 2 == 1
    ensures var pass := [Access(ReaderThread(r), ReadStep(r, LoadFirst), first)];
            Within(s, pass, t) && FailedPass(r, pass)
  {}

  lemma FourLoads(s: Shared, r: nat, first: State, second: State, third: State, last: State, t: Shared)
    requires s.ticks <= first.shared.ticks && Counted(first, second) && Counted(second, third) && Counted(third, last)
    requires first.shared.mem.counter == first.shared.ticks % WRAP && first.shared.mem.counter % 2 == 0
    requires last.shared.ticks <= t.ticks
    ensures var pass := FullPass(r, first, second, third, last);
            && Within(s, pass, t)
            && if first.shared.mem.counter == last.shared.mem.counter
               then ReturningPass(r, pass, Time(second.shared.mem.time.sec, third.shared.mem.time.nsec))
               else FailedPass(r, pass)
  {}

  /** One pass of the retry loop. */
  method TryRead(m: Machine, r: nat, ghost start: State) returns (out: Option<Time>, ghost pass: seq<Access>)
    requires Reachable(m.state) && r < |m.state.shared.readers| && m.state.shared.readers[r].Starting?
    requires Extends(start.shared, m.state.shared)
    modifies m
    ensures Reachable(m.state) && Extends(start.shared, m.state.shared)
    ensures old(m.state).shared.ticks <= m.state.shared.ticks
    ensures m.trace == old(m.trace) + pass && Within(old(m.state).shared, pass, m.state.shared)
    ensures match out
            case Some(value) => ReturningPass(r, pass, value) && LoggedSince(start, m.state, r, value)
            case None =>
              && FailedPass(r, pass)
              && r < |m.state.shared.readers| && m.state.shared.readers[r].Starting?
  {
    hide SharedInv, ReaderInv, ReadInv, Reachable, Extends, Within, FailedPass, ReturningPass;
    ghost var before := m.state.shared;
    Wait(m, r, start);
    ghost var first := m.state;
    assert start.shared.clock <= first.shared.clock by { ExtendsClock(start.shared, first.shared); }
    var seq1 := m.state.shared.mem.counter;
    Take(m, r, LoadFirst, start);
    pass := [Access(ReaderThread(r), ReadStep(r, LoadFirst), first)];
    if seq1 % 2 == 1 {
      OneLoad(before, r, first, m.state.shared);
      return None, pass;
    }
    Wait(m, r, start);
    ghost var second := m.state;
    var sec := m.state.shared.mem.time.sec;
    Take(m, r, LoadSec, start);
    Wait(m, r, start);
    ghost var third := m.state;
    var nsec := m.state.shared.mem.time.nsec;
    Take(m, r, LoadNsec, start);
    Wait(m, r, start);
    ghost var last := m.state;
    var seq2 := m.state.shared.mem.counter;
    Take(m, r, LoadLast, start);
    pass := FullPass(r, first, second, third, last);
    FourLoads(before, r, first, second, third, last, m.state.shared);
    if seq1 == seq2 && seq2 % 2 == 0 {
      return Some(Time(sec, nsec)), pass;
    }
    out := None;
  }

  /** The retry loop, watched for at most `attempts` passes. Every pass but a last one that returns has
      failed, so a call that no write overlaps returns the current time on its first pass. */
  method ReadTime(m: Machine, r: nat, attempts: nat) returns (out: Option<Time>, ghost passes: seq<seq<Access>>)
    requires Reachable(m.state) && r < |m.state.shared.readers| && m.state.shared.readers[r].Away?
    modifies m
    ensures Reachable(m.state)
    ensures out.Some? ==> GoodRead(old(m.state).shared, m.state.shared, r, out.value)
    ensures m.trace == old(m.trace) + [Access(ReaderThread(r), ReadStep(r, Begin), old(m.state))] + Flatten(passes)
    ensures out.None? ==> |passes| == attempts && forall i | 0 <= i < |passes| :: FailedPass(r, passes[i])
    ensures out.Some? ==>
              && 0 < |passes| <= attempts && ReturningPass(r, passes[|passes| - 1], out.value)
              && forall i | 0 <= i < |passes| - 1 :: FailedPass(r, passes[i])
    ensures attempts > 0 && Unwritten(old(m.state).shared, m.state.shared) ==>
              && |passes| == 1 && old(m.state).shared.published != []
              && out == Some(Current(old(m.state).shared))
  {
    hide SharedInv, ReaderInv, ReadInv, Reachable, Extends, GoodRead, LoggedSince;
    hide ReturningPass, FailedPass, Flatten, Within;
    ghost var start := m.state;
    CounterIsTicks(start);
    m.Perform(ReaderThread(r), ReadStep(r, Begin));
    ghost var began := m.trace;
    var left: nat := attempts;
    passes := [];
    NothingYet();
    while left > 0
      invariant Reachable(m.state) && r < |m.state.shared.readers| && m.state.shared.readers[r].Starting?
      invariant Extends(start.shared, m.state.shared) && start.shared.ticks <= m.state.shared.ticks
      invariant left + |passes| == attempts && m.trace == began + Flatten(passes)
      invariant forall i | 0 <= i < |passes| :: FailedPass(r, passes[i])
      invariant passes != [] ==> start.shared.mem.counter % 2 == 1 || start.shared.ticks < m.state.shared.ticks
      decreases left
    {
      left := left - 1;
      ghost var pass, before := [], m.state;
      out, pass := TryRead(m, r, start);
      FlattenSnoc(passes, pass);
      passes := passes + [pass];
      if out.Some? {
        LoggedReadIsGood(start, m.state, r, out.value);
        if Unwritten(start.shared, m.state.shared) {
          UnwrittenReadIsCurrent(start, m.state, r, out.value);
        }
        return;
      }
      WrittenIfFailed(start.shared, before.shared, r, pass, m.state.shared);
    }
    out := None;
  }

  lemma NothingYet()
    ensures Flatten([]) == []
  {}

  lemma WrittenIfFailed(start: Shared, before: Shared, r: nat, pass: seq<Access>, after: Shared)
    requires FailedPass(r, pass) && Within(before, pass, after)
    requires start.ticks <= before.ticks && start.mem.counter == start.ticks % WRAP
    ensures start.mem.counter % 2 == 1 || start.ticks < after.ticks
  {
    assert before.ticks <= pass[0].before.shared.ticks <= after.ticks;
  }

  lemma ExtendsClock(s: Shared, t: Shared)
    requires Extends(s, t)
    ensures s.clock <= t.clock
  {}

  /** The others run. `start` is an earlier state. */
  method Wait(m: Machine, r: nat, ghost start: State)
    requires Reachable(m.state) && Extends(start.shared, m.state.shared)
    modifies m`state
    ensures Reachable(m.state) && Undisturbed(ReaderThread(r), old(m.state), m.state)
    ensures Extends(start.shared, m.state.shared)
    ensures Counted(old(m.state), m.state)
  {
    m.Yield(ReaderThread(r));
    ExtendsOn(start.shared, old(m.state).shared, m.state.shared);
    ExtendsTicks(old(m.state).shared, m.state.shared);
    CounterIsTicks(m.state);
  }

  /** One load of reader `r`. */
  method Take(m: Machine, r: nat, act: Act, ghost start: State)
    requires Reachable(m.state) && CanRead(m.state.shared, r, act) && Extends(start.shared, m.state.shared)
    modifies m
    ensures Reachable(m.state) && m.state == Do(old(m.state), ReadStep(r, act))
    ensures Extends(start.shared, m.state.shared)
    ensures m.trace == old(m.trace) + [Access(ReaderThread(r), ReadStep(r, act), old(m.state))]
    ensures old(m.state).shared.ticks <= m.state.shared.ticks
  {
    m.Perform(ReaderThread(r), ReadStep(r, act));
    ExtendsOn(start.shared, old(m.state).shared, m.state.shared);
    ExtendsTicks(old(m.state).shared, m.state.shared);
  }

  ghost predicate Counted(s: State, t: State) {
    s.shared.ticks <= t.shared.ticks && t.shared.mem.counter == t.shared.ticks % WRAP
  }

  /** A complete write: exactly one publication is added, and readers never block it. */
  method WriteTime(m: Machine, ts: Time)
    requires Reachable(m.state) && m.state.writer.Idle?
    modifies m
    ensures Reachable(m.state) && m.state.writer.Idle?
    ensures m.state.shared.published == old(m.state).shared.published + [ts]
    ensures m.state.shared.mem == Seqlock.Memory((old(m.state).shared.mem.counter + 2) % WRAP, ts)
    ensures |m.trace| == |old(m.trace)| + 6 && m.trace[..|old(m.trace)|] == old(m.trace)
    ensures forall k | 0 <= k < 6 ::
              m.trace[|old(m.trace)| + k].step == Linearizability.SoloWrite(old(m.state).shared.mem.counter, ts)[k]
  {
    hide SharedInv, Reachable, OthersRan;
    m.Perform(WriterThread, Call(ts));
    m.Yield(WriterThread);
    var seq0 := m.state.shared.mem.counter;
    m.Perform(WriterThread, LoadCounter);
    m.Yield(WriterThread);
    m.Perform(WriterThread, Issue(Enter((seq0 + 1) % WRAP, ts)));
    m.Yield(WriterThread);
    m.Perform(WriterThread, Issue(PutSec(ts)));
    m.Yield(WriterThread);
    m.Perform(WriterThread, Issue(PutNsec(ts)));
    m.Yield(WriterThread);
    m.Perform(WriterThread, Issue(Leave((seq0 + 2) % WRAP, ts)));
  }
}
