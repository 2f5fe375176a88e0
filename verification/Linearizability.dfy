/**
  What the seqlock promises its readers, over every run of the machine in
  module Seqlock, and the exact point where the 32-bit counter gives out.
 */
module Linearizability {
  import opened Basics
  import opened Seqlock

  // ---- Reads are atomic ------------------------------------------------------

  lemma {:induction false} RunExtends(s: State, steps: seq<Step>)
    requires Inv(s) && Exec(s, steps).Some?
    ensures Extends(s.shared, Exec(s, steps).value.shared)
    ensures Inv(Exec(s, steps).value)
  {
    if steps != [] {
      var last := |steps| - 1;
      RunExtends(s, steps[..last]);
      var t := Exec(s, steps[..last]).value;
      StepKeepsInv(t, steps[last]);
    }
  }

  lemma {:induction false} PrefixRuns(s: State, steps: seq<Step>, i: nat)
    requires Exec(s, steps).Some? && i <= |steps|
    ensures Exec(s, steps[..i]).Some?
    ensures Exec(s, steps) == Exec(Exec(s, steps[..i]).value, steps[i..])
  {
    if i == |steps| {
      assert steps[..i] == steps;
    } else {
      var last := |steps| - 1;
      PrefixRuns(s, steps[..last], i);
      assert steps[..last][..i] == steps[..i];
      assert steps[..i] + steps[i..] == steps;
      ExecConcat(s, steps[..i], steps[i..]);
    }
  }

  /** The newest publication in an intermediate state of a run is the one that the final
      history calls newest at that point. */
  lemma HistoryOfPrefix(s: State, steps: seq<Step>, i: nat, k: nat, first: nat, last: nat)
    requires Inv(s) && Exec(s, steps).Some? && i <= |steps|
    requires NewestAt(Exec(s, steps).value.shared, k, first) && NewestAt(Exec(s, steps).value.shared, k, last)
    ensures Exec(s, steps[..i]).Some?
    ensures var sh := Exec(s, steps[..i]).value.shared;
            first <= sh.clock <= last ==>
              && sh.published != []
              && |sh.published| - 1 == k && Current(sh) == Exec(s, steps).value.shared.published[k]
  {
    hide ReaderInv, ReadInv, NewestAt, StampsInv, Extends;
    PrefixRuns(s, steps, i);
    var p, t := Exec(s, steps[..i]).value, Exec(s, steps).value;
    RunExtends(s, steps[..i]);
    RunExtends(p, steps[i..]);
    if first <= p.shared.clock <= last {
      NewestInPast(p.shared, t.shared, k, first, last);
    }
  }

  lemma NewestInPast(past: Shared, now: Shared, k: nat, first: nat, last: nat)
    requires Extends(past, now) && StampsInv(past) && StampsInv(now)
    requires |past.published| == |past.stamps| > 0
    requires NewestAt(now, k, first) && NewestAt(now, k, last) && first <= past.clock <= last
    ensures |past.published| - 1 == k && Current(past) == now.published[k]
  {
    var m := |past.published| - 1;
    assert now.stamps[m] == past.stamps[m] < past.clock;
    assert m + 1 < |now.stamps| ==> past.clock <= now.stamps[m + 1];
  }

  /** The states a run passes through. */
  ghost function StateAt(readers: nat, steps: seq<Step>, i: nat): Option<State>
    requires i <= |steps|
  {
    Exec(Init(readers), steps[..i])
  }

  lemma InitInv(readers: nat)
    ensures Inv(Init(readers))
  {}

  /** No torn reads, and more: unless 2^31 writes complete inside one attempt, the pair a read
      returns was stored whole by one publication, and that publication is the current time in
      every state from the read's first counter load to its last. */
  lemma ReadsAreAtomic(readers: nat, steps: seq<Step>, read: Read)
    requires Exec(Init(readers), steps).Some? && read in Exec(Init(readers), steps).value.shared.log
    requires read.lastPub - read.firstPub < 0x8000_0000
    ensures read.value in Exec(Init(readers), steps).value.shared.published
    ensures forall i | 0 <= i <= |steps| ::
              && StateAt(readers, steps, i).Some?
              && var sh := StateAt(readers, steps, i).value.shared;
                 read.first <= sh.clock <= read.last ==> sh.published != [] && Current(sh) == read.value
  {
    var t := Exec(Init(readers), steps).value.shared;
    InitInv(readers);
    RunKeepsInv(Init(readers), steps);
    assert ReadInv(t, read);
    forall i | 0 <= i <= |steps|
      ensures StateAt(readers, steps, i).Some?
      ensures var sh := StateAt(readers, steps, i).value.shared;
              read.first <= sh.clock <= read.last ==> sh.published != [] && Current(sh) == read.value
    {
      HistoryOfPrefix(Init(readers), steps, i, read.firstPub, read.first, read.last);
    }
  }

  /** If one read ends before another begins, in whatever processes, the later one does not go
      back to an older publication. */
  lemma LaterReadsAreNoOlder(s: State, a: Read, b: Read)
    requires Reachable(s) && a in s.shared.log && b in s.shared.log
    requires a.last < b.first
    ensures a.lastPub <= b.firstPub
    ensures NoWrap(a) && NoWrap(b) ==>
              && a.firstPub <= b.firstPub < |s.shared.published|
              && s.shared.published[a.firstPub] == a.value
              && s.shared.published[b.firstPub] == b.value
  {
    hide MemoryInv, ReaderInv;
    ReachableInv(s);
    assert ReadInv(s.shared, a) && ReadInv(s.shared, b);
  }

  /** A read that begins after a state of the run returns the publication that was newest in
      that state or a later one: a write whose last store is done is never missed. */
  lemma ReadsSeeFinishedWrites(readers: nat, steps: seq<Step>, i: nat, read: Read)
    requires Exec(Init(readers), steps).Some? && i <= |steps|
    requires read in Exec(Init(readers), steps).value.shared.log && NoWrap(read)
    ensures StateAt(readers, steps, i).Some?
    ensures var past, now := StateAt(readers, steps, i).value.shared, Exec(Init(readers), steps).value.shared;
            past.clock <= read.first ==>
              && past.published <= now.published
              && |past.published| - 1 <= read.firstPub < |now.published|
              && read.value == now.published[read.firstPub]
  {
    hide MemoryInv, ReaderInv;
    InitInv(readers);
    PrefixRuns(Init(readers), steps, i);
    RunExtends(Init(readers), steps[..i]);
    var p, t := StateAt(readers, steps, i).value, Exec(Init(readers), steps).value;
    RunExtends(p, steps[i..]);
    assert ReadInv(t.shared, read);
    if p.shared.clock <= read.first {
      NewestIsNotMissed(p.shared, t.shared, read);
    }
  }

  lemma NewestIsNotMissed(past: Shared, now: Shared, read: Read)
    requires StampsInv(past) && Extends(past, now) && ReadInv(now, read)
    requires past.clock <= read.first
    ensures |past.stamps| - 1 <= read.firstPub
  {
    assert forall i | 0 <= i < |past.stamps| :: now.stamps[i] == past.stamps[i] < past.clock;
  }

  /** The counter is odd exactly while a write is between its two counter stores; otherwise
      memory holds the newest publication whole. */
  lemma OddExactlyWhileWriting(s: State)
    requires Reachable(s)
    ensures s.shared.mem.counter % 2 == 1 <==> s.writer.Writing?
    ensures !s.writer.Writing? ==> s.shared.published != [] && s.shared.mem.time == Current(s.shared)
  {
    hide ReaderInv, ReadInv, StampsInv, NewestAt, Reachable;
    ReachableInv(s);
    CounterParity(s.shared.ticks);
  }

  lemma CounterParity(ticks: nat)
    ensures ticks % WRAP % 2 == ticks % 2
  {
    var q := ticks / WRAP;
    assert ticks == 2 * (q * HALF) + ticks % WRAP;
  }

  // ---- When an attempt returns ---------------------------------------------------

  /** The second counter load ends the read exactly when the number of counter stores since the
      first is a multiple of 2^32; below 2^31 completed writes that means none at all. */
  lemma AttemptReturnsExactlyWhenUndisturbed(s: State, r: nat)
    requires Reachable(s) && CanRead(s.shared, r, LoadLast)
    ensures var reader := s.shared.readers[r];
            var returned := DoRead(s.shared, r, LoadLast).log != s.shared.log;
            && reader.firstTick <= s.shared.ticks
            && (returned <==> (s.shared.ticks - reader.firstTick) % 0x1_0000_0000 == 0)
            && (s.shared.ticks / 2 - reader.firstTick / 2 < 0x8000_0000 ==>
                  (returned <==> s.shared.ticks == reader.firstTick))
  {
    hide ReadInv, StampsInv, NewestAt;
    ReachableInv(s);
    var reader := s.shared.readers[r];
    assert ReaderInv(s.shared, reader);
    CompareCounters(reader.firstTick, s.shared.ticks);
  }

  lemma CompareCounters(early: nat, late: nat)
    requires early <= late && early % 2 == 0
    ensures early % WRAP == late % WRAP && late % WRAP % 2 == 0 <==> (late - early) % WRAP == 0
    ensures late / 2 - early / 2 < HALF ==> ((late - early) % WRAP == 0 <==> early == late)
  {
    if early % WRAP == late % WRAP {
      EqualCountersEqualTicks(early, late);
    }
  }

  ghost predicate OnlyReads(steps: seq<Step>) {
    forall i | 0 <= i < |steps| :: steps[i].ReadStep?
  }

  /** Reader `r` has returned `value` since the log had `length` entries. */
  ghost predicate Returned(sh: Shared, r: nat, value: Time, length: nat) {
    exists i | length <= i < |sh.log| :: sh.log[i].reader == r && sh.log[i].value == value
  }

  /** Reader `r` has returned once its last counter load was done, and is undisturbed before. */
  ghost predicate FirstPass(s: Shared, t: Shared, r: nat, done: bool) {
    && t.mem == s.mem && t.ticks == s.ticks && t.published == s.published
    && |s.log| <= |t.log| && |t.readers| == |s.readers| && r < |t.readers|
    && if done then s.published != [] && Returned(t, r, Current(s), |s.log|)
       else t.readers[r].Starting? || (t.readers[r].Loading? && t.readers[r].firstTick == t.ticks)
  }

  lemma ReadKeepsFirstPass(s: Shared, t: Shared, phase: Phase, r: nat, q: nat, act: Act, done: bool)
    requires SharedInv(t, phase) && t.mem.counter % 2 == 0
    requires FirstPass(s, t, r, done) && CanRead(t, q, act)
    ensures FirstPass(s, DoRead(t, q, act), r, done || (q == r && act.LoadLast?))
  {
    hide StampsInv, ReadInv;
    var t' := DoRead(t, q, act);
    if done {
      var i :| |s.log| <= i < |t.log| && t.log[i].reader == r && t.log[i].value == Current(s);
      assert t'.log[i] == t.log[i];
    } else if q == r {
      assert ReaderInv(t, t.readers[r]);
      if act.LoadLast? {
        assert t'.log[|t.log|].reader == r;
      }
    }
  }

  /** An attempt without a concurrent writer step returns on its first pass, with the current time. */
  lemma {:induction false} QuietAttemptReturns(s: State, steps: seq<Step>, r: nat)
    requires Inv(s) && s.shared.mem.counter % 2 == 0
    requires r < |s.shared.readers| && s.shared.readers[r].Starting?
    requires Exec(s, steps).Some? && OnlyReads(steps)
    ensures FirstPass(s.shared, Exec(s, steps).value.shared, r, ReadStep(r, LoadLast) in steps)
    ensures Inv(Exec(s, steps).value) && Exec(s, steps).value.writer == s.writer
  {
    hide Inv, FirstPass, DoRead, CanRead;
    if steps == [] {
      QuietStart(s.shared, r);
    } else {
      var last := |steps| - 1;
      QuietAttemptReturns(s, steps[..last], r);
      var t := Exec(s, steps[..last]).value;
      StepKeepsInv(t, steps[last]);
      assert steps == steps[..last] + [steps[last]];
      QuietStep(s, t, r, steps[last].r, steps[last].act, ReadStep(r, LoadLast) in steps[..last]);
    }
  }

  lemma QuietStart(sh: Shared, r: nat)
    requires r < |sh.readers| && sh.readers[r].Starting?
    ensures FirstPass(sh, sh, r, false)
  {}

  lemma QuietStep(s: State, t: State, r: nat, q: nat, act: Act, done: bool)
    requires Inv(t) && s.shared.mem.counter % 2 == 0
    requires FirstPass(s.shared, t.shared, r, done) && CanRead(t.shared, q, act)
    ensures FirstPass(s.shared, DoRead(t.shared, q, act), r, done || (q == r && act.LoadLast?))
  {
    hide SharedInv, DoRead;
    ReadKeepsFirstPass(s.shared, t.shared, PhaseOf(t.writer), r, q, act, done);
  }

  // ---- The bound on the counter is exact --------------------------------------------

  /** One undisturbed call of `write_time`. */
  ghost function SoloWrite(counter: nat, ts: Time): seq<Step> {
    [Call(ts), LoadCounter, Issue(Enter((counter + 1) % WRAP, ts)),
     Issue(PutSec(ts)), Issue(PutNsec(ts)), Issue(Leave((counter + 2) % WRAP, ts))]
  }

  lemma ExecStep(s: State, step: Step)
    ensures Exec(s, [step]) == if Enabled(s, step) then Some(Do(s, step)) else None
  {
    assert [step][..0] == [];
  }

  /** Run alone, `write_time` advances the counter by two and leaves the new time in memory. */
  lemma SoloWriteEffect(s: State, ts: Time)
    requires s.writer.Idle?
    ensures Exec(s, SoloWrite(s.shared.mem.counter, ts)) ==
            Some(State(s.shared.(mem := Memory((s.shared.mem.counter + 2) % WRAP, ts),
                                 clock := s.shared.clock + 4, ticks := s.shared.ticks + 2,
                                 published := s.shared.published + [ts],
                                 stamps := s.shared.stamps + [s.shared.clock + 3]), Idle))
  {
    hide Exec;
    var q := s.shared.mem.counter;
    var steps := SoloWrite(q, ts);
    NoSteps(s, steps);
    var called := NextStep(s, steps, 0, s);
    var counted := NextStep(s, steps, 1, called);
    var entered := NextStep(s, steps, 2, counted);
    assert entered.writer == Writing(ts, q, false, false) && steps[3] == Issue(PutSec(ts));
    var half := NextStep(s, steps, 3, entered);
    assert half.writer == Writing(ts, q, true, false);
    var stored := NextStep(s, steps, 4, half);
    assert stored.writer == Writing(ts, q, true, true);
    var left := NextStep(s, steps, 5, stored);
    assert left.shared.mem == Memory((q + 2) % WRAP, ts);
    assert steps[..6] == steps;
  }

  lemma NoSteps(s: State, steps: seq<Step>)
    ensures Exec(s, steps[..0]) == Some(s)
  {}

  lemma NextStep(s: State, steps: seq<Step>, i: nat, t: State) returns (t': State)
    requires i < |steps| && Exec(s, steps[..i]) == Some(t) && Enabled(t, steps[i])
    ensures t' == Do(t, steps[i]) && Exec(s, steps[..i + 1]) == Some(t')
  {
    t' := Do(t, steps[i]);
    assert steps[..i + 1][..i] == steps[..i];
  }

  ghost predicate Wrote(s: State, t: State, ts: Time, n: nat) {
    && t.writer.Idle?
    && t.shared.readers == s.shared.readers && t.shared.log == s.shared.log
    && t.shared.mem.counter == (s.shared.mem.counter + 2 * n) % WRAP
    && t.shared.ticks == s.shared.ticks + 2 * n
    && (n > 0 ==> t.shared.mem.time == ts)
    && t.shared.published == s.shared.published + seq(n, _ => ts)
  }

  lemma TwoFurther(counter: nat)
    ensures (counter % WRAP + 2) % WRAP == (counter + 2) % WRAP
  {}

  lemma OneMoreWrite(s: State, t: State, ts: Time, n: nat)
    requires Wrote(s, t, ts, n)
    ensures Exec(t, SoloWrite(t.shared.mem.counter, ts)).Some?
    ensures Wrote(s, Exec(t, SoloWrite(t.shared.mem.counter, ts)).value, ts, n + 1)
  {
    hide Exec, SoloWrite;
    SoloWriteEffect(t, ts);
    TwoFurther(s.shared.mem.counter + 2 * n);
    assert seq(n + 1, _ => ts) == seq(n, _ => ts) + [ts];
  }

  /** `n` undisturbed calls of `write_time(ts)`. */
  lemma {:induction false} ManyWrites(s: State, ts: Time, n: nat) returns (steps: seq<Step>)
    requires s.writer.Idle? && s.shared.mem.counter < WRAP
    ensures Exec(s, steps).Some? && Wrote(s, Exec(s, steps).value, ts, n)
  {
    hide SoloWrite;
    if n == 0 {
      steps := [];
    } else {
      var before := ManyWrites(s, ts, n - 1);
      var t := Exec(s, before).value;
      var write := SoloWrite(t.shared.mem.counter, ts);
      OneMoreWrite(s, t, ts, n - 1);
      steps := before + write;
      ExecConcat(s, before, write);
    }
  }

  /** With exactly 2^31 writes inside one attempt the counter comes round, and a read can return
      a pair that was never published. */
  lemma TornReadAtTheBound()
    ensures exists s: State, read: Read :: Reachable(s) && TornRead(s, read)
  {
    hide Exec;
    var one := Time(1, 1);
    var s0 := Init(1);
    var opening := [ReadStep(0, Begin), ReadStep(0, LoadFirst), ReadStep(0, LoadSec)];
    var s1 := OpeningEffect();
    var writes := ManyWrites(s1, one, HALF);
    var s2 := Exec(s1, writes).value;
    ExecConcat(s0, opening, writes);
    var s3 := Do(s2, ReadStep(0, LoadNsec));
    ExecOne(s0, opening + writes, ReadStep(0, LoadNsec));
    var s4 := Do(s3, ReadStep(0, LoadLast));
    ExecOne(s0, opening + writes + [ReadStep(0, LoadNsec)], ReadStep(0, LoadLast));
    var read := s4.shared.log[0];
    assert TornRead(s4, read);
  }

  lemma OpeningEffect() returns (s: State)
    ensures Exec(Init(1), [ReadStep(0, Begin), ReadStep(0, LoadFirst), ReadStep(0, LoadSec)]) == Some(s)
    ensures s == State(InitShared(1).(readers := [Loading(0, Some(0), None, 1, 0)], clock := 3), Idle)
  {
    var steps := [ReadStep(0, Begin), ReadStep(0, LoadFirst), ReadStep(0, LoadSec)];
    assert steps[..1] == [steps[0]] && steps[..2] == steps[..1] + [steps[1]] && steps == steps[..2] + [steps[2]];
    ExecStep(Init(1), steps[0]);
    ExecOne(Init(1), steps[..1], steps[1]);
    ExecOne(Init(1), steps[..2], steps[2]);
    s := Exec(Init(1), steps).value;
    assert s.shared.readers == [Loading(0, Some(0), None, 1, 0)];
  }

  ghost predicate TornRead(s: State, read: Read) {
    && read in s.shared.log
    && read.lastPub - read.firstPub == 0x8000_0000
    && read.value !in s.shared.published
  }

  // ---- Publications that go back ------------------------------------------------------

  const ONE_READ: seq<Step> := [ReadStep(0, Begin), ReadStep(0, LoadFirst), ReadStep(0, LoadSec),
                                ReadStep(0, LoadNsec), ReadStep(0, LoadLast)]

  /** In the middle of a read that runs alone: the seconds are loaded. */
  ghost function HalfRead(s: State): State {
    var sh := s.shared;
    s.(shared := sh.(clock := sh.clock + 2,
                     readers := [Loading(sh.mem.counter, Some(sh.mem.time.sec), None, sh.clock, sh.ticks)]))
  }

  lemma HalfReadEffect(s: State)
    requires s.shared.readers == [Away] && s.shared.mem.counter % 2 == 0
    ensures Exec(s, ONE_READ[..3]) == Some(HalfRead(s))
  {
    hide Exec, Hit, CanIssue, Issued;
    var sh := s.shared;
    NoSteps(s, ONE_READ);
    var begun := NextStep(s, ONE_READ, 0, s);
    assert begun.shared.readers == [Starting];
    var first := NextStep(s, ONE_READ, 1, begun);
    assert first.shared.readers == [Loading(sh.mem.counter, None, None, sh.clock, sh.ticks)];
    var half := NextStep(s, ONE_READ, 2, first);
    assert half.shared.readers == HalfRead(s).shared.readers;
  }

  /** Run alone, `read_time` returns the time in memory. */
  lemma SoloReadEffect(s: State)
    requires s.shared.readers == [Away] && s.shared.mem.counter % 2 == 0
    ensures var sh := s.shared;
            var read := Read(0, sh.mem.time, sh.clock, sh.clock + 3, sh.ticks / 2, sh.ticks / 2);
            Exec(s, ONE_READ) == Some(s.(shared := sh.(clock := sh.clock + 4, log := sh.log + [read])))
  {
    hide Exec, Hit, CanIssue, Issued;
    var sh := s.shared;
    HalfReadEffect(s);
    var loaded := NextStep(s, ONE_READ, 3, HalfRead(s));
    assert loaded.shared.readers ==
           [Loading(sh.mem.counter, Some(sh.mem.time.sec), Some(sh.mem.time.nsec), sh.clock, sh.ticks)];
    var last := NextStep(s, ONE_READ, 4, loaded);
    assert last.shared.readers == [Away];
    assert ONE_READ[..5] == ONE_READ;
  }

  /** The log is one read of each of the times in order, each over before the next began. */
  ghost predicate ReadInTurn(sh: Shared, times: seq<Time>) {
    && |sh.log| == |times|
    && (forall i | 0 <= i < |times| :: sh.log[i].value == times[i] && NoWrap(sh.log[i]) && sh.log[i].last < sh.clock)
    && (forall i, j | 0 <= i < j < |times| :: sh.log[i].last < sh.log[j].first)
  }

  /** Nobody is in the middle of anything. */
  ghost predicate AtRest(s: State) {
    s.writer.Idle? && s.shared.readers == [Away] && s.shared.mem.counter % 2 == 0
  }

  lemma ReadAlone(s: State, times: seq<Time>) returns (t: State)
    requires AtRest(s) && ReadInTurn(s.shared, times)
    ensures Exec(s, ONE_READ) == Some(t) && t.shared.published == s.shared.published
    ensures AtRest(t) && ReadInTurn(t.shared, times + [s.shared.mem.time])
  {
    hide Exec;
    SoloReadEffect(s);
    t := Exec(s, ONE_READ).value;
  }

  lemma WriteThenRead(s: State, ts: Time, times: seq<Time>) returns (t: State)
    requires AtRest(s) && ReadInTurn(s.shared, times)
    ensures Exec(s, SoloWrite(s.shared.mem.counter, ts) + ONE_READ) == Some(t)
    ensures AtRest(t) && ReadInTurn(t.shared, times + [ts]) && t.shared.published == s.shared.published + [ts]
  {
    hide Exec, SoloWrite, NoWrap;
    var write := SoloWrite(s.shared.mem.counter, ts);
    SoloWriteEffect(s, ts);
    var written := Exec(s, write).value;
    t := ReadAlone(written, times);
    ExecConcat(s, write, ONE_READ);
  }

  /** Every sequence of times can be published, and each of them read while it is current. */
  lemma {:induction false} ReadAllInTurn(times: seq<Time>) returns (steps: seq<Step>, s: State)
    requires times != [] && times[0] == ZERO
    ensures Exec(Init(1), steps) == Some(s)
    ensures AtRest(s) && ReadInTurn(s.shared, times) && s.shared.published == times
  {
    hide Exec, SoloWrite, ReadInTurn;
    var last := |times| - 1;
    if last == 0 {
      var init := Init(1);
      assert init.shared.readers == [Away];
      assert ReadInTurn(init.shared, []) by { NothingRead(init.shared); }
      s := ReadAlone(init, []);
      steps := ONE_READ;
      assert [] + [ZERO] == times;
    } else {
      var before, t := ReadAllInTurn(times[..last]);
      s := WriteThenRead(t, times[last], times[..last]);
      var more := SoloWrite(t.shared.mem.counter, times[last]) + ONE_READ;
      ExecConcat(Init(1), before, more);
      steps := before + more;
      assert times[..last] + [times[last]] == times;
    }
  }

  lemma NothingRead(sh: Shared)
    requires sh.log == []
    ensures ReadInTurn(sh, [])
  {}

  /** Of two reads, the one that begins after the other has ended shows no earlier time. */
  ghost predicate NeverBackwards(log: seq<Read>) {
    forall a, b | a in log && b in log && a.last < b.first && NoWrap(a) && NoWrap(b) ::
      a.value.Total() <= b.value.Total()
  }

  lemma ReadInTurnBackwards(sh: Shared, times: seq<Time>)
    requires ReadInTurn(sh, times) && NeverBackwards(sh.log)
    ensures Nondecreasing(times)
  {
    forall i, j | 0 <= i < j < |times|
      ensures times[i].Total() <= times[j].Total()
    {
      var a, b := sh.log[i], sh.log[j];
      assert a in sh.log && b in sh.log;
    }
  }

  /** Whatever processes read and however they interleave, none sees time run backwards exactly when
      the published times do not decrease. */
  lemma NeverBackwardsExactlyWhenNondecreasing(times: seq<Time>)
    requires times != [] && times[0] == ZERO
    ensures (forall s | Reachable(s) && s.shared.published == times :: NeverBackwards(s.shared.log))
            <==> Nondecreasing(times)
  {
    hide Reachable, Exec;
    if Nondecreasing(times) {
      forall s | Reachable(s) && s.shared.published == times
        ensures NeverBackwards(s.shared.log)
      {
        forall a, b | a in s.shared.log && b in s.shared.log && a.last < b.first && NoWrap(a) && NoWrap(b)
          ensures a.value.Total() <= b.value.Total()
        {
          LaterReadsAreNoOlder(s, a, b);
        }
      }
    } else {
      var steps, s := ReadAllInTurn(times);
      assert Reachable(s) by { Reached(1, steps, s); }
      if NeverBackwards(s.shared.log) {
        ReadInTurnBackwards(s.shared, times);
      }
    }
  }

  /** The smallest case: a write that sets an earlier time than the write before it. */
  lemma LaterReadCanShowEarlierTime(late: Time, early: Time)
    requires early.Total() < late.Total()
    ensures exists s: State, a: Read, b: Read ::
              && Reachable(s) && a in s.shared.log && b in s.shared.log
              && a.last < b.first && NoWrap(a) && NoWrap(b)
              && a.value == late && b.value == early
  {
    hide Exec, NoWrap;
    var steps, s := ReadAllInTurn([ZERO, late, early]);
    assert Reachable(s) by { Reached(1, steps, s); }
    var a, b := s.shared.log[1], s.shared.log[2];
    assert a in s.shared.log && b in s.shared.log;
  }

  lemma Reached(readers: nat, steps: seq<Step>, s: State)
    requires Exec(Init(readers), steps) == Some(s)
    ensures Reachable(s)
  {}
}
