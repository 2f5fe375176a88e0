/**
  When a write of virtual time is visible to readers on x86-64: what a drained
  store buffer guarantees, and what an undrained one does not.
 */
module Visibility {
  import opened Basics
  import opened Seqlock
  import B = StoreBuffer
  import Linearizability

  /** The arguments of the `write_time` calls begun so far. */
  ghost function Calls(steps: seq<B.Step>): seq<Time> {
    if steps == [] then []
    else
      var last := |steps| - 1;
      var before := Calls(steps[..last]);
      if steps[last].Call? then before + [steps[last].ts] else before
  }

  /** The calls that returned but whose last store is still in the buffer. */
  ghost function Pending(buffer: seq<Store>): seq<Time>
    decreases |buffer|
  {
    if buffer == [] then []
    else (if buffer[0].Leave? then [buffer[0].call] else []) + Pending(buffer[1..])
  }

  ghost function InFlight(w: Writer): seq<Time> {
    if w.Idle? then [] else [w.ts]
  }

  lemma {:induction false} PendingOneMore(buffer: seq<Store>, st: Store)
    ensures Pending(buffer + [st]) == Pending(buffer) + (if st.Leave? then [st.call] else [])
    decreases |buffer|
  {
    var more := buffer + [st];
    if buffer == [] {
      assert more[0] == st && more[1..] == [];
    } else {
      PendingOneMore(buffer[1..], st);
      assert more[0] == buffer[0] && more[1..] == buffer[1..] + [st];
    }
  }

  ghost function History(t: B.State): seq<Time> {
    t.shared.published + Pending(t.buffer) + InFlight(t.writer)
  }

  lemma StepConservesCalls(t: B.State, step: B.Step)
    requires B.Enabled(t, step)
    ensures History(B.Do(t, step)) == History(t) + (if step.Call? then [step.ts] else [])
  {
    hide Pending, DoRead, CanRead;
    match step
    case Issue(st) => PendingOneMore(t.buffer, st);
    case Flush => PendingFirst(t.buffer);
    case ReadStep(r, act) => ReadPublishesNothing(t.shared, r, act);
    case _ =>
  }

  lemma PendingFirst(buffer: seq<Store>)
    requires buffer != []
    ensures Pending(buffer) == (if buffer[0].Leave? then [buffer[0].call] else []) + Pending(buffer[1..])
  {}

  lemma ReadPublishesNothing(sh: Shared, r: nat, act: Act)
    requires CanRead(sh, r, act)
    ensures DoRead(sh, r, act).published == sh.published
  {}

  /** Nothing is lost or reordered: publications, then returned but pending calls, then the call in
      flight are the calls in program order, after the initial zero. */
  lemma {:induction false} CallsAreConserved(readers: nat, steps: seq<B.Step>)
    requires B.Exec(B.Init(readers), steps).Some?
    ensures History(B.Exec(B.Init(readers), steps).value) == [ZERO] + Calls(steps)
  {
    if steps != [] {
      var last := |steps| - 1;
      CallsAreConserved(readers, steps[..last]);
      StepConservesCalls(B.Exec(B.Init(readers), steps[..last]).value, steps[last]);
    }
  }

  /** After `write_time` has returned, every call is published exactly when the buffer is empty. */
  lemma CaughtUpExactlyWhenDrained(readers: nat, steps: seq<B.Step>)
    requires B.Exec(B.Init(readers), steps).Some?
    requires B.Exec(B.Init(readers), steps).value.writer.Idle?
    ensures var t := B.Exec(B.Init(readers), steps).value;
            t.shared.published == [ZERO] + Calls(steps) <==> t.buffer == []
  {
    CallsAreConserved(readers, steps);
    B.InitShows(readers);
    var plain := B.RunIsPlain(Seqlock.Init(readers), B.Init(readers), steps);
    var s := Seqlock.Exec(Seqlock.Init(readers), plain).value;
    var t := B.Exec(B.Init(readers), steps).value;
    if t.buffer != [] {
      var last := |t.buffer| - 1;
      B.AcceptsInit(B.ProgressOf(s), t.buffer);
      PendingOneMore(t.buffer[..last], t.buffer[last]);
      assert t.buffer == t.buffer[..last] + [t.buffer[last]];
      assert Pending(t.buffer) != [];
    }
  }

  lemma {:induction false} RunSplits(s: B.State, a: seq<B.Step>, b: seq<B.Step>)
    requires B.Exec(s, a + b).Some?
    ensures B.Exec(s, a).Some?
    ensures B.Exec(s, a + b) == B.Exec(B.Exec(s, a).value, b)
  {
    if b == [] {
      assert a + b == a;
    } else {
      assert (a + b)[..|a + b| - 1] == a + b[..|b| - 1];
      RunSplits(s, a, b[..|b| - 1]);
    }
  }

  /** The theorems of module Linearizability carry over to reads made with a store buffer. */
  lemma BufferedReadsAreAtomic(readers: nat, steps: seq<B.Step>, a: Read, b: Read)
    requires B.Exec(B.Init(readers), steps).Some?
    requires a in B.Exec(B.Init(readers), steps).value.shared.log
    requires b in B.Exec(B.Init(readers), steps).value.shared.log
    ensures NoWrap(a) ==>
              && a.firstPub == a.lastPub <= |Calls(steps)|
              && a.value == ([ZERO] + Calls(steps))[a.firstPub]
    ensures a.last < b.first ==> a.lastPub <= b.firstPub
  {
    var plain := B.BufferedRunsArePlain(readers, steps);
    var s := Seqlock.Exec(Seqlock.Init(readers), plain).value;
    assert Reachable(s);
    ReachableInv(s);
    CallsAreConserved(readers, steps);
    ReadOfPublished(s.shared, a, [ZERO] + Calls(steps));
    if a.last < b.first {
      Linearizability.LaterReadsAreNoOlder(s, a, b);
    }
  }

  lemma ReadOfPublished(sh: Shared, a: Read, all: seq<Time>)
    requires a in sh.log && (forall i | 0 <= i < |sh.log| :: ReadInv(sh, sh.log[i])) && sh.published <= all
    ensures NoWrap(a) ==> a.firstPub == a.lastPub < |all| && a.value == all[a.firstPub]
  {
    assert ReadInv(sh, a);
  }

  /** A read that begins after a locked instruction of the controller returns the time of the
      last `write_time` call before that instruction, or of a later call. */
  lemma ReadsAfterFenceSeeEveryCall(readers: nat, steps: seq<B.Step>, more: seq<B.Step>, read: Read)
    requires steps != [] && steps[|steps| - 1].Fence?
    requires B.Exec(B.Init(readers), steps + more).Some?
    requires read in B.Exec(B.Init(readers), steps + more).value.shared.log && NoWrap(read)
    ensures B.Exec(B.Init(readers), steps).Some?
    ensures B.Exec(B.Init(readers), steps).value.shared.clock <= read.first ==>
              && |Calls(steps)| <= read.firstPub <= |Calls(steps + more)|
              && read.value == ([ZERO] + Calls(steps + more))[read.firstPub]
  {
    var init := B.Init(readers);
    RunSplits(init, steps, more);
    var t := B.Exec(init, steps).value;
    CaughtUpExactlyWhenDrained(readers, steps);
    B.InitShows(readers);
    var plain := B.RunIsPlain(Seqlock.Init(readers), init, steps);
    var s := Seqlock.Exec(Seqlock.Init(readers), plain).value;
    var later := B.RunIsPlain(s, t, more);
    Linearizability.RunExtends(s, later);
    BufferedReadsAreAtomic(readers, steps + more, read, read);
    if t.shared.clock <= read.first {
      FenceIsSeen(t.shared, PhaseOf(s.writer), Seqlock.Exec(s, later).value.shared, read);
    }
  }

  lemma FenceIsSeen(past: Shared, phase: Phase, now: Shared, read: Read)
    requires SharedInv(past, phase) && Extends(past, now) && past.clock <= read.first
    requires read in now.log && (forall i | 0 <= i < |now.log| :: ReadInv(now, now.log[i]))
    ensures |past.published| - 1 <= read.firstPub
  {
    assert ReadInv(now, read);
    Linearizability.NewestIsNotMissed(past, now, read);
  }

  // ---- Without the fence -----------------------------------------------------------

  ghost function BufferedWrite(ts: Time): seq<B.Step> {
    [B.Step.Call(ts), B.Step.LoadCounter, B.Step.Issue(Enter(1, ts)),
     B.Step.Issue(PutSec(ts)), B.Step.Issue(PutNsec(ts)), B.Step.Issue(Leave(2, ts))]
  }

  const ONE_READ: seq<B.Step> := [
    B.Step.ReadStep(0, Begin), B.Step.ReadStep(0, LoadFirst), B.Step.ReadStep(0, LoadSec),
    B.Step.ReadStep(0, LoadNsec), B.Step.ReadStep(0, LoadLast)]

  /** Returning from `write_time` is not enough: a read that begins afterwards can still return
      the old time, for every new time, while the stores sit in the buffer. */
  lemma StaleReadBeforeFence(ts: Time)
    ensures var t := B.Exec(B.Init(1), BufferedWrite(ts));
            t.Some? && t.value.writer.Idle? && t.value.shared.log == []
    ensures var t := B.Exec(B.Init(1), BufferedWrite(ts) + ONE_READ);
            t.Some? && |t.value.shared.log| == 1 && t.value.shared.log[0].value == ZERO
  {
    hide B.Exec, Hit, CanIssue, Issued, BufferedWrite, B.Forwarded;
    var init := B.Init(1);
    var w := BufferedWrite(ts);
    StaleWrite(ts);
    var t := B.Exec(init, w).value;
    NoSteps(t, ONE_READ);
    NextStep(t, ONE_READ, 0);
    NextStep(t, ONE_READ, 1);
    assert B.Exec(t, ONE_READ[..2]).value.shared.readers == [Loading(0, None, None, 1, 0)];
    NextStep(t, ONE_READ, 2);
    NextStep(t, ONE_READ, 3);
    assert B.Exec(t, ONE_READ[..4]).value.shared.readers == [Loading(0, Some(0), Some(0), 1, 0)];
    NextStep(t, ONE_READ, 4);
    assert ONE_READ[..5] == ONE_READ;
    RunJoins(init, w, ONE_READ);
  }

  lemma {:induction false} RunJoins(s: B.State, a: seq<B.Step>, b: seq<B.Step>)
    requires B.Exec(s, a).Some?
    ensures B.Exec(s, a + b) == B.Exec(B.Exec(s, a).value, b)
  {
    if b == [] {
      assert a + b == a;
    } else {
      assert (a + b)[..|a + b| - 1] == a + b[..|b| - 1];
      RunJoins(s, a, b[..|b| - 1]);
    }
  }

  lemma StaleWrite(ts: Time)
    ensures B.Exec(B.Init(1), BufferedWrite(ts)) ==
            Some(B.State.State(InitShared(1), [Enter(1, ts), PutSec(ts), PutNsec(ts), Leave(2, ts)], Idle))
  {
    hide B.Exec, Hit, DoRead, CanRead;
    var init := B.Init(1);
    var w := BufferedWrite(ts);
    NoSteps(init, w);
    NextStep(init, w, 0);
    NextStep(init, w, 1);
    NextStep(init, w, 2);
    assert [] + [Enter(1, ts)] == [Enter(1, ts)];
    assert B.Exec(init, w[..3]) == Some(init.(buffer := [Enter(1, ts)], writer := Writing(ts, 0, false, false)));
    NextStep(init, w, 3);
    NextStep(init, w, 4);
    NextStep(init, w, 5);
    assert [Enter(1, ts)] + [PutSec(ts)] + [PutNsec(ts)] + [Leave(2, ts)]
        == [Enter(1, ts), PutSec(ts), PutNsec(ts), Leave(2, ts)];
    assert w[..6] == w;
  }

  lemma NoSteps(s: B.State, steps: seq<B.Step>)
    ensures B.Exec(s, steps[..0]) == Some(s)
  {}

  lemma NextStep(s: B.State, steps: seq<B.Step>, i: nat)
    requires i < |steps| && B.Exec(s, steps[..i]).Some? && B.Enabled(B.Exec(s, steps[..i]).value, steps[i])
    ensures B.Exec(s, steps[..i + 1]) == Some(B.Do(B.Exec(s, steps[..i]).value, steps[i]))
  {
    assert steps[..i + 1][..i] == steps[..i];
  }
}
