/**
  From a SET_TIME request to the time other processes read: the controller's
  program order, run on the store-buffered seqlock.
 */
module EndToEnd {
  import opened Basics
  import opened Sbp
  import opened Controller
  import opened ControllerRuns
  import S = Seqlock
  import B = StoreBuffer
  import Linearizability
  import Visibility

  /** What the controller's thread does to virtual time and its clients, in program order. */
  datatype Action = Write(ts: Time) | Reply

  ghost function OfEvents(events: seq<Event>): seq<Action> {
    if events == [] then []
    else
      var before := OfEvents(events[..|events| - 1]);
      match events[|events| - 1]
      case Published(ts) => before + [Write(ts)]
      case Acked(_, _) => before + [Reply]
      case SeedStored(_) => before
  }

  /** The same of a run of the memory machine: an ACK leaves through a locked instruction. */
  ghost function OfSteps(steps: seq<B.Step>): seq<Action> {
    if steps == [] then []
    else
      var before := OfSteps(steps[..|steps| - 1]);
      match steps[|steps| - 1]
      case Call(ts) => before + [Write(ts)]
      case Fence => before + [Reply]
      case _ => before
  }

  ghost function Writes(actions: seq<Action>): seq<Time> {
    if actions == [] then []
    else
      var before := Writes(actions[..|actions| - 1]);
      if actions[|actions| - 1].Write? then before + [actions[|actions| - 1].ts] else before
  }

  lemma WritesSnoc(actions: seq<Action>, a: Action)
    ensures Writes(actions + [a]) == Writes(actions) + (if a.Write? then [a.ts] else [])
  {
    assert (actions + [a])[..|actions|] == actions;
  }

  lemma {:induction false} CallsAreWrites(steps: seq<B.Step>)
    ensures Visibility.Calls(steps) == Writes(OfSteps(steps))
  {
    if steps != [] {
      var before := steps[..|steps| - 1];
      CallsAreWrites(before);
      match steps[|steps| - 1] {
        case Call(ts) => WritesSnoc(OfSteps(before), Write(ts));
        case Fence => WritesSnoc(OfSteps(before), Reply);
        case _ =>
      }
    }
  }

  lemma {:induction false} CallsOfPrefix(steps: seq<B.Step>, more: seq<B.Step>)
    ensures Visibility.Calls(steps) <= Visibility.Calls(steps + more)
  {
    if more == [] {
      assert steps + more == steps;
    } else {
      CallsOfPrefix(steps, more[..|more| - 1]);
      assert (steps + more)[..|steps + more| - 1] == steps + more[..|more| - 1];
    }
  }

  lemma OfRequest(before: seq<Event>, ts: Time, conn: Conn, frame: seq<Byte>)
    ensures OfEvents(before + [Published(ts), Acked(conn, frame)]) == OfEvents(before) + [Write(ts)] + [Reply]
  {
    var all := before + [Published(ts), Acked(conn, frame)];
    assert all[..|all| - 1] == before + [Published(ts)];
    assert (before + [Published(ts)])[..|before|] == before;
  }

  /** Suppose the controller, after any earlier events, serves a SET_TIME request and its ACK goes
      out. On x86-64 memory every read of virtual time that begins after the ACK, in any process
      and whatever the controller does next, returns the requested time or a later publication. */
  lemma AckedTimeIsVisible(c: Control, conn: Conn, m: Message, before: seq<Event>,
                           readers: nat, steps: seq<B.Step>, more: seq<B.Step>, read: S.Read)
    requires m.version == VERSION && m.body.SetTime?
    requires steps != [] && steps[|steps| - 1].Fence?
    requires OfSteps(steps) == OfEvents(before + Handle(c, conn, Delivery(Serialize(m), true)).events)
    requires B.Exec(B.Init(readers), steps + more).Some?
    requires read in B.Exec(B.Init(readers), steps + more).value.shared.log && S.NoWrap(read)
    ensures B.Exec(B.Init(readers), steps).Some?
    ensures B.Exec(B.Init(readers), steps).value.shared.clock <= read.first ==>
              var published := [S.ZERO] + Visibility.Calls(steps + more);
              var k := |Visibility.Calls(steps)|;
              && k <= read.firstPub < |published|
              && published[k] == Time(m.body.sec, m.body.nsec)
              && read.value == published[read.firstPub]
  {
    hide Handle, Serialize, B.Exec;
    var ts := Time(m.body.sec, m.body.nsec);
    RequestTakesEffectThenAck(c, conn, m, true);
    var frame := AckFrame(m.flags);
    assert [Published(ts)] + [Acked(conn, frame)] == [Published(ts), Acked(conn, frame)];
    OfRequest(before, ts, conn, frame);
    CallsAreWrites(steps);
    WritesSnoc(OfEvents(before), Write(ts));
    WritesSnoc(OfEvents(before) + [Write(ts)], Reply);
    CallsOfPrefix(steps, more);
    Visibility.ReadsAfterFenceSeeEveryCall(readers, steps, more, read);
  }

  // ---- Whole runs ----------------------------------------------------------------------------

  lemma {:induction false} WritesOfEvents(events: seq<Event>)
    ensures Writes(OfEvents(events)) == PublishedTimes(events)
  {
    if events != [] {
      var last := |events| - 1;
      WritesOfEvents(events[..last]);
      match events[last] {
        case Published(ts) => WritesSnoc(OfEvents(events[..last]), Write(ts));
        case Acked(_, _) => WritesSnoc(OfEvents(events[..last]), Reply);
        case SeedStored(_) =>
      }
    }
  }

  lemma {:induction false} WritesOfPrefix(a: seq<Action>, b: seq<Action>)
    requires a <= b
    ensures Writes(a) <= Writes(b)
  {
    if a != b {
      WritesOfPrefix(a, b[..|b| - 1]);
    } else {
      assert a == b;
    }
  }

  /** The memory machine has carried out a first part of the controller's program. */
  ghost predicate Carries(steps: seq<B.Step>, d: Desk) {
    OfSteps(steps) <= OfEvents(d.events)
  }

  /** Over whole runs of the controller, from start, and of the memory, every time a process reads is
      the controller's time at that publication: the last value set plus the monotonic time since,
      exactly when nothing overflowed. Publication 0 is the initial zero of the segment. */
  lemma ReadsShowDueTime(now: Reading, turns: seq<Turn>, readers: nat, steps: seq<B.Step>, read: S.Read)
    requires forall i | 0 <= i < |turns| :: Sized(turns[i])
    requires Carries(steps, Loop(Opened(now), turns))
    requires B.Exec(B.Init(readers), steps).Some?
    requires read in B.Exec(B.Init(readers), steps).value.shared.log && S.NoWrap(read)
    ensures var d := Loop(Opened(now), turns);
            && read.firstPub <= |d.history|
            && (read.firstPub == 0 ==> read.value == S.ZERO)
            && (read.firstPub > 0 ==>
                  var c := d.history[read.firstPub - 1];
                  && read.value == c.time
                  && (c.time.Total() == Due(c) <==> c.lastTick.Total() == c.setTick.Total() || InInt64(Due(c))))
  {
    hide Loop, B.Exec, TimeInv, ControlInv, OfSteps, OfEvents, Writes, PublishedTimes, Visibility.Calls;
    var d := Loop(Opened(now), turns);
    OpenedKeepsDesk(now);
    LoopKeepsDesk(Opened(now), turns);
    CallsAreWrites(steps);
    WritesOfEvents(d.events);
    WritesOfPrefix(OfSteps(steps), OfEvents(d.events));
    Visibility.BufferedReadsAreAtomic(readers, steps, read, read);
    if read.firstPub > 0 {
      DueExactly(d.history[read.firstPub - 1]);
    }
  }

  lemma DueExactly(c: Control)
    requires TimeInv(c)
    ensures c.time.Total() == Due(c) <==> c.lastTick.Total() == c.setTick.Total() || InInt64(Due(c))
  {}

  // ---- When time runs backwards -----------------------------------------------------------

  /** The write of the seqlock alone, on the plain machine. */
  ghost function OfPlain(steps: seq<S.Step>): seq<Action> {
    if steps == [] then []
    else
      var last := |steps| - 1;
      OfPlain(steps[..last]) + (if steps[last].Call? then [Write(steps[last].ts)] else [])
  }

  lemma {:induction false} NoCalls(before: seq<S.Step>, more: seq<S.Step>)
    requires forall i | 0 <= i < |more| :: !more[i].Call?
    ensures OfPlain(before + more) == OfPlain(before)
  {
    if more == [] {
      assert before + more == before;
    } else {
      var last := |more| - 1;
      NoCalls(before, more[..last]);
      assert (before + more)[..|before + more| - 1] == before + more[..last];
    }
  }

  lemma WriteThenReadIsWrite(counter: nat, ts: Time)
    ensures OfPlain(Linearizability.SoloWrite(counter, ts) + Linearizability.ONE_READ) == [Write(ts)]
  {
    var steps := Linearizability.SoloWrite(counter, ts) + Linearizability.ONE_READ;
    var call := [S.Call(ts)];
    assert steps == call + steps[1..];
    assert call[..0] == [];
    NoCalls(call, steps[1..]);
  }

  /** A plain run goes through the store buffer by flushing each store at once. */
  lemma {:induction false} EagerRun(init: B.State, before: seq<B.Step>, s: S.State, plain: seq<S.Step>)
    returns (steps: seq<B.Step>)
    requires B.Exec(init, before) == Some(B.State.State(s.shared, [], s.writer))
    requires S.Exec(s, plain).Some?
    ensures var t := S.Exec(s, plain).value;
            B.Exec(init, steps) == Some(B.State.State(t.shared, [], t.writer))
    ensures OfSteps(steps) == OfSteps(before) + OfPlain(plain)
  {
    hide B.Exec, S.Do, S.Enabled, B.Eager;
    if plain == [] {
      steps := before;
    } else {
      var last := |plain| - 1;
      var most := EagerRun(init, before, s, plain[..last]);
      B.EagerStep(init, most, S.Exec(s, plain[..last]).value, plain[last]);
      EagerActions(most, plain[last]);
      steps := most + B.Eager(plain[last]);
    }
  }

  lemma EagerActions(before: seq<B.Step>, step: S.Step)
    ensures OfSteps(before + B.Eager(step)) == OfSteps(before) + (if step.Call? then [Write(step.ts)] else [])
  {
    var steps := before + B.Eager(step);
    if step.Issue? {
      assert steps[..|steps| - 1] == before + [B.Step.Issue(step.st)];
      assert (before + [B.Step.Issue(step.st)])[..|before|] == before;
    } else {
      assert steps[..|before|] == before;
    }
  }

  /** Every program of writes and replies has a run in which each written time is read while it is
      current. */
  lemma {:induction false} ProgramReadInTurn(actions: seq<Action>) returns (steps: seq<B.Step>, s: S.State)
    ensures B.Exec(B.Init(1), steps) == Some(B.State.State(s.shared, [], s.writer)) && OfSteps(steps) == actions
    ensures Linearizability.AtRest(s) && Linearizability.ReadInTurn(s.shared, Writes(actions))
  {
    hide S.Exec, B.Exec, Linearizability.ReadInTurn, Linearizability.SoloWrite;
    var init := B.Init(1);
    if actions == [] {
      steps, s := [], S.Init(1);
      assert B.Exec(init, []) == Some(init) by { NothingRun(init); }
      assert s.shared.readers == [S.Away];
      Linearizability.NothingRead(s.shared);
    } else {
      var last := |actions| - 1;
      var before, t := ProgramReadInTurn(actions[..last]);
      if actions[last].Write? {
        var ts := actions[last].ts;
        var plain := Linearizability.SoloWrite(t.shared.mem.counter, ts) + Linearizability.ONE_READ;
        s := Linearizability.WriteThenRead(t, ts, Writes(actions[..last]));
        WriteThenReadIsWrite(t.shared.mem.counter, ts);
        steps := EagerRun(init, before, t, plain);
      } else {
        s := t;
        B.ExecOne(init, before, B.Step.Fence);
        steps := before + [B.Step.Fence];
        assert steps[..|before|] == before;
      }
    }
  }

  lemma NothingRun(init: B.State)
    ensures B.Exec(init, []) == Some(init)
  {}

  /** In no memory run that carries the controller's program does a process see time run backwards. */
  ghost predicate NobodySeesTimeRunBackwards(d: Desk) {
    forall readers: nat, steps: seq<B.Step> | B.Exec(B.Init(readers), steps).Some? && Carries(steps, d) ::
      Linearizability.NeverBackwards(B.Exec(B.Init(readers), steps).value.shared.log)
  }

  lemma ForwardIsSeen(now: Reading, turns: seq<Turn>, readers: nat, steps: seq<B.Step>)
    requires forall i | 0 <= i < |turns| :: Sized(turns[i])
    requires Nondecreasing(TimesOf(Loop(Opened(now), turns).history))
    requires B.Exec(B.Init(readers), steps).Some? && Carries(steps, Loop(Opened(now), turns))
    ensures Linearizability.NeverBackwards(B.Exec(B.Init(readers), steps).value.shared.log)
  {
    hide Loop, B.Exec, Carries, S.NoWrap, Nondecreasing, TimesOf, Due;
    var log := B.Exec(B.Init(readers), steps).value.shared.log;
    forall a, b | a in log && b in log && a.last < b.first && S.NoWrap(a) && S.NoWrap(b)
      ensures a.value.Total() <= b.value.Total()
    {
      PairIsForward(now, turns, readers, steps, a, b);
    }
  }

  lemma ReadIsShown(now: Reading, turns: seq<Turn>, readers: nat, steps: seq<B.Step>, read: S.Read)
    requires forall i | 0 <= i < |turns| :: Sized(turns[i])
    requires B.Exec(B.Init(readers), steps).Some? && Carries(steps, Loop(Opened(now), turns))
    requires read in B.Exec(B.Init(readers), steps).value.shared.log && S.NoWrap(read)
    ensures var history := Loop(Opened(now), turns).history;
            read.firstPub <= |history| && read.value == ShownAt(history, read.firstPub)
  {
    hide Loop, B.Exec, Carries, Due, S.NoWrap;
    ReadsShowDueTime(now, turns, readers, steps, read);
  }

  lemma ReadsAreOrdered(readers: nat, steps: seq<B.Step>, a: S.Read, b: S.Read)
    requires B.Exec(B.Init(readers), steps).Some?
    requires a in B.Exec(B.Init(readers), steps).value.shared.log && S.NoWrap(a)
    requires b in B.Exec(B.Init(readers), steps).value.shared.log && a.last < b.first
    ensures a.firstPub <= b.firstPub
  {
    hide B.Exec;
    Visibility.BufferedReadsAreAtomic(readers, steps, a, b);
  }

  lemma PairIsForward(now: Reading, turns: seq<Turn>, readers: nat, steps: seq<B.Step>, a: S.Read, b: S.Read)
    requires forall i | 0 <= i < |turns| :: Sized(turns[i])
    requires Nondecreasing(TimesOf(Loop(Opened(now), turns).history))
    requires B.Exec(B.Init(readers), steps).Some? && Carries(steps, Loop(Opened(now), turns))
    requires a in B.Exec(B.Init(readers), steps).value.shared.log && S.NoWrap(a)
    requires b in B.Exec(B.Init(readers), steps).value.shared.log && S.NoWrap(b)
    requires a.last < b.first
    ensures a.value.Total() <= b.value.Total()
  {
    hide Loop, B.Exec, Carries, Nondecreasing, TimesOf, ShownAt, PublishedTimes, S.NoWrap;
    RunHistory(now, turns);
    ReadIsShown(now, turns, readers, steps, a);
    ReadIsShown(now, turns, readers, steps, b);
    ReadsAreOrdered(readers, steps, a, b);
    OrderedFrom(Loop(Opened(now), turns).history, a.firstPub, b.firstPub);
  }

  /** Publications from the initial zero on, as a reader counts them. */
  ghost function ShownAt(history: seq<Control>, k: nat): Time
    requires k <= |history|
  {
    if k == 0 then S.ZERO else history[k - 1].time
  }

  lemma OrderedFrom(history: seq<Control>, i: nat, j: nat)
    requires history != [] && history[0].time == EPOCH && Nondecreasing(TimesOf(history)) && i <= j <= |history|
    ensures ShownAt(history, i).Total() <= ShownAt(history, j).Total()
  {
    var times := TimesOf(history);
    if j > 0 {
      assert times[0].Total() <= times[j - 1].Total();
    }
    if i > 0 {
      assert times[i - 1].Total() <= times[j - 1].Total();
    }
  }

  lemma BackwardIsSeen(d: Desk)
    requires PublishedTimes(d.events) == TimesOf(d.history) && NobodySeesTimeRunBackwards(d)
    ensures Nondecreasing(TimesOf(d.history))
  {
    hide B.Exec, OfEvents, Writes, PublishedTimes, Linearizability.NeverBackwards, Linearizability.ReadInTurn;
    var steps, s := ProgramReadInTurn(OfEvents(d.events));
    assert Carries(steps, d);
    WritesOfEvents(d.events);
    Linearizability.ReadInTurnBackwards(s.shared, TimesOf(d.history));
  }

  /** For every run of the controller from start: in all memory runs that carry it out, whatever
      processes read, no later read shows an earlier time, exactly when every SET_TIME served sets no
      earlier time than is current then and no tick runs over the top of int64_t. */
  lemma TimeNeverRunsBackwardsExactly(now: Reading, turns: seq<Turn>)
    requires forall i | 0 <= i < |turns| :: Sized(turns[i])
    ensures NobodySeesTimeRunBackwards(Loop(Opened(now), turns)) <==> LoopForward(Opened(now), turns)
  {
    hide Loop, B.Exec, LoopForward, Carries, Linearizability.NeverBackwards, Nondecreasing;
    var d := Loop(Opened(now), turns);
    TimesForwardExactly(now, turns);
    if NobodySeesTimeRunBackwards(d) {
      RunHistory(now, turns);
      BackwardIsSeen(d);
    }
    if LoopForward(Opened(now), turns) {
      forall readers: nat, steps: seq<B.Step> | B.Exec(B.Init(readers), steps).Some? && Carries(steps, d)
        ensures Linearizability.NeverBackwards(B.Exec(B.Init(readers), steps).value.shared.log)
      {
        ForwardIsSeen(now, turns, readers, steps);
      }
    }
  }

  lemma RunHistory(now: Reading, turns: seq<Turn>)
    requires forall i | 0 <= i < |turns| :: Sized(turns[i])
    ensures var d := Loop(Opened(now), turns);
            PublishedTimes(d.events) == TimesOf(d.history) && d.history != [] && d.history[0].time == EPOCH
  {
    hide Loop, ControlInv, TimeInv;
    OpenedKeepsDesk(now);
    LoopKeepsDesk(Opened(now), turns);
  }
}
