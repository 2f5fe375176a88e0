/**
  The seqlock of module Seqlock on x86-64 memory: the writer's stores first
  enter a FIFO buffer that only the writer sees and reach shared memory later,
  one at a time and in program order. Loads by the writer are served from its
  own buffer when it holds a newer value. Readers load from shared memory.

  `Fence` is a locked instruction of the writer's thread, enabled once the
  buffer has drained; the socket write that sends an ACK contains one.
 */
module StoreBuffer {
  import opened Basics
  import opened Seqlock
  import Linearizability

  datatype State = State(shared: Shared, buffer: seq<Store>, writer: Writer)

  datatype Step = Call(ts: Time) | LoadCounter | Issue(st: Store) | Flush | Fence | ReadStep(r: nat, act: Act)

  function Init(readers: nat): State {
    State.State(InitShared(readers), [], Idle)
  }

  /** The counter as the writer itself sees it. */
  function Forwarded(counter: nat, buffer: seq<Store>): nat {
    if buffer == [] then counter
    else
      var last := |buffer| - 1;
      match buffer[last]
      case Enter(q, _) => q
      case Leave(q, _) => q
      case _ => Forwarded(counter, buffer[..last])
  }

  predicate Enabled(s: State, step: Step) {
    match step
    case Call(_) => s.writer.Idle?
    case LoadCounter => s.writer.Called?
    case Issue(st) => CanIssue(s.writer, st)
    case Flush => s.buffer != []
    case Fence => s.writer.Idle? && s.buffer == []
    case ReadStep(r, act) => CanRead(s.shared, r, act)
  }

  function Do(s: State, step: Step): State
    requires Enabled(s, step)
  {
    match step
    case Call(ts) => s.(writer := Called(ts))
    case LoadCounter => s.(writer := Counted(s.writer.ts, Forwarded(s.shared.mem.counter, s.buffer)))
    case Issue(st) => s.(buffer := s.buffer + [st], writer := Issued(s.writer, st))
    case Flush => s.(shared := Hit(s.shared, s.buffer[0]), buffer := s.buffer[1..])
    case Fence => s
    case ReadStep(r, act) => s.(shared := DoRead(s.shared, r, act))
  }

  ghost function Exec(s: State, steps: seq<Step>): Option<State> {
    if steps == [] then Some(s)
    else
      var last := |steps| - 1;
      match Exec(s, steps[..last])
      case None => None
      case Some(t) => if Enabled(t, steps[last]) then Some(Do(t, steps[last])) else None
  }

  // ---- The pending stores run through in order ------------------------------------

  ghost predicate AcceptsAll(p: Progress, stores: seq<Store>)
    decreases |stores|
  {
    stores == [] || (Accepts(p, stores[0]) && AcceptsAll(After(p, stores[0]), stores[1..]))
  }

  ghost function AfterAll(p: Progress, stores: seq<Store>): Progress
    requires AcceptsAll(p, stores)
    decreases |stores|
  {
    if stores == [] then p else AfterAll(After(p, stores[0]), stores[1..])
  }

  lemma {:induction false} AcceptsOneMore(p: Progress, stores: seq<Store>, st: Store)
    requires AcceptsAll(p, stores) && Accepts(AfterAll(p, stores), st)
    ensures AcceptsAll(p, stores + [st])
    ensures AfterAll(p, stores + [st]) == After(AfterAll(p, stores), st)
    decreases |stores|
  {
    if stores == [] {
      assert [st][1..] == [];
      assert stores + [st] == [st];
    } else {
      AcceptsOneMore(After(p, stores[0]), stores[1..], st);
      assert (stores + [st])[1..] == stores[1..] + [st];
    }
  }

  lemma {:induction false} AcceptsInit(p: Progress, stores: seq<Store>)
    requires stores != [] && AcceptsAll(p, stores)
    ensures var last := |stores| - 1;
            && AcceptsAll(p, stores[..last]) && Accepts(AfterAll(p, stores[..last]), stores[last])
            && AfterAll(p, stores) == After(AfterAll(p, stores[..last]), stores[last])
    decreases |stores|
  {
    var last := |stores| - 1;
    if last > 0 {
      AcceptsInit(After(p, stores[0]), stores[1..]);
      assert stores[1..][..last - 1] == stores[..last][1..];
    }
  }

  lemma {:induction false} ForwardedIsProgress(p: Progress, counter: nat, buffer: seq<Store>)
    requires AcceptsAll(p, buffer) && counter == p.ticks % WRAP
    ensures Forwarded(counter, buffer) == AfterAll(p, buffer).ticks % WRAP
  {
    if buffer != [] {
      AcceptsInit(p, buffer);
      ForwardedIsProgress(p, counter, buffer[..|buffer| - 1]);
    }
  }

  // ---- Refinement --------------------------------------------------------------------

  ghost predicate EndsAt(p: Progress, w: Writer) {
    && p.phase == PhaseOf(w)
    && (w.Counted? ==> w.counter == p.ticks % WRAP)
    && (w.Writing? ==> (w.counter + 1) % WRAP == p.ticks % WRAP)
  }

  function ProgressOf(s: Seqlock.State): Progress {
    Progress(s.shared.ticks, PhaseOf(s.writer))
  }

  /** The plain machine `s` shows the same shared memory and readers; its writer is as far as
      the flushed stores, and the buffered ones lead from there to the real writer. */
  ghost predicate Shows(s: Seqlock.State, t: State) {
    && s.shared == t.shared
    && Seqlock.Inv(s)
    && (s.writer.Idle? || s.writer.Writing?)
    && AcceptsAll(ProgressOf(s), t.buffer)
    && EndsAt(AfterAll(ProgressOf(s), t.buffer), t.writer)
  }

  /** The steps of the plain machine for one step of the buffered one. */
  function PlainSteps(t: State, step: Step): seq<Seqlock.Step>
    requires Enabled(t, step)
  {
    match step
    case Flush =>
      var st := t.buffer[0];
      if st.Enter? then [Seqlock.Call(st.call), Seqlock.LoadCounter, Seqlock.Issue(st)] else [Seqlock.Issue(st)]
    case ReadStep(r, act) => [Seqlock.ReadStep(r, act)]
    case _ => []
  }

  lemma FlushIsPlain(s: Seqlock.State, t: State)
    requires Shows(s, t) && t.buffer != []
    ensures Seqlock.Exec(s, PlainSteps(t, Flush)).Some?
    ensures Shows(Seqlock.Exec(s, PlainSteps(t, Flush)).value, Do(t, Flush))
  {
    hide SharedInv;
    var st := t.buffer[0];
    var s1 := s;
    if st.Enter? {
      var call := Seqlock.Call(st.call);
      Linearizability.ExecStep(s, call);
      s1 := Seqlock.Do(s, call);
      Seqlock.StepKeepsInv(s, call);
      Seqlock.ExecOne(s, [call], Seqlock.LoadCounter);
      Seqlock.StepKeepsInv(s1, Seqlock.LoadCounter);
      s1 := Seqlock.Do(s1, Seqlock.LoadCounter);
      SharedInvHasMemory(s1.shared, PhaseOf(s1.writer));
      CanIssueAccepted(s1, st);
      Seqlock.ExecOne(s, [call, Seqlock.LoadCounter], Seqlock.Issue(st));
      assert [call, Seqlock.LoadCounter] + [Seqlock.Issue(st)] == PlainSteps(t, Flush);
    } else {
      SharedInvHasMemory(s1.shared, PhaseOf(s1.writer));
      CanIssueAccepted(s1, st);
      Linearizability.ExecStep(s, Seqlock.Issue(st));
    }
    IssueKeepsInv(s1, st);
    IssueIsProgress(s1, st);
  }

  lemma CanIssueAccepted(s: Seqlock.State, st: Store)
    requires s.shared.mem.counter == s.shared.ticks % WRAP && WriterInv(s.shared, s.writer)
    requires Accepts(ProgressOf(s), st)
    requires !s.writer.Called? && (st.Enter? ==> s.writer.Counted? && s.writer.ts == st.call)
    ensures CanIssue(s.writer, st)
  {
    match s.writer
    case Counted(_, q) => NextCounter(q, s.shared.ticks);
    case Writing(_, q, _, _) => NextCounter(q + 1, s.shared.ticks);
    case _ =>
  }

  lemma IssueIsProgress(s: Seqlock.State, st: Store)
    requires CanIssue(s.writer, st) && Accepts(ProgressOf(s), st)
    ensures ProgressOf(Seqlock.Do(s, Seqlock.Issue(st))) == After(ProgressOf(s), st)
  {}

  lemma IssueIsShown(s: Seqlock.State, t: State, st: Store)
    requires Shows(s, t) && CanIssue(t.writer, st)
    ensures Shows(s, Do(t, Step.Issue(st)))
  {
    hide Inv, AcceptsAll, AfterAll, CanIssue, Accepts, Issued, EndsAt, After;
    IssueIsNext(AfterAll(ProgressOf(s), t.buffer), t.writer, st);
    AcceptsOneMore(ProgressOf(s), t.buffer, st);
  }

  lemma IssueIsNext(p: Progress, w: Writer, st: Store)
    requires EndsAt(p, w) && CanIssue(w, st)
    ensures Accepts(p, st) && EndsAt(After(p, st), Issued(w, st))
  {
    match w
    case Counted(_, q) => NextCounter(q, p.ticks);
    case Writing(_, q, _, _) => NextCounter(q + 1, p.ticks);
    case _ =>
  }

  lemma StepIsPlain(s: Seqlock.State, t: State, step: Step)
    requires Shows(s, t) && Enabled(t, step)
    ensures Seqlock.Exec(s, PlainSteps(t, step)).Some?
    ensures Shows(Seqlock.Exec(s, PlainSteps(t, step)).value, Do(t, step))
  {
    hide SharedInv;
    match step
    case Call(_) =>
    case LoadCounter =>
      assert MemoryInv(s.shared, PhaseOf(s.writer)) by { SharedInvHasMemory(s.shared, PhaseOf(s.writer)); }
      ForwardedIsProgress(ProgressOf(s), t.shared.mem.counter, t.buffer);
    case Issue(st) => IssueIsShown(s, t, st);
    case Flush => FlushIsPlain(s, t);
    case Fence =>
    case ReadStep(r, act) =>
      Linearizability.ExecStep(s, Seqlock.ReadStep(r, act));
      Seqlock.StepKeepsInv(s, Seqlock.ReadStep(r, act));
  }

  lemma SharedInvHasMemory(sh: Shared, phase: Phase)
    requires SharedInv(sh, phase)
    ensures MemoryInv(sh, phase)
  {}

  /** The reader steps of a run, in order. */
  ghost function ReaderSteps(steps: seq<Step>): seq<(nat, Act)> {
    if steps == [] then []
    else
      var last := |steps| - 1;
      var before := ReaderSteps(steps[..last]);
      if steps[last].ReadStep? then before + [(steps[last].r, steps[last].act)] else before
  }

  ghost function PlainReaderSteps(steps: seq<Seqlock.Step>): seq<(nat, Act)> {
    if steps == [] then []
    else
      var last := |steps| - 1;
      var before := PlainReaderSteps(steps[..last]);
      if steps[last].ReadStep? then before + [(steps[last].r, steps[last].act)] else before
  }

  lemma {:induction false} PlainReaderStepsConcat(a: seq<Seqlock.Step>, b: seq<Seqlock.Step>)
    ensures PlainReaderSteps(a + b) == PlainReaderSteps(a) + PlainReaderSteps(b)
  {
    if b == [] {
      assert a + b == a;
    } else {
      var last := |b| - 1;
      PlainReaderStepsConcat(a, b[..last]);
      assert (a + b)[..|a + b| - 1] == a + b[..last];
    }
  }

  lemma PlainStepsRead(t: State, step: Step)
    requires Enabled(t, step)
    ensures PlainReaderSteps(PlainSteps(t, step)) == if step.ReadStep? then [(step.r, step.act)] else []
  {
    var plain := PlainSteps(t, step);
    if plain != [] {
      assert PlainReaderSteps(plain[..0]) == [];
      assert plain[..1][..0] == plain[..0];
      if |plain| == 3 {
        assert PlainReaderSteps(plain[..1]) == [];
        assert plain[..2][..1] == plain[..1];
        assert PlainReaderSteps(plain[..2]) == [];
      } else {
        assert plain[..1] == plain;
      }
    }
  }

  lemma {:induction false} RunIsPlain(s: Seqlock.State, t: State, steps: seq<Step>) returns (plain: seq<Seqlock.Step>)
    requires Shows(s, t) && Exec(t, steps).Some?
    ensures Seqlock.Exec(s, plain).Some?
    ensures Shows(Seqlock.Exec(s, plain).value, Exec(t, steps).value)
    ensures PlainReaderSteps(plain) == ReaderSteps(steps)
  {
    if steps == [] {
      plain := [];
    } else {
      var last := |steps| - 1;
      plain := RunIsPlain(s, t, steps[..last]);
      var s', t' := Seqlock.Exec(s, plain).value, Exec(t, steps[..last]).value;
      var more := PlainSteps(t', steps[last]);
      StepIsPlain(s', t', steps[last]);
      Seqlock.ExecConcat(s, plain, more);
      PlainReaderStepsConcat(plain, more);
      PlainStepsRead(t', steps[last]);
      plain := plain + more;
    }
  }

  lemma InitShows(readers: nat)
    ensures Shows(Seqlock.Init(readers), Init(readers))
  {
    Linearizability.InitInv(readers);
  }

  /** Every run with a store buffer is, for its readers, a run of the plain interleaving: the same
      reader steps in the same order, leading to the same shared memory, reader states and log. */
  lemma BufferedRunsArePlain(readers: nat, steps: seq<Step>) returns (plain: seq<Seqlock.Step>)
    requires Exec(Init(readers), steps).Some?
    ensures Seqlock.Exec(Seqlock.Init(readers), plain).Some?
    ensures Seqlock.Exec(Seqlock.Init(readers), plain).value.shared == Exec(Init(readers), steps).value.shared
    ensures PlainReaderSteps(plain) == ReaderSteps(steps)
  {
    InitShows(readers);
    plain := RunIsPlain(Seqlock.Init(readers), Init(readers), steps);
  }

  lemma ExecTwo(s: State, steps: seq<Step>, a: Step, b: Step)
    requires Exec(s, steps).Some? && Enabled(Exec(s, steps).value, a)
    requires Enabled(Do(Exec(s, steps).value, a), b)
    ensures Exec(s, steps + [a, b]) == Some(Do(Do(Exec(s, steps).value, a), b))
  {
    hide Enabled, Do, Exec;
    ExecOne(s, steps, a);
    ExecOne(s, steps + [a], b);
    assert steps + [a] + [b] == steps + [a, b];
  }

  lemma WriterStepsAreNotRead(steps: seq<Step>, a: Step, b: Step)
    requires !a.ReadStep? && !b.ReadStep?
    ensures ReaderSteps(steps + [a, b]) == ReaderSteps(steps)
  {
    assert (steps + [a])[..|steps|] == steps;
    assert (steps + [a, b])[..|steps| + 1] == steps + [a];
  }

  /** The buffered form of a plain step: a store is flushed as soon as it is issued. */
  function Eager(step: Seqlock.Step): seq<Step> {
    match step
    case Call(ts) => [Step.Call(ts)]
    case LoadCounter => [Step.LoadCounter]
    case Issue(st) => [Step.Issue(st), Flush]
    case ReadStep(r, act) => [Step.ReadStep(r, act)]
  }

  lemma EagerStep(init: State, before: seq<Step>, s: Seqlock.State, step: Seqlock.Step)
    requires Exec(init, before) == Some(State.State(s.shared, [], s.writer))
    requires Seqlock.Enabled(s, step)
    ensures var s' := Seqlock.Do(s, step);
            Exec(init, before + Eager(step)) == Some(State.State(s'.shared, [], s'.writer))
  {
    hide Hit, DoRead, CanRead, CanIssue, Issued, Exec;
    var t := State.State(s.shared, [], s.writer);
    if step.Issue? {
      IssueThenFlush(t, step.st);
      ExecTwo(init, before, Step.Issue(step.st), Flush);
    } else {
      ExecOne(init, before, Eager(step)[0]);
    }
  }

  lemma IssueThenFlush(t: State, st: Store)
    requires t.buffer == [] && CanIssue(t.writer, st)
    ensures Enabled(t, Step.Issue(st)) && Enabled(Do(t, Step.Issue(st)), Flush)
    ensures Do(Do(t, Step.Issue(st)), Flush) == State.State(Hit(t.shared, st), [], Issued(t.writer, st))
  {
    hide Hit, CanIssue, Issued;
    assert t.buffer + [st] == [st] && [st][1..] == [];
  }

  lemma ExecOne(s: State, steps: seq<Step>, step: Step)
    requires Exec(s, steps).Some? && Enabled(Exec(s, steps).value, step)
    ensures Exec(s, steps + [step]) == Some(Do(Exec(s, steps).value, step))
  {
    hide Enabled, Do;
    assert (steps + [step])[..|steps|] == steps;
  }

  lemma EagerReaderSteps(before: seq<Step>, step: Seqlock.Step)
    ensures ReaderSteps(before + Eager(step)) ==
            ReaderSteps(before) + (if step.ReadStep? then [(step.r, step.act)] else [])
  {
    if step.Issue? {
      WriterStepsAreNotRead(before, Step.Issue(step.st), Flush);
    } else {
      assert (before + Eager(step))[..|before|] == before;
    }
  }

  /** Conversely every plain run is a buffered run whose buffer is drained at once, so the two
      machines show their readers exactly the same. */
  lemma {:induction false} PlainRunsAreBuffered(readers: nat, plain: seq<Seqlock.Step>) returns (steps: seq<Step>)
    requires Seqlock.Exec(Seqlock.Init(readers), plain).Some?
    ensures var s := Seqlock.Exec(Seqlock.Init(readers), plain).value;
            Exec(Init(readers), steps) == Some(State.State(s.shared, [], s.writer))
    ensures ReaderSteps(steps) == PlainReaderSteps(plain)
  {
    hide Seqlock.Enabled, Seqlock.Do, Enabled, Do, Eager;
    if plain == [] {
      steps := [];
    } else {
      var last := |plain| - 1;
      var before := PlainRunsAreBuffered(readers, plain[..last]);
      EagerStep(Init(readers), before, Seqlock.Exec(Seqlock.Init(readers), plain[..last]).value, plain[last]);
      EagerReaderSteps(before, plain[last]);
      steps := before + Eager(plain[last]);
    }
  }
}
