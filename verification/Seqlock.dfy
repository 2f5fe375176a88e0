/**
  The seqlock of src/common/shm.c as a machine of single loads and stores.

  One writer runs `linbox_shm_write_time`, any number of readers run
  `linbox_shm_read_time`; every access to the counter, `tv_sec` and `tv_nsec`
  is its own step and steps interleave arbitrarily. The two halves of a
  `struct timespec` copy may be accessed in either order.

  Beside the wrapping 32-bit counter the state keeps history that no step
  depends on: `ticks` counts counter stores without wrapping, `published` lists
  the times made visible so far (publication 0 is the zero of
  `linbox_shm_init_layout`), `clock` numbers the accesses to shared memory,
  `stamps[k]` is the number of the store that made publication k current, and
  `log` lists the completed reads.
 */
module Seqlock {
  import opened Basics

  const WRAP: nat := 0x1_0000_0000
  const HALF: nat := 0x8000_0000
  const ZERO := Time(0, 0)

  // ---- Shared memory and readers -------------------------------------------

  /** `time_seq` and `virtual_time`. */
  datatype Memory = Memory(counter: nat, time: Time)

  /** A store of one `write_time(call)`: the counter going odd, the two words, the counter going even. */
  datatype Store =
    | Enter(counter: nat, call: Time)
    | PutSec(call: Time)
    | PutNsec(call: Time)
    | Leave(counter: nat, call: Time)

  /** A reader outside `read_time`, at the top of its loop, or between its two counter loads. */
  datatype Reader =
    | Away
    | Starting
    | Loading(seq1: nat, sec: Option<int>, nsec: Option<int>, first: nat, firstTick: nat)

  /** A completed read: its value, the access numbers of its two counter loads, and the newest
      publication at each of them. */
  datatype Read = Read(reader: nat, value: Time, first: nat, last: nat, firstPub: nat, lastPub: nat)

  datatype Shared = Shared(mem: Memory, readers: seq<Reader>,
                           clock: nat, ticks: nat, published: seq<Time>, stamps: seq<nat>, log: seq<Read>)

  datatype Act = Begin | LoadFirst | LoadSec | LoadNsec | LoadLast

  predicate CanRead(sh: Shared, r: nat, act: Act) {
    r < |sh.readers| &&
    var reader := sh.readers[r];
    match act
    case Begin => reader.Away?
    case LoadFirst => reader.Starting?
    case LoadSec => reader.Loading? && reader.sec.None?
    case LoadNsec => reader.Loading? && reader.nsec.None?
    case LoadLast => reader.Loading? && reader.sec.Some? && reader.nsec.Some?
  }

  predicate Matches(sh: Shared, reader: Reader)
    requires reader.Loading?
  {
    reader.seq1 == sh.mem.counter && sh.mem.counter % 2 == 0
  }

  function DoRead(sh: Shared, r: nat, act: Act): (sh': Shared)
    requires CanRead(sh, r, act)
  {
    var reader := sh.readers[r];
    var counted := sh.(clock := sh.clock + 1);
    match act
    case Begin => sh.(readers := sh.readers[r := Starting])
    case LoadFirst =>
      if sh.mem.counter % 2 == 1 then counted
      else counted.(readers := sh.readers[r := Loading(sh.mem.counter, None, None, sh.clock, sh.ticks)])
    case LoadSec => counted.(readers := sh.readers[r := reader.(sec := Some(sh.mem.time.sec))])
    case LoadNsec => counted.(readers := sh.readers[r := reader.(nsec := Some(sh.mem.time.nsec))])
    case LoadLast =>
      if Matches(sh, reader) then
        var value := Time(reader.sec.value, reader.nsec.value);
        var read := Read(r, value, reader.first, sh.clock, reader.firstTick / 2, sh.ticks / 2);
        counted.(readers := sh.readers[r := Away], log := sh.log + [read])
      else
        counted.(readers := sh.readers[r := Starting])
  }

  /** A store reaching shared memory. */
  function Hit(sh: Shared, st: Store): Shared {
    var counted := sh.(clock := sh.clock + 1);
    match st
    case Enter(q, _) => counted.(mem := sh.mem.(counter := q), ticks := sh.ticks + 1)
    case PutSec(call) => counted.(mem := sh.mem.(time := sh.mem.time.(sec := call.sec)))
    case PutNsec(call) => counted.(mem := sh.mem.(time := sh.mem.time.(nsec := call.nsec)))
    case Leave(q, call) =>
      counted.(mem := sh.mem.(counter := q), ticks := sh.ticks + 1,
               published := sh.published + [call], stamps := sh.stamps + [sh.clock])
  }

  // ---- The writer ------------------------------------------------------------

  datatype Writer =
    | Idle
    | Called(ts: Time)
    | Counted(ts: Time, counter: nat)
    | Writing(ts: Time, counter: nat, secDone: bool, nsecDone: bool)

  /** The stores `write_time` may issue next. */
  predicate CanIssue(w: Writer, st: Store) {
    match w
    case Counted(ts, q) => st == Enter((q + 1) % WRAP, ts)
    case Writing(ts, q, secDone, nsecDone) =>
      || (st == PutSec(ts) && !secDone)
      || (st == PutNsec(ts) && !nsecDone)
      || (st == Leave((q + 2) % WRAP, ts) && secDone && nsecDone)
    case _ => false
  }

  function Issued(w: Writer, st: Store): Writer
    requires CanIssue(w, st)
  {
    match st
    case Enter(_, ts) => Writing(ts, w.counter, false, false)
    case PutSec(_) => w.(secDone := true)
    case PutNsec(_) => w.(nsecDone := true)
    case Leave(_, _) => Idle
  }

  // ---- The machine -------------------------------------------------------------

  datatype State = State(shared: Shared, writer: Writer)

  datatype Step = Call(ts: Time) | LoadCounter | Issue(st: Store) | ReadStep(r: nat, act: Act)

  function InitShared(readers: nat): Shared {
    Shared(Memory(0, ZERO), seq(readers, _ => Away), 1, 0, [ZERO], [0], [])
  }

  function Init(readers: nat): State {
    State(InitShared(readers), Idle)
  }

  predicate Enabled(s: State, step: Step) {
    match step
    case Call(_) => s.writer.Idle?
    case LoadCounter => s.writer.Called?
    case Issue(st) => CanIssue(s.writer, st)
    case ReadStep(r, act) => CanRead(s.shared, r, act)
  }

  function Do(s: State, step: Step): State
    requires Enabled(s, step)
  {
    match step
    case Call(ts) => s.(writer := Called(ts))
    case LoadCounter => s.(writer := Counted(s.writer.ts, s.shared.mem.counter))
    case Issue(st) => State(Hit(s.shared, st), Issued(s.writer, st))
    case ReadStep(r, act) => s.(shared := DoRead(s.shared, r, act))
  }

  /** The state after a run of steps, or None if some step was not possible. */
  ghost function Exec(s: State, steps: seq<Step>): Option<State> {
    if steps == [] then Some(s)
    else
      var last := |steps| - 1;
      match Exec(s, steps[..last])
      case None => None
      case Some(t) => if Enabled(t, steps[last]) then Some(Do(t, steps[last])) else None
  }

  lemma ExecOne(s: State, steps: seq<Step>, step: Step)
    requires Exec(s, steps).Some? && Enabled(Exec(s, steps).value, step)
    ensures Exec(s, steps + [step]) == Some(Do(Exec(s, steps).value, step))
  {
    assert (steps + [step])[..|steps|] == steps;
  }

  lemma {:induction false} ExecConcat(s: State, a: seq<Step>, b: seq<Step>)
    requires Exec(s, a).Some?
    ensures Exec(s, a + b) == Exec(Exec(s, a).value, b)
  {
    if b == [] {
      assert a + b == a;
    } else {
      var last := |b| - 1;
      ExecConcat(s, a, b[..last]);
      assert (a + b)[..|a + b| - 1] == a + b[..last];
    }
  }

  // ---- What every step keeps ---------------------------------------------------

  /** How far the writer's stores have got in shared memory. */
  datatype Phase = Quiet | Mid(ts: Time, secDone: bool, nsecDone: bool)

  datatype Progress = Progress(ticks: nat, phase: Phase)

  function PhaseOf(w: Writer): Phase {
    match w
    case Writing(ts, _, secDone, nsecDone) => Mid(ts, secDone, nsecDone)
    case _ => Quiet
  }

  /** The stores that may reach memory next when the writer's stores arrive in program order. */
  predicate Accepts(p: Progress, st: Store) {
    match st
    case Enter(q, _) => p.phase.Quiet? && q == (p.ticks + 1) % WRAP
    case PutSec(call) => p.phase.Mid? && p.phase.ts == call && !p.phase.secDone
    case PutNsec(call) => p.phase.Mid? && p.phase.ts == call && !p.phase.nsecDone
    case Leave(q, call) => p.phase == Mid(call, true, true) && q == (p.ticks + 1) % WRAP
  }

  function After(p: Progress, st: Store): Progress
    requires Accepts(p, st)
  {
    match st
    case Enter(_, call) => Progress(p.ticks + 1, Mid(call, false, false))
    case PutSec(_) => p.(phase := p.phase.(secDone := true))
    case PutNsec(_) => p.(phase := p.phase.(nsecDone := true))
    case Leave(_, _) => Progress(p.ticks + 1, Quiet)
  }

  function Current(sh: Shared): Time
    requires sh.published != []
  {
    sh.published[|sh.published| - 1]
  }

  predicate MemoryInv(sh: Shared, phase: Phase) {
    && |sh.published| == |sh.stamps| > 0
    && sh.mem.counter == sh.ticks % WRAP
    && sh.ticks == 2 * (|sh.published| - 1) + (if phase.Mid? then 1 else 0)
    && match phase
       case Quiet => sh.mem.time == Current(sh)
       case Mid(ts, secDone, nsecDone) =>
         && sh.mem.time.sec == (if secDone then ts.sec else Current(sh).sec)
         && sh.mem.time.nsec == (if nsecDone then ts.nsec else Current(sh).nsec)
  }

  predicate StampsInv(sh: Shared) {
    && (forall i, j | 0 <= i < j < |sh.stamps| :: sh.stamps[i] < sh.stamps[j])
    && (forall i | 0 <= i < |sh.stamps| :: sh.stamps[i] < sh.clock)
  }

  /** Access number `at` happened while publication `k` was the newest. */
  predicate NewestAt(sh: Shared, k: nat, at: nat) {
    && |sh.published| == |sh.stamps|
    && k < |sh.stamps|
    && sh.stamps[k] < at < sh.clock
    && (k + 1 < |sh.stamps| ==> at < sh.stamps[k + 1])
  }

  predicate ReaderInv(sh: Shared, reader: Reader) {
    reader.Loading? ==>
      && reader.firstTick % 2 == 0 && reader.seq1 == reader.firstTick % WRAP
      && reader.firstTick <= sh.ticks
      && NewestAt(sh, reader.firstTick / 2, reader.first)
      && (reader.firstTick == sh.ticks ==>
            && (reader.sec.Some? ==> reader.sec.value == sh.published[reader.firstTick / 2].sec)
            && (reader.nsec.Some? ==> reader.nsec.value == sh.published[reader.firstTick / 2].nsec))
  }

  /** Fewer than 2^31 writes completed between the two counter loads of a read. */
  predicate NoWrap(read: Read) {
    read.lastPub - read.firstPub < HALF
  }

  predicate ReadInv(sh: Shared, read: Read) {
    && read.first < read.last
    && read.firstPub <= read.lastPub
    && NewestAt(sh, read.firstPub, read.first)
    && NewestAt(sh, read.lastPub, read.last)
    && (NoWrap(read) ==> read.firstPub == read.lastPub && read.value == sh.published[read.firstPub])
  }

  predicate SharedInv(sh: Shared, phase: Phase) {
    && MemoryInv(sh, phase)
    && StampsInv(sh)
    && (forall r | 0 <= r < |sh.readers| :: ReaderInv(sh, sh.readers[r]))
    && (forall i | 0 <= i < |sh.log| :: ReadInv(sh, sh.log[i]))
  }

  predicate WriterInv(sh: Shared, w: Writer) {
    && (w.Counted? ==> w.counter == sh.mem.counter)
    && (w.Writing? ==> (w.counter + 1) % WRAP == sh.mem.counter)
  }

  predicate Inv(s: State) {
    SharedInv(s.shared, PhaseOf(s.writer)) && WriterInv(s.shared, s.writer)
  }

  /** Later accesses and publications change nothing about what was newest before. */
  ghost predicate Extends(sh: Shared, sh': Shared) {
    && sh.clock <= sh'.clock && sh.ticks <= sh'.ticks
    && sh.published <= sh'.published && sh.stamps <= sh'.stamps
    && |sh'.published| - |sh.published| == |sh'.stamps| - |sh.stamps|
    && (forall i | |sh.stamps| <= i < |sh'.stamps| :: sh.clock <= sh'.stamps[i])
  }

  lemma ExtendsKeepsReader(sh: Shared, sh': Shared, reader: Reader)
    requires ReaderInv(sh, reader) && Extends(sh, sh')
    ensures ReaderInv(sh', reader)
  {}

  lemma ExtendsKeepsRead(sh: Shared, sh': Shared, read: Read)
    requires ReadInv(sh, read) && Extends(sh, sh')
    ensures ReadInv(sh', read)
  {}

  lemma HitKeepsInv(sh: Shared, phase: Phase, st: Store)
    requires SharedInv(sh, phase) && Accepts(Progress(sh.ticks, phase), st)
    ensures SharedInv(Hit(sh, st), After(Progress(sh.ticks, phase), st).phase)
    ensures Hit(sh, st).ticks == After(Progress(sh.ticks, phase), st).ticks
  {
    hide ReaderInv, ReadInv;
    var sh' := Hit(sh, st);
    HitKeepsMemory(sh, phase, st);
    forall r | 0 <= r < |sh'.readers|
      ensures ReaderInv(sh', sh'.readers[r])
    {
      ExtendsKeepsReader(sh, sh', sh.readers[r]);
    }
    forall i | 0 <= i < |sh'.log|
      ensures ReadInv(sh', sh'.log[i])
    {
      ExtendsKeepsRead(sh, sh', sh.log[i]);
    }
  }

  lemma HitKeepsMemory(sh: Shared, phase: Phase, st: Store)
    requires MemoryInv(sh, phase) && StampsInv(sh) && Accepts(Progress(sh.ticks, phase), st)
    ensures MemoryInv(Hit(sh, st), After(Progress(sh.ticks, phase), st).phase)
    ensures StampsInv(Hit(sh, st))
  {}

  lemma EqualCountersEqualTicks(early: nat, late: nat)
    requires early <= late && early % 2 == 0 && early % WRAP == late % WRAP
    ensures late % 2 == 0
    ensures late / 2 - early / 2 < HALF ==> early == late
  {
    var d := late / WRAP - early / WRAP;
    assert late - early == d * WRAP;
    assert late - early == 2 * (d * HALF);
    assert late / 2 - early / 2 == d * HALF;
  }

  lemma ActKeepsReader(sh: Shared, phase: Phase, r: nat, act: Act)
    requires MemoryInv(sh, phase) && StampsInv(sh) && CanRead(sh, r, act) && ReaderInv(sh, sh.readers[r])
    ensures ReaderInv(DoRead(sh, r, act), DoRead(sh, r, act).readers[r])
  {
    if act.LoadFirst? && sh.mem.counter % 2 == 0 {
      FirstLoadIsNewest(sh, phase);
    }
  }

  lemma FirstLoadIsNewest(sh: Shared, phase: Phase)
    requires MemoryInv(sh, phase) && StampsInv(sh) && sh.mem.counter % 2 == 0
    ensures sh.ticks % 2 == 0 && sh.ticks / 2 == |sh.published| - 1
    ensures NewestAt(sh.(clock := sh.clock + 1), sh.ticks / 2, sh.clock)
  {}

  lemma CompletedRead(sh: Shared, phase: Phase, r: nat)
    requires MemoryInv(sh, phase) && StampsInv(sh) && CanRead(sh, r, LoadLast) && ReaderInv(sh, sh.readers[r])
    requires Matches(sh, sh.readers[r])
    ensures var sh' := DoRead(sh, r, LoadLast);
            |sh'.log| == |sh.log| + 1 && ReadInv(sh', sh'.log[|sh.log|])
  {
    EqualCountersEqualTicks(sh.readers[r].firstTick, sh.ticks);
  }

  lemma ReadKeepsInv(sh: Shared, phase: Phase, r: nat, act: Act)
    requires SharedInv(sh, phase) && CanRead(sh, r, act)
    ensures SharedInv(DoRead(sh, r, act), phase)
  {
    hide ReaderInv, ReadInv;
    var sh' := DoRead(sh, r, act);
    forall q | 0 <= q < |sh'.readers|
      ensures ReaderInv(sh', sh'.readers[q])
    {
      if q == r {
        ActKeepsReader(sh, phase, r, act);
      } else {
        ExtendsKeepsReader(sh, sh', sh.readers[q]);
      }
    }
    forall i | 0 <= i < |sh'.log|
      ensures ReadInv(sh', sh'.log[i])
    {
      if i < |sh.log| {
        ExtendsKeepsRead(sh, sh', sh.log[i]);
      } else {
        CompletedRead(sh, phase, r);
      }
    }
  }

  lemma StepKeepsInv(s: State, step: Step)
    requires Inv(s) && Enabled(s, step)
    ensures Inv(Do(s, step))
  {
    hide SharedInv;
    match step
    case Call(_) =>
    case LoadCounter =>
    case Issue(st) => IssueKeepsInv(s, st);
    case ReadStep(r, act) => ReadKeepsInv(s.shared, PhaseOf(s.writer), r, act);
  }

  lemma IssueKeepsInv(s: State, st: Store)
    requires Inv(s) && CanIssue(s.writer, st)
    ensures Accepts(Progress(s.shared.ticks, PhaseOf(s.writer)), st)
    ensures Inv(Do(s, Issue(st)))
  {
    hide ReaderInv, ReadInv, StampsInv, Hit, CanIssue, Accepts;
    IssueIsAccepted(s.shared, s.writer, st);
    HitKeepsInv(s.shared, PhaseOf(s.writer), st);
  }

  lemma IssueIsAccepted(sh: Shared, w: Writer, st: Store)
    requires sh.mem.counter == sh.ticks % WRAP && WriterInv(sh, w) && CanIssue(w, st)
    ensures Accepts(Progress(sh.ticks, PhaseOf(w)), st)
    ensures After(Progress(sh.ticks, PhaseOf(w)), st).phase == PhaseOf(Issued(w, st))
    ensures WriterInv(Hit(sh, st), Issued(w, st))
  {
    match w
    case Counted(_, q) => NextCounter(q, sh.ticks);
    case Writing(_, q, _, _) => NextCounter(q + 1, sh.ticks);
    case _ =>
  }

  lemma NextCounter(a: nat, b: nat)
    requires a % WRAP == b % WRAP
    ensures (a + 1) % WRAP == (b + 1) % WRAP
  {}

  lemma {:induction false} RunKeepsInv(s: State, steps: seq<Step>)
    requires Inv(s) && Exec(s, steps).Some?
    ensures Inv(Exec(s, steps).value)
  {
    if steps != [] {
      var last := |steps| - 1;
      RunKeepsInv(s, steps[..last]);
      StepKeepsInv(Exec(s, steps[..last]).value, steps[last]);
    }
  }

  ghost predicate Reachable(s: State) {
    exists readers: nat, steps: seq<Step> :: Exec(Init(readers), steps) == Some(s)
  }

  lemma ReachableInv(s: State)
    requires Reachable(s)
    ensures Inv(s)
  {
    var readers: nat, steps: seq<Step> :| Exec(Init(readers), steps) == Some(s);
    RunKeepsInv(Init(readers), steps);
  }
}
