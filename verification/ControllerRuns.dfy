/** What the controller keeps over requests, table passes and whole runs. */
module ControllerRuns {
  import opened Arithmetic
  import opened Basics
  import opened TimeManager
  import opened ProcessTable
  import opened Sbp
  import opened Controller

  // ---- Requests -------------------------------------------------------------------------

  /** A request written by any version-1 client takes effect first and is then answered by at most
      one ACK echoing its flags; the client is kept exactly when the ACK went out. SET_TIME changes
      and publishes the time, SET_SEED changes and stores the seed, REGISTER inserts the pid into a
      table of limited size, HELLO changes nothing, and no request changes anything else. */
  lemma RequestTakesEffectThenAck(c: Control, conn: Conn, m: Message, sendOk: bool)
    requires m.version == VERSION && !m.body.Other? && !m.body.Ack?
    ensures var out := Handle(c, conn, Delivery(Serialize(m), sendOk));
            var ack := if sendOk then [Acked(conn, AckFrame(m.flags))] else [];
            && out.keep == sendOk
            && match m.body
               case SetTime(sec, nsec) =>
                 && out.events == [Published(Time(sec, nsec))] + ack
                 && out.control == c.(time := Time(sec, nsec), setTime := Time(sec, nsec), setTick := c.lastTick)
               case SetSeed(seed) => out.events == [SeedStored(seed)] + ack && out.control == c.(seed := seed)
               case Register(pid, _) =>
                 && out.events == ack && out.control == c.(slots := out.control.slots)
                 && TakesIn(c.slots, out.control.slots, pid)
               case _ => out.events == ack && out.control == c
  {
    hide Deserialize, Serialize, Handle, AckFrame;
    DeserializeSerialize(m);
    HandleIsEffect(c, conn, Delivery(Serialize(m), sendOk));
    if m.body.Register? {
      RegisterTakesIn(c.slots, m.body.pid);
    }
  }

  /** The table takes in the pid: slots in use stay as they are, and distinct pids remain a set,
      with this one added if it is not 0 and there is room. */
  ghost predicate TakesIn(slots: seq<Slot>, slots': seq<Slot>, pid: nat) {
    && |slots'| == |slots|
    && (forall i | 0 <= i < |slots| && slots[i].pid != 0 :: slots'[i] == slots[i])
    && (Distinct(slots) ==>
          && Distinct(slots')
          && Pids(slots') == if pid == 0 || |Pids(slots)| >= |slots| then Pids(slots) else Pids(slots) + {pid})
  }

  lemma RegisterTakesIn(slots: seq<Slot>, pid: nat)
    ensures TakesIn(slots, Registered(slots, pid), pid)
  {
    hide Registered;
    RegisterIsIdempotentAndLocal(slots, pid);
    if Distinct(slots) {
      RegisterRefinesInsert(slots, pid);
      if pid in Pids(slots) {
        assert Pids(slots) + {pid} == Pids(slots);
      }
    }
  }

  /** The reply is a frame that reads as an ACK with the flags of the request. */
  lemma AckEchoesFlags(flags: U16)
    ensures Deserialize(AckFrame(flags)) == Ok(Message(1, flags, Ack))
    ensures AckFrame(flags) == [1, 2, flags % 256, flags / 256, 0, 0, 0, 0]
  {
    DeserializeSerialize(Message(VERSION, flags, Ack));
    assert Le(flags, 2) == [flags % 256, flags / 256] by { assert Le(flags / 256, 1) == [flags / 256]; }
    assert Le(0, 4) == [0, 0, 0, 0] by {
      assert Le(0, 1) == [0] && Le(0, 2) == [0, 0] && Le(0, 3) == [0, 0, 0];
    }
  }

  /** SET_TIME takes its nanoseconds unchecked: the published time need not be normalized. */
  lemma SetTimeCanPublishUnnormalized(c: Control, conn: Conn, flags: U16, sendOk: bool)
    ensures var out := Handle(c, conn, Delivery(Serialize(Message(VERSION, flags, SetTime(0, -1))), sendOk));
            && out.events != [] && out.events[0] == Published(Time(0, -1))
            && out.control.time == Time(0, -1) && !out.control.time.Normalized()
  {
    hide Handle, Serialize;
    RequestTakesEffectThenAck(c, conn, Message(VERSION, flags, SetTime(0, -1)), sendOk);
  }

  /** Anything that is not a request frame, from a failed read to a stray ACK, changes nothing, is
      not answered, and costs the client its connection. */
  lemma OtherInputChangesNothing(c: Control, conn: Conn, d: Delivery)
    requires forall m: Message :: !IsRequest(d.bytes, m)
    ensures Handle(c, conn, d) == Outcome(c, [], false)
  {
    hide Serialize, Handle;
    HandleIsEffect(c, conn, d);
    if Deserialize(d.bytes).Ok? {
      SerializeDeserialize(d.bytes);
      assert !IsRequest(d.bytes, Deserialize(d.bytes).value);
    }
  }

  predicate IsRequest(bytes: seq<Byte>, m: Message) {
    IsFrameOf(bytes, m) && !m.body.Ack?
  }

  // ---- The parts of a turn ---------------------------------------------------------------

  /** A newcomer joins the table below 64 clients and is closed at once otherwise. */
  lemma NewcomerIsLiveExactlyBelowLimit(d: Desk, conn: Conn)
    ensures var a := Accept(d, Some(conn));
            && a == d.(live := a.live, closed := a.closed, accepted := d.accepted + [conn])
            && (|d.live| < 64 ==> a.live == d.live + [conn] && a.closed == d.closed)
            && (|d.live| >= 64 ==> a.live == d.live && a.closed == d.closed + [conn])
    ensures Accept(d, None) == d
  {}

  /** Unless the clock has moved a tick does nothing. Otherwise it advances and publishes the time,
      takes exactly the dead out of the process table, and touches nothing else. */
  lemma TickExactly(d: Desk, now: Reading, living: set<nat>)
    ensures now.Total() <= d.control.lastTick.Total() ==> Tick(d, now, living) == d
    ensures now.Total() > d.control.lastTick.Total() ==>
              var t := Tick(d, now, living);
              var c := t.control;
              && c.time.Normalized()
              && c.time.Total() == Wrap64(d.control.time.Total() + now.Total() - d.control.lastTick.Total())
              && Pids(c.slots) == Pids(d.control.slots) * living
              && (forall i | 0 <= i < |d.control.slots| && d.control.slots[i].pid in living ::
                    i < |c.slots| && c.slots[i] == d.control.slots[i])
              && c == d.control.(time := c.time, slots := c.slots, lastTick := now)
              && t == d.(control := c, events := d.events + [Published(c.time)], history := d.history + [c])
  {
    hide NsAdd, Wrap64;
    NsAddTotal(d.control.time, now.Total() - d.control.lastTick.Total());
    ReapRemovesExactlyTheDead(d.control.slots, living);
  }

  /** The controller starts at the beginning of 2025 with seed 0 and nobody registered. */
  lemma StartsAt2025(now: Reading)
    ensures var d := Opened(now);
            && d.control.time == d.control.setTime == Time(1735689600, 0) && d.control.seed == 0
            && d.control.lastTick == d.control.setTick == now
            && |d.control.slots| == 64 && Pids(d.control.slots) == {}
            && d.live == d.closed == d.accepted == []
            && d.events == [Published(Time(1735689600, 0)), SeedStored(0)]
  {}

  lemma SweepOfOne(d: Desk, revents: seq<Revents>, inbox: map<Conn, Delivery>)
    requires |d.live| == 1 && |revents| >= 1 && !revents[0].gone && revents[0].readable && HandleAt(d, 0, inbox).1
    ensures Sweep(d, 0, revents, inbox) == HandleAt(d, 0, inbox).0
  {
    hide HandleAt;
    var h := HandleAt(d, 0, inbox).0;
    assert Sweep(h, 1, revents, inbox) == h;
  }

  /** One turn accepts, then serves, then ticks: a client that connects and sets the time is served in
      the same turn, and the time it sets is advanced by that turn's tick. */
  lemma TurnAcceptsServesTicks(d: Desk, conn: Conn, m: Message, revents: seq<Revents>, now: Reading, living: set<nat>)
    requires d.live == [] && |revents| == CLIENT_LIMIT && revents[0] == Revents(false, true)
    requires m.version == VERSION && m.body.SetTime? && now.Total() > d.control.lastTick.Total()
    ensures var t := TakeTurn(d, Polled(Some(conn), revents, map[conn := Delivery(Serialize(m), true)], now, living));
            var ts := Time(m.body.sec, m.body.nsec);
            && t.live == [conn] && t.closed == d.closed && t.accepted == d.accepted + [conn]
            && t.control.time == NsAdd(ts, now.Total() - d.control.lastTick.Total())
            && t.events == d.events + [Published(ts), Acked(conn, AckFrame(m.flags)), Published(t.control.time)]
  {
    hide Handle, Serialize, AckFrame, NsAdd, Sweep, Reaped;
    var inbox := map[conn := Delivery(Serialize(m), true)];
    var a := Accept(d, Some(conn));
    RequestTakesEffectThenAck(a.control, conn, m, true);
    SweepOfOne(a, revents, inbox);
  }

  /** A failed poll ends the loop, whatever would come after. */
  lemma {:induction false} FailedPollEndsLoop(d: Desk, before: seq<Turn>, after: seq<Turn>)
    requires (forall i | 0 <= i < |before| :: Sized(before[i])) && (forall i | 0 <= i < |after| :: Sized(after[i]))
    requires |d.live| <= CLIENT_LIMIT
    ensures Loop(d, before + [PollFailed] + after) == Loop(d, before)
    decreases |before|
  {
    hide TakeTurn;
    var turns := before + [PollFailed] + after;
    if before != [] && !before[0].PollFailed? {
      FailedPollEndsLoop(TakeTurn(d, before[0]), before[1..], after);
      assert turns[1..] == before[1..] + [PollFailed] + after;
    }
  }

  /** An interrupted poll is as if it had not been. */
  lemma {:induction false} InterruptedPollIsSkipped(d: Desk, before: seq<Turn>, after: seq<Turn>)
    requires (forall i | 0 <= i < |before| :: Sized(before[i])) && (forall i | 0 <= i < |after| :: Sized(after[i]))
    requires |d.live| <= CLIENT_LIMIT
    ensures Loop(d, before + [Interrupted] + after) == Loop(d, before + after)
    decreases |before|
  {
    var turns := before + [Interrupted] + after;
    if before == [] {
      assert turns[1..] == after && before + after == after;
      assert TakeTurn(d, Interrupted) == d;
    } else if !before[0].PollFailed? {
      hide TakeTurn;
      InterruptedPollIsSkipped(TakeTurn(d, before[0]), before[1..], after);
      assert turns[1..] == before[1..] + [Interrupted] + after;
      assert (before + after)[1..] == before[1..] + after;
    }
  }

  // ---- Connections ------------------------------------------------------------------------

  /** Every accepted connection is in the live table or closed, as often as it was accepted. */
  ghost predicate Conserved(d: Desk) {
    multiset(d.live) + multiset(d.closed) == multiset(d.accepted)
  }

  lemma RemoveTakesOne(live: seq<Conn>, i: nat)
    requires i < |live|
    ensures multiset(RemoveAt(live, i)) + multiset{live[i]} == multiset(live)
  {
    var last := |live| - 1;
    if i == last {
      assert RemoveAt(live, i) == live[..last];
      assert live == live[..last] + [live[i]];
    } else {
      assert live == live[..i] + [live[i]] + live[i + 1..last] + [live[last]];
      assert RemoveAt(live, i) == live[..i] + [live[last]] + live[i + 1..last];
    }
  }

  // ---- Time ---------------------------------------------------------------------------------

  /** The time that should be current: the last value set plus the monotonic time since. */
  function Due(c: Control): int {
    c.setTime.Total() + c.lastTick.Total() - c.setTick.Total()
  }

  /** Either no tick has happened since the time was set, or the current time is normalized and
      denotes the due time in int64_t arithmetic. */
  ghost predicate TimeInv(c: Control) {
    && c.setTick.Total() <= c.lastTick.Total()
    && if c.setTick.Total() == c.lastTick.Total() then c.time == c.setTime
       else c.time.Normalized() && c.time.Total() == Wrap64(Due(c))
  }

  lemma TickKeepsTime(d: Desk, now: Reading, living: set<nat>)
    requires TimeInv(d.control)
    ensures TimeInv(Tick(d, now, living).control)
  {
    hide NsAdd, Wrap64;
    var c := d.control;
    var delta := now.Total() - c.lastTick.Total();
    if delta > 0 {
      NsAddTotal(c.time, delta);
      WrapAdds(Due(c), delta);
      assert c.setTick.Total() == c.lastTick.Total() ==> Due(c) == c.setTime.Total();
    }
  }

  /** A tick moves time forward exactly when the sum does not run over the top of int64_t. */
  lemma TickAdvancesExactly(d: Desk, now: Reading, living: set<nat>)
    requires now.Total() > d.control.lastTick.Total()
    ensures var sum := d.control.time.Total() + (now.Total() - d.control.lastTick.Total());
            && (Tick(d, now, living).control.time.Total() > d.control.time.Total() <==> sum < TWO63)
            && Tick(d, now, living).control.time.Total() != d.control.time.Total()
  {
    hide NsAdd;
    NsAddTotal(d.control.time, now.Total() - d.control.lastTick.Total());
  }

  // ---- Runs -----------------------------------------------------------------------------------

  ghost predicate ControlInv(c: Control) {
    TimeInv(c) && |c.slots| == SLOT_COUNT && Distinct(c.slots)
  }

  /** The times published, in order. */
  ghost function PublishedTimes(events: seq<Event>): seq<Time> {
    if events == [] then []
    else
      var last := |events| - 1;
      PublishedTimes(events[..last]) + (if events[last].Published? then [events[last].time] else [])
  }

  ghost function LastPublished(events: seq<Event>): Option<Time> {
    var times := PublishedTimes(events);
    if times == [] then None else Some(times[|times| - 1])
  }

  ghost function TimesOf(history: seq<Control>): seq<Time> {
    seq(|history|, i requires 0 <= i < |history| => history[i].time)
  }

  /** Every time published was the time then due, and the newest is current. */
  ghost predicate HistoryInv(d: Desk) {
    && d.history != [] && d.history[0].time == EPOCH && d.history[|d.history| - 1].time == d.control.time
    && PublishedTimes(d.events) == TimesOf(d.history)
    && (forall i | 0 <= i < |d.history| :: TimeInv(d.history[i]))
    && (forall i | 0 <= i < |d.history| :: d.history[i].lastTick.Total() <= d.control.lastTick.Total())
    && (forall i, j | 0 <= i < j < |d.history| :: d.history[i].lastTick.Total() <= d.history[j].lastTick.Total())
  }

  ghost predicate DeskInv(d: Desk) {
    && ControlInv(d.control)
    && Conserved(d)
    && |d.live| <= CLIENT_LIMIT
    && HistoryInv(d)
  }

  lemma {:induction false} PublishedTimesConcat(a: seq<Event>, b: seq<Event>)
    ensures PublishedTimes(a + b) == PublishedTimes(a) + PublishedTimes(b)
  {
    if b == [] {
      assert a + b == a;
    } else {
      PublishedTimesConcat(a, b[..|b| - 1]);
      assert (a + b)[..|a + b| - 1] == a + b[..|b| - 1];
    }
  }

  lemma AnnouncementTells(c: Control, body: Body)
    ensures Announces(c, Effect(c, body), Announcement(body))
  {
    if body.SetTime? {
      PublishedOnce(Time(body.sec, body.nsec));
    } else if body.SetSeed? {
      assert [SeedStored(body.seed)][..0] == [];
    }
  }

  lemma EffectKeepsControl(c: Control, body: Body)
    requires ControlInv(c)
    ensures ControlInv(Effect(c, body)) && Effect(c, body).lastTick == c.lastTick
    ensures Announces(c, Effect(c, body), Announcement(body))
  {
    hide Registered, Distinct, Wrap64, Announces;
    AnnouncementTells(c, body);
    if body.Register? {
      RegisterRefinesInsert(c.slots, body.pid);
      RegisterIsIdempotentAndLocal(c.slots, body.pid);
    }
  }

  lemma HandleIsEffect(c: Control, conn: Conn, d: Delivery)
    ensures Handle(c, conn, d) ==
            if d.bytes != [] && Deserialize(d.bytes).Ok? && !Deserialize(d.bytes).value.body.Ack? then
              var m := Deserialize(d.bytes).value;
              var ack := if d.sendOk then [Acked(conn, AckFrame(m.flags))] else [];
              Outcome(Effect(c, m.body), Announcement(m.body) + ack, d.sendOk)
            else Outcome(c, [], false)
  {
    hide Deserialize;
    if d.bytes != [] && Deserialize(d.bytes).Ok? {
      SerializeDeserialize(d.bytes);
    }
  }

  lemma HandleKeepsControl(c: Control, conn: Conn, d: Delivery)
    requires ControlInv(c)
    ensures ControlInv(Handle(c, conn, d).control)
    ensures Handle(c, conn, d).control.lastTick == c.lastTick
    ensures Announces(c, Handle(c, conn, d).control, Handle(c, conn, d).events)
  {
    hide Deserialize, Handle, ControlInv, Effect, Announcement, Announces;
    HandleIsEffect(c, conn, d);
    NothingAnnounced(c);
    if d.bytes != [] && Deserialize(d.bytes).Ok? {
      var m := Deserialize(d.bytes).value;
      EffectKeepsControl(c, m.body);
      AckAnnouncesNothing(c, Effect(c, m.body), Announcement(m.body), Acked(conn, AckFrame(m.flags)));
      assert Announcement(m.body) + [] == Announcement(m.body);
    }
  }

  /** The events publish the new time once, as the first of them, or leave the time alone. */
  ghost predicate Announces(c: Control, c': Control, events: seq<Event>) {
    if events != [] && events[0].Published? then PublishedTimes(events) == [c'.time]
    else PublishedTimes(events) == [] && c'.time == c.time
  }

  lemma NothingAnnounced(c: Control)
    ensures Announces(c, c, [])
  {}

  lemma AckAnnouncesNothing(c: Control, c': Control, events: seq<Event>, ack: Event)
    requires Announces(c, c', events) && ack.Acked?
    ensures Announces(c, c', events + [ack])
  {
    PublishedTimesConcat(events, [ack]);
    assert [ack][..0] == [];
  }

  lemma AnnounceKeepsHistory(d: Desk, c: Control, events: seq<Event>)
    requires HistoryInv(d) && TimeInv(c) && Announces(d.control, c, events)
    requires d.control.lastTick.Total() <= c.lastTick.Total()
    ensures HistoryInv(Announce(d, c, events))
  {
    hide TimeInv, PublishedTimes;
    PublishedTimesConcat(d.events, events);
    var d' := Announce(d, c, events);
    assert TimesOf(d'.history) == TimesOf(d.history) + PublishedTimes(events);
  }

  lemma HandleKeepsDesk(d: Desk, i: nat, inbox: map<Conn, Delivery>)
    requires DeskInv(d) && i < |d.live|
    ensures DeskInv(HandleAt(d, i, inbox).0)
  {
    hide Handle, TimeInv, HistoryInv, Announces;
    var out := Handle(d.control, d.live[i], Delivered(inbox, d.live[i]));
    HandleKeepsControl(d.control, d.live[i], Delivered(inbox, d.live[i]));
    AnnounceKeepsHistory(d, out.control, out.events);
  }

  lemma CloseKeepsDesk(d: Desk, i: nat)
    requires i < |d.live| && DeskInv(d)
    ensures DeskInv(CloseAt(d, i))
  {
    hide RemoveAt, TimeInv, PublishedTimes, ControlInv;
    RemoveTakesOne(d.live, i);
  }

  lemma {:induction false} SweepKeepsDesk(d: Desk, i: nat, revents: seq<Revents>, inbox: map<Conn, Delivery>)
    requires i <= |d.live| <= |revents| && DeskInv(d)
    ensures DeskInv(Sweep(d, i, revents, inbox))
    decreases |d.live| - i
  {
    if i < |d.live| {
      hide DeskInv, HandleAt, CloseAt;
      var h := HandleAt(d, i, inbox).0;
      HandleKeepsDesk(d, i, inbox);
      if revents[i].gone {
        CloseKeepsDesk(d, i);
        SweepKeepsDesk(CloseAt(d, i), i, revents, inbox);
      } else if revents[i].readable && !HandleAt(d, i, inbox).1 {
        CloseKeepsDesk(h, i);
        SweepKeepsDesk(CloseAt(h, i), i, revents, inbox);
      } else {
        SweepKeepsDesk(if revents[i].readable then h else d, i + 1, revents, inbox);
      }
    }
  }

  lemma TickKeepsDesk(d: Desk, now: Reading, living: set<nat>)
    requires DeskInv(d)
    ensures DeskInv(Tick(d, now, living))
  {
    hide NsAdd, TimeInv, HistoryInv, PublishedTimes;
    var d' := Tick(d, now, living);
    TickKeepsTime(d, now, living);
    ReapRemovesExactlyTheDead(d.control.slots, living);
    if d' != d {
      PublishedOnce(d'.control.time);
      AnnounceKeepsHistory(d, d'.control, [Published(d'.control.time)]);
    }
  }

  lemma PublishedOnce(time: Time)
    ensures PublishedTimes([Published(time)]) == [time]
  {
    assert [Published(time)][..0] == [];
  }

  lemma AcceptKeepsDesk(d: Desk, incoming: Option<Conn>)
    requires DeskInv(d)
    ensures DeskInv(Accept(d, incoming))
  {
    hide ControlInv, TimeInv, PublishedTimes;
  }

  lemma TurnKeepsDesk(d: Desk, t: Turn)
    requires Sized(t) && DeskInv(d)
    ensures DeskInv(TakeTurn(d, t))
  {
    if t.Polled? {
      hide DeskInv, Tick, Sweep;
      AcceptKeepsDesk(d, t.incoming);
      AcceptBound(d, t.incoming);
      SweepKeepsDesk(Accept(d, t.incoming), 0, t.revents, t.inbox);
      TickKeepsDesk(Sweep(Accept(d, t.incoming), 0, t.revents, t.inbox), t.now, t.living);
    }
  }

  lemma AcceptBound(d: Desk, incoming: Option<Conn>)
    requires |d.live| <= CLIENT_LIMIT
    ensures |Accept(d, incoming).live| <= CLIENT_LIMIT
  {}

  lemma {:induction false} LoopKeepsDesk(d: Desk, turns: seq<Turn>)
    requires (forall i | 0 <= i < |turns| :: Sized(turns[i])) && DeskInv(d)
    ensures DeskInv(Loop(d, turns))
    decreases |turns|
  {
    if turns != [] && !turns[0].PollFailed? {
      TurnKeepsDesk(d, turns[0]);
      LoopKeepsDesk(TakeTurn(d, turns[0]), turns[1..]);
    }
  }

  lemma OpenedKeepsDesk(now: Reading)
    ensures DeskInv(Opened(now))
  {
    PublishedOnce(EPOCH);
    assert [Published(EPOCH), SeedStored(0)][..1] == [Published(EPOCH)];
    assert TimesOf(Opened(now).history) == [EPOCH];
  }

  /** Over whole runs: the table never exceeds 64 clients and pids stay distinct; the newest
      publication is the controller's time; that time is the due one exactly when nothing has
      ticked since it was set or the due total fits int64_t; and once all turns are over every
      accepted connection has been closed as often as it was accepted. */
  lemma RunsConserve(now: Reading, turns: seq<Turn>)
    requires forall i | 0 <= i < |turns| :: Sized(turns[i])
    ensures var d := Loop(Opened(now), turns);
            var c := d.control;
            && |d.live| <= CLIENT_LIMIT && Conserved(d)
            && |c.slots| == SLOT_COUNT && Distinct(c.slots)
            && LastPublished(d.events) == Some(c.time)
            && (c.time.Total() == Due(c) <==> c.lastTick.Total() == c.setTick.Total() || InInt64(Due(c)))
            && (c.time.Normalized() <==> c.lastTick.Total() != c.setTick.Total() || c.setTime.Normalized())
            && multiset(Shutdown(d).closed) == multiset(d.accepted) && Shutdown(d).live == []
  {
    OpenedKeepsDesk(now);
    LoopKeepsDesk(Opened(now), turns);
  }

  // ---- Runs in which time never decreases --------------------------------------------------

  ghost predicate TimesForward(d: Desk) {
    Nondecreasing(TimesOf(d.history))
  }

  /** If the message is a SET_TIME, it sets no earlier time than the current one. */
  predicate SetsNoEarlier(c: Control, d: Delivery) {
    d.bytes != [] ==>
      match Deserialize(d.bytes)
      case Ok(m) => m.body.SetTime? ==> c.time.Total() <= Time(m.body.sec, m.body.nsec).Total()
      case Err(_) => true
  }

  /** Every SET_TIME that a pass serves sets no earlier time than is current then. */
  ghost predicate SweepForward(d: Desk, i: nat, revents: seq<Revents>, inbox: map<Conn, Delivery>)
    requires i <= |d.live| <= |revents|
    decreases |d.live| - i
  {
    i == |d.live| ||
    if revents[i].gone then SweepForward(CloseAt(d, i), i, revents, inbox)
    else if revents[i].readable then
      var (h, keep) := HandleAt(d, i, inbox);
      && SetsNoEarlier(d.control, Delivered(inbox, d.live[i]))
      && (if keep then SweepForward(h, i + 1, revents, inbox) else SweepForward(CloseAt(h, i), i, revents, inbox))
    else SweepForward(d, i + 1, revents, inbox)
  }

  /** If the clock has moved, the new time does not run over the top of int64_t. */
  ghost predicate TickForward(d: Desk, now: Reading) {
    var delta := now.Total() - d.control.lastTick.Total();
    delta > 0 ==> d.control.time.Total() + delta < TWO63
  }

  ghost predicate TurnForward(d: Desk, t: Turn)
    requires Sized(t) && |d.live| <= CLIENT_LIMIT
  {
    t.Polled? ==>
      var a := Accept(d, t.incoming);
      SweepForward(a, 0, t.revents, t.inbox) && TickForward(Sweep(a, 0, t.revents, t.inbox), t.now)
  }

  ghost predicate LoopForward(d: Desk, turns: seq<Turn>)
    requires (forall i | 0 <= i < |turns| :: Sized(turns[i])) && |d.live| <= CLIENT_LIMIT
    decreases |turns|
  {
    turns == [] || turns[0].PollFailed? ||
    (TurnForward(d, turns[0]) && LoopForward(TakeTurn(d, turns[0]), turns[1..]))
  }

  lemma AnnounceForward(d: Desk, c: Control, events: seq<Event>)
    requires HistoryInv(d)
    ensures TimesForward(Announce(d, c, events)) <==>
            TimesForward(d) && (events != [] && events[0].Published? ==> d.control.time.Total() <= c.time.Total())
  {
    hide TimeInv, PublishedTimes;
    var d' := Announce(d, c, events);
    var times, times' := TimesOf(d.history), TimesOf(d'.history);
    if events != [] && events[0].Published? {
      assert times' == times + [c.time];
      OneMoreTime(times, c.time);
    } else {
      assert d'.history == d.history;
    }
  }

  lemma OneMoreTime(times: seq<Time>, time: Time)
    requires times != []
    ensures Nondecreasing(times + [time]) <==>
            Nondecreasing(times) && times[|times| - 1].Total() <= time.Total()
  {
    var all := times + [time];
    assert forall i | 0 <= i < |times| :: all[i] == times[i];
    assert all[|times|] == time;
  }

  lemma HandleForward(d: Desk, i: nat, inbox: map<Conn, Delivery>)
    requires DeskInv(d) && i < |d.live|
    ensures TimesForward(HandleAt(d, i, inbox).0) <==>
            TimesForward(d) && SetsNoEarlier(d.control, Delivered(inbox, d.live[i]))
  {
    hide Deserialize, Handle, HistoryInv, TimesForward, Announce;
    var delivery := Delivered(inbox, d.live[i]);
    HandleIsEffect(d.control, d.live[i], delivery);
    var out := Handle(d.control, d.live[i], delivery);
    AnnounceForward(d, out.control, out.events);
  }

  lemma {:induction false} SweepForwardExactly(d: Desk, i: nat, revents: seq<Revents>, inbox: map<Conn, Delivery>)
    requires i <= |d.live| <= |revents| && DeskInv(d)
    ensures TimesForward(Sweep(d, i, revents, inbox)) <==> TimesForward(d) && SweepForward(d, i, revents, inbox)
    decreases |d.live| - i
  {
    if i < |d.live| {
      hide DeskInv, HandleAt, CloseAt, SetsNoEarlier, TimesForward, Delivered, Sweep, SweepForward;
      if revents[i].gone {
        CloseKeepsTimes(d, i);
        SweepForwardExactly(CloseAt(d, i), i, revents, inbox);
      } else if revents[i].readable {
        var h, keep := HandleAt(d, i, inbox).0, HandleAt(d, i, inbox).1;
        HandleKeepsDesk(d, i, inbox);
        HandleForward(d, i, inbox);
        if !keep {
          CloseKeepsTimes(h, i);
        }
        SweepForwardExactly(if keep then h else CloseAt(h, i), if keep then i + 1 else i, revents, inbox);
      } else {
        SweepForwardExactly(d, i + 1, revents, inbox);
      }
      SweepStep(d, i, revents, inbox);
      SweepForwardStep(d, i, revents, inbox);
    }
  }

  lemma SweepStep(d: Desk, i: nat, revents: seq<Revents>, inbox: map<Conn, Delivery>)
    requires i < |d.live| <= |revents|
    ensures var (h, keep) := HandleAt(d, i, inbox);
            Sweep(d, i, revents, inbox) ==
            if revents[i].gone then Sweep(CloseAt(d, i), i, revents, inbox)
            else if !revents[i].readable then Sweep(d, i + 1, revents, inbox)
            else if keep then Sweep(h, i + 1, revents, inbox)
            else Sweep(CloseAt(h, i), i, revents, inbox)
  {
    hide HandleAt, CloseAt;
  }

  lemma SweepForwardStep(d: Desk, i: nat, revents: seq<Revents>, inbox: map<Conn, Delivery>)
    requires i < |d.live| <= |revents|
    ensures var (h, keep) := HandleAt(d, i, inbox);
            SweepForward(d, i, revents, inbox) <==>
            if revents[i].gone then SweepForward(CloseAt(d, i), i, revents, inbox)
            else if !revents[i].readable then SweepForward(d, i + 1, revents, inbox)
            else SetsNoEarlier(d.control, Delivered(inbox, d.live[i])) &&
                 if keep then SweepForward(h, i + 1, revents, inbox) else SweepForward(CloseAt(h, i), i, revents, inbox)
  {
    hide HandleAt, CloseAt, SetsNoEarlier, Delivered;
  }

  lemma CloseKeepsTimes(d: Desk, i: nat)
    requires DeskInv(d) && i < |d.live|
    ensures DeskInv(CloseAt(d, i)) && (TimesForward(CloseAt(d, i)) <==> TimesForward(d))
  {
    hide DeskInv;
    CloseKeepsDesk(d, i);
  }

  lemma TickForwardExactly(d: Desk, now: Reading, living: set<nat>)
    requires HistoryInv(d)
    ensures TimesForward(Tick(d, now, living)) <==> TimesForward(d) && TickForward(d, now)
  {
    hide NsAdd, HistoryInv, TimesForward, Reaped;
    if now.Total() > d.control.lastTick.Total() {
      TickAdvancesExactly(d, now, living);
      var c := Tick(d, now, living).control;
      AnnounceForward(d, c, [Published(c.time)]);
    }
  }

  lemma TurnForwardExactly(d: Desk, t: Turn)
    requires Sized(t) && DeskInv(d)
    ensures TimesForward(TakeTurn(d, t)) <==> TimesForward(d) && TurnForward(d, t)
  {
    if t.Polled? {
      hide Tick, Sweep, SweepForward, TickForward, HistoryInv, ControlInv;
      var a := Accept(d, t.incoming);
      AcceptKeepsDesk(d, t.incoming);
      SweepKeepsDesk(a, 0, t.revents, t.inbox);
      SweepForwardExactly(a, 0, t.revents, t.inbox);
      TickForwardExactly(Sweep(a, 0, t.revents, t.inbox), t.now, t.living);
    }
  }

  lemma {:induction false} LoopForwardExactly(d: Desk, turns: seq<Turn>)
    requires (forall i | 0 <= i < |turns| :: Sized(turns[i])) && DeskInv(d)
    ensures TimesForward(Loop(d, turns)) <==> TimesForward(d) && LoopForward(d, turns)
    decreases |turns|
  {
    if turns != [] && !turns[0].PollFailed? {
      hide TurnForward, TimesForward, TakeTurn, HistoryInv, ControlInv, Conserved;
      TurnForwardExactly(d, turns[0]);
      TurnKeepsDesk(d, turns[0]);
      LoopForwardExactly(TakeTurn(d, turns[0]), turns[1..]);
    }
  }

  /** In a run from start the published times never decrease exactly when every SET_TIME served sets
      no earlier time than is current then and no tick runs over the top of int64_t. */
  lemma TimesForwardExactly(now: Reading, turns: seq<Turn>)
    requires forall i | 0 <= i < |turns| :: Sized(turns[i])
    ensures Nondecreasing(TimesOf(Loop(Opened(now), turns).history)) <==> LoopForward(Opened(now), turns)
  {
    hide Loop, LoopForward, DeskInv;
    OpenedKeepsDesk(now);
    LoopForwardExactly(Opened(now), turns);
  }

  // ---- Closing ---------------------------------------------------------------------------

  lemma OnceIsOnce(s: seq<Conn>, i: nat, j: nat)
    requires i < j < |s| && s[i] == s[j]
    ensures multiset(s)[s[i]] >= 2
  {
    assert s == s[..j] + [s[j]] + s[j + 1..];
    assert s[..j][i] == s[i];
  }

  lemma {:induction false} CountsAtMostOne(s: seq<Conn>, conn: Conn)
    requires NoDuplicates(s)
    ensures multiset(s)[conn] <= 1
  {
    if s != [] {
      var last := |s| - 1;
      CountsAtMostOne(s[..last], conn);
      assert s == s[..last] + [s[last]];
    }
  }

  lemma Rearranged(s: seq<Conn>, t: seq<Conn>)
    requires multiset(s) == multiset(t) && NoDuplicates(t)
    ensures NoDuplicates(s) && forall conn :: conn in t <==> conn in s
  {
    if i, j :| 0 <= i < j < |s| && s[i] == s[j] {
      OnceIsOnce(s, i, j);
      CountsAtMostOne(t, s[i]);
    }
    assert forall conn :: conn in t <==> conn in multiset(s);
  }

  lemma ConservedOnce(d: Desk)
    requires DeskInv(d) && NoDuplicates(d.accepted)
    ensures NoDuplicates(d.live + d.closed) && NoDuplicates(Shutdown(d).closed)
    ensures forall conn :: conn in d.accepted <==> conn in d.live + d.closed
  {
    hide ControlInv, HistoryInv, NoDuplicates;
    Rearranged(d.live + d.closed, d.accepted);
    Rearranged(d.closed + d.live, d.accepted);
  }

  /** In every run that never accepts the same connection twice, none is closed twice, and none is
      both live and closed. */
  lemma ClosedAtMostOnce(now: Reading, turns: seq<Turn>)
    requires forall i | 0 <= i < |turns| :: Sized(turns[i])
    requires NoDuplicates(Loop(Opened(now), turns).accepted)
    ensures var d := Loop(Opened(now), turns);
            && NoDuplicates(d.live + d.closed)
            && NoDuplicates(Shutdown(d).closed)
            && forall conn :: conn in d.accepted <==> conn in d.live + d.closed
  {
    hide DeskInv, NoDuplicates, Loop;
    var d := Loop(Opened(now), turns);
    OpenedKeepsDesk(now);
    LoopKeepsDesk(Opened(now), turns);
    ConservedOnce(d);
  }
}
