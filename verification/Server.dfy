/**
  The controller's code: the shared segment and the server object whose methods
  update process slots, client table and virtual time in place. Each method is
  proved to do what module Controller says.
 */
module Server {
  import opened Basics
  import opened TimeManager
  import opened ProcessTable
  import opened Sbp
  import opened SbpBuffers
  import opened Controller
  import Seqlock

  /** The parts of `linbox_shm_layout_t` the controller writes, after `linbox_shm_init_layout`. */
  class Segment {
    var timeSeq: nat
    var virtualTime: Time
    var prngSeed: U64
    const slots: array<Slot>

    constructor ()
      ensures timeSeq == 0 && virtualTime == Seqlock.ZERO && prngSeed == 0
      ensures slots[..] == EmptyTable() && fresh(slots)
    {
      timeSeq, virtualTime, prngSeed := 0, Time(0, 0), 0;
      slots := new Slot[SLOT_COUNT](_ => FREE);
    }

    /** `linbox_shm_write_time` with nobody in between: the counter ends two further on. */
    method WriteTime(ts: Time)
      modifies this`timeSeq, this`virtualTime
      ensures Seqlock.Memory(timeSeq, virtualTime) == Seqlock.Memory((old(timeSeq) + 2) % 0x1_0000_0000, ts)
    {
      var seq0 := timeSeq;
      timeSeq := (seq0 + 1) % Seqlock.WRAP;
      virtualTime := ts;
      timeSeq := (seq0 + 2) % Seqlock.WRAP;
    }
  }

  ghost function WithAck(d: Desk, conn: Conn, flags: U16, sendOk: bool): Desk {
    d.(events := d.events + (if sendOk then [Acked(conn, AckFrame(flags))] else []))
  }

  lemma AnnounceThenAck(d: Desk, c: Control, events: seq<Event>, conn: Conn, flags: U16, sendOk: bool)
    ensures WithAck(Announce(d, c, events), conn, flags, sendOk) ==
            Announce(d, c, events + (if sendOk then [Acked(conn, AckFrame(flags))] else []))
  {
    assert d.events + events + [Acked(conn, AckFrame(flags))] == d.events + (events + [Acked(conn, AckFrame(flags))]);
    assert d.events + events + [] == d.events + events && events + [] == events;
  }

  lemma NothingAnnounced(d: Desk, c: Control)
    ensures Announce(d, c, []) == d.(control := c)
  {
    assert d.events + [] == d.events && d.history + [] == d.history;
  }

  class Server {
    const shm: Segment
    var current: Time
    var seed: U64
    const clientFds: array<Conn>
    var clientCount: nat
    var lastTick: Reading
    ghost var setTime: Time
    ghost var setTick: Reading
    ghost var closed: seq<Conn>
    ghost var accepted: seq<Conn>
    ghost var events: seq<Event>
    ghost var history: seq<Control>

    /** Readers of the segment see the current time and seed, and no write is in flight. */
    ghost predicate Valid()
      reads this, shm
    {
      && clientFds.Length == CLIENT_LIMIT && clientCount <= CLIENT_LIMIT
      && shm.slots.Length == SLOT_COUNT
      && shm.virtualTime == current && shm.prngSeed == seed && shm.timeSeq % 2 == 0
    }

    ghost function View(): Desk
      requires Valid()
      reads this, shm, shm.slots, clientFds
    {
      Desk(Control(current, seed, shm.slots[..], lastTick, setTime, setTick),
           clientFds[..clientCount], closed, accepted, events, history)
    }

    constructor Open(now: Reading)
      ensures Valid() && View() == Opened(now)
      ensures shm.virtualTime == current && shm.prngSeed == seed && shm.timeSeq % 2 == 0
      ensures fresh(shm) && fresh(shm.slots) && fresh(clientFds)
    {
      shm := new Segment();
      current, seed := Time(1735689600, 0), 0;
      clientFds := new Conn[CLIENT_LIMIT](_ => 0);
      clientCount := 0;
      lastTick, setTime, setTick := now, EPOCH, now;
      closed, accepted, events := [], [], [];
      new;
      shm.WriteTime(current);
      events := events + [Published(current)];
      shm.prngSeed := seed;
      events := events + [SeedStored(seed)];
      history := [View().control];
    }

    method SetTime(ts: Time)
      requires Valid()
      modifies this`current, this`setTime, this`setTick, this`events, this`history, shm`timeSeq, shm`virtualTime
      ensures Valid()
      ensures shm.virtualTime == current && shm.prngSeed == seed && shm.timeSeq % 2 == 0
      ensures View() == Announce(old(View()), SetTo(old(View()).control, ts), [Published(ts)])
    {
      current := ts;
      shm.WriteTime(current);
      setTime, setTick := ts, lastTick;
      events := events + [Published(ts)];
      history := history + [View().control];
    }

    method SetSeed(value: U64)
      requires Valid()
      modifies this`seed, this`events, shm`prngSeed
      ensures Valid()
      ensures shm.virtualTime == current && shm.prngSeed == seed && shm.timeSeq % 2 == 0
      ensures View() == Announce(old(View()), old(View()).control.(seed := value), [SeedStored(value)])
    {
      seed := value;
      shm.prngSeed := value;
      events := events + [SeedStored(value)];
    }

    /** `send_ack`: the reply carries the request's flags; false if it could not be written. */
    method SendAck(conn: Conn, flags: U16, sendOk: bool) returns (ok: bool)
      requires Valid()
      modifies this`events
      ensures Valid() && ok == sendOk
      ensures View() == WithAck(old(View()), conn, flags, sendOk)
    {
      var frame := new Byte[HEADER_SIZE + MAX_PAYLOAD](_ => 0);
      var status, len := SerializeMessage(Some(Message(VERSION, flags, Ack)), frame, HEADER_SIZE + MAX_PAYLOAD, true);
      if status != Success {
        return false;
      }
      ok := sendOk;
      if ok {
        events := events + [Acked(conn, frame[..len])];
      }
    }

    method HandleClientMessage(conn: Conn, d: Delivery) returns (ok: bool)
      requires Valid()
      modifies this`current, this`seed, this`setTime, this`setTick, this`events, this`history
      modifies shm`timeSeq, shm`virtualTime, shm`prngSeed, shm.slots
      ensures Valid()
      ensures shm.virtualTime == current && shm.prngSeed == seed && shm.timeSeq % 2 == 0
      ensures var out := Handle(old(View()).control, conn, d);
              && View() == Announce(old(View()), out.control, out.events)
              && ok == out.keep
    {
      hide Deserialize, Registered, SetTo, Announce;
      ghost var d0 := View();
      NothingAnnounced(d0, d0.control);
      if d.bytes == [] {
        return false;
      }
      var frame := new Byte[|d.bytes|](i requires 0 <= i < |d.bytes| => d.bytes[i]);
      assert frame[..|d.bytes|] == d.bytes;
      var rc := DeserializeMessage(frame, |d.bytes|, true);
      if rc.Err? {
        return false;
      }
      var msg := rc.value;
      NothingAnnounced(d0, Effect(d0.control, msg.body));
      AnnounceThenAck(d0, Effect(d0.control, msg.body), Announcement(msg.body), conn, msg.flags, d.sendOk);
      match msg.body {
        case Hello =>
          ok := SendAck(conn, msg.flags, d.sendOk);
        case SetTime(sec, nsec) =>
          SetTime(Time(sec, nsec));
          ok := SendAck(conn, msg.flags, d.sendOk);
        case SetSeed(value) =>
          SetSeed(value);
          ok := SendAck(conn, msg.flags, d.sendOk);
        case Register(pid, _) =>
          RegisterProcess(shm.slots, pid);
          ok := SendAck(conn, msg.flags, d.sendOk);
        case _ =>
          return false;
      }
    }

    method AcceptClient(incoming: Option<Conn>)
      requires Valid()
      modifies this`clientCount, this`closed, this`accepted, clientFds
      ensures Valid() && View() == Accept(old(View()), incoming)
    {
      if incoming.None? {
        return;
      }
      accepted := accepted + [incoming.value];
      if clientCount < CLIENT_LIMIT {
        clientFds[clientCount] := incoming.value;
        clientCount := clientCount + 1;
      } else {
        closed := closed + [incoming.value];
      }
    }

    /** `close(client_fds[i])` and the swap with the last entry. */
    method CloseClient(i: nat)
      requires Valid() && i < clientCount
      modifies this`clientCount, this`closed, clientFds
      ensures Valid() && View() == CloseAt(old(View()), i) && clientCount == old(clientCount) - 1
    {
      closed := closed + [clientFds[i]];
      clientFds[i] := clientFds[clientCount - 1];
      clientCount := clientCount - 1;
    }

    method ServeClients(revents: seq<Revents>, inbox: map<Conn, Delivery>)
      requires Valid() && |revents| == CLIENT_LIMIT
      modifies this`current, this`seed, this`setTime, this`setTick, this`events, this`history
      modifies this`clientCount, this`closed
      modifies shm`timeSeq, shm`virtualTime, shm`prngSeed, shm.slots, clientFds
      ensures Valid() && View() == Sweep(old(View()), 0, revents, inbox)
      ensures shm.virtualTime == current && shm.prngSeed == seed && shm.timeSeq % 2 == 0
    {
      hide Handle, RemoveAt;
      var i: nat := 0;
      while i < clientCount
        invariant Valid() && i <= clientCount
        invariant Sweep(View(), i, revents, inbox) == Sweep(old(View()), 0, revents, inbox)
        decreases clientCount - i
      {
        if revents[i].gone {
          CloseClient(i);
          continue;
        }
        if revents[i].readable {
          ghost var d := View();
          var ok := HandleClientMessage(clientFds[i], Delivered(inbox, clientFds[i]));
          assert (View(), ok) == HandleAt(d, i, inbox);
          if !ok {
            CloseClient(i);
            continue;
          }
        }
        i := i + 1;
      }
    }

    method TickTo(now: Reading, living: set<nat>)
      requires Valid()
      modifies this`current, this`lastTick, this`events, this`history, shm`timeSeq, shm`virtualTime, shm.slots
      ensures Valid() && View() == Tick(old(View()), now, living)
      ensures shm.virtualTime == current && shm.prngSeed == seed && shm.timeSeq % 2 == 0
    {
      hide NsAdd, Wrap64, Reaped;
      var delta := (now.sec - lastTick.sec) * NS_PER_SEC + (now.nsec - lastTick.nsec);
      if delta > 0 {
        current := NsAdd(current, delta);
        shm.WriteTime(current);
        events := events + [Published(current)];
        ReapDeadProcesses(shm.slots, living);
        lastTick := now;
        history := history + [View().control];
      }
    }

    /** One iteration of the main loop after its poll has returned. */
    method Iterate(t: Turn)
      requires Valid() && Sized(t) && t.Polled?
      modifies this, shm`timeSeq, shm`virtualTime, shm`prngSeed, shm.slots, clientFds
      ensures Valid() && View() == TakeTurn(old(View()), t)
    {
      hide Sweep, Tick, Accept;
      AcceptClient(t.incoming);
      ServeClients(t.revents, t.inbox);
      TickTo(t.now, t.living);
    }

    /** The main loop over the turns that come before a stop signal, and the shutdown after it. */
    method Serve(turns: seq<Turn>)
      requires Valid() && forall i | 0 <= i < |turns| :: Sized(turns[i])
      modifies this, shm`timeSeq, shm`virtualTime, shm`prngSeed, shm.slots, clientFds
      ensures Valid() && View() == Shutdown(Loop(old(View()), turns))
      ensures shm.virtualTime == current && shm.prngSeed == seed && shm.timeSeq % 2 == 0
    {
      hide Sweep, Tick, Accept;
      var k: nat := 0;
      while k < |turns|
        invariant Valid() && k <= |turns|
        invariant Loop(View(), turns[k..]) == Loop(old(View()), turns)
      {
        match turns[k] {
          case Interrupted =>
          case PollFailed => break;
          case Polled(_, _, _, _, _) => Iterate(turns[k]);
        }
        k := k + 1;
      }
      CloseAll();
    }

    method CloseAll()
      requires Valid()
      modifies this`clientCount, this`closed
      ensures Valid() && View() == Shutdown(old(View()))
    {
      ghost var d := View();
      for i := 0 to clientCount
        invariant Valid() && View() == d.(closed := d.closed + d.live[..i])
      {
        closed := closed + [clientFds[i]];
      }
      clientCount := 0;
    }
  }
}
