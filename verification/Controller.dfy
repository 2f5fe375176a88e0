/**
  The controller of src/controller/main.c and time-manager.c as functions on
  values: one request, the pass over the client table, and whole runs of the
  main loop. Module Server holds the code itself.

  Poll results, bytes read, clock readings and process liveness are inputs.
  A connection is named by a number that is never reused, so the same file
  descriptor reopened later is a different connection.
 */
module Controller {
  import opened Basics
  import opened TimeManager
  import opened ProcessTable
  import opened Sbp

  const CLIENT_LIMIT: nat := 64
  const EPOCH := Time(1735689600, 0)

  type Conn = nat

  /** A reading of CLOCK_MONOTONIC. */
  type Reading = t: Time | t.Normalized() && 0 <= t.sec && InInt64(t.Total()) witness Time(0, 0)

  /** What one `read` can bring: no more than the frame buffer holds. */
  type Input = bytes: seq<Byte> | |bytes| <= HEADER_SIZE + MAX_PAYLOAD

  /** What reading from a connection gives, empty for an error or end of file, and whether a
      reply can be written to it. */
  datatype Delivery = Delivery(bytes: Input, sendOk: bool)

  const NOTHING := Delivery([], false)

  /** What the controller does that others can see, in program order. */
  datatype Event = Published(time: Time) | SeedStored(seed: U64) | Acked(conn: Conn, frame: seq<Byte>)

  /** The time manager, the process table and `last_tick`. `setTime` and `setTick` are history:
      the last value set and the `lastTick` in force then. */
  datatype Control = Control(time: Time, seed: U64, slots: seq<Slot>, lastTick: Reading,
                             setTime: Time, setTick: Reading)

  datatype Outcome = Outcome(control: Control, events: seq<Event>, keep: bool)

  function SetTo(c: Control, ts: Time): Control {
    c.(time := ts, setTime := ts, setTick := c.lastTick)
  }

  /** What a request does to the controller's state. */
  function Effect(c: Control, body: Body): Control {
    match body
    case SetTime(sec, nsec) => SetTo(c, Time(sec, nsec))
    case SetSeed(seed) => c.(seed := seed)
    case Register(pid, _) => c.(slots := Registered(c.slots, pid))
    case _ => c
  }

  /** The reply: an ACK with the flags of the request. */
  function AckFrame(flags: U16): seq<Byte> {
    Serialize(Message(VERSION, flags, Ack))
  }

  /** The stores to shared memory that announce the effect. */
  function Announcement(body: Body): seq<Event> {
    match body
    case SetTime(sec, nsec) => [Published(Time(sec, nsec))]
    case SetSeed(seed) => [SeedStored(seed)]
    case _ => []
  }

  /** One request: the new state, the visible events, and whether the client stays connected. */
  function Handle(c: Control, conn: Conn, d: Delivery): Outcome {
    if d.bytes == [] then Outcome(c, [], false)
    else
      match Deserialize(d.bytes)
      case Err(_) => Outcome(c, [], false)
      case Ok(m) =>
        if m.body.Ack? || m.body.Other? then Outcome(c, [], false)
        else
          var ack := if d.sendOk then [Acked(conn, AckFrame(m.flags))] else [];
          Outcome(Effect(c, m.body), Announcement(m.body) + ack, d.sendOk)
  }

  // ---- The client table -------------------------------------------------------------

  /** POLLERR or POLLHUP, and POLLIN. */
  datatype Revents = Revents(gone: bool, readable: bool)

  /** The controller with its live clients in table order. `closed`, `accepted` and `events` record
      what happened so far, and `history` the controller's state at each publication of a time. */
  datatype Desk = Desk(control: Control, live: seq<Conn>, closed: seq<Conn>, accepted: seq<Conn>,
                       events: seq<Event>, history: seq<Control>)

  function Announce(d: Desk, c: Control, events: seq<Event>): Desk {
    d.(control := c, events := d.events + events,
       history := d.history + (if events != [] && events[0].Published? then [c] else []))
  }

  /** Swap-remove: the last client takes the place of client `i`. */
  function RemoveAt(live: seq<Conn>, i: nat): seq<Conn>
    requires i < |live|
  {
    live[i := live[|live| - 1]][..|live| - 1]
  }

  function CloseAt(d: Desk, i: nat): (d': Desk)
    requires i < |d.live|
    ensures |d'.live| == |d.live| - 1
  {
    d.(live := RemoveAt(d.live, i), closed := d.closed + [d.live[i]])
  }

  function Delivered(inbox: map<Conn, Delivery>, conn: Conn): Delivery {
    if conn in inbox then inbox[conn] else NOTHING
  }

  function HandleAt(d: Desk, i: nat, inbox: map<Conn, Delivery>): (r: (Desk, bool))
    requires i < |d.live|
    ensures r.0.live == d.live
  {
    var out := Handle(d.control, d.live[i], Delivered(inbox, d.live[i]));
    (Announce(d, out.control, out.events), out.keep)
  }

  /** The pass over the clients from index `i` on. The poll results are those of the table before
      the pass, looked up by index, so after a removal the client moved to index `i` is judged by
      the result of the one removed. */
  function Sweep(d: Desk, i: nat, revents: seq<Revents>, inbox: map<Conn, Delivery>): (d': Desk)
    requires i <= |d.live| <= |revents|
    ensures |d'.live| <= |d.live|
    decreases |d.live| - i
  {
    if i == |d.live| then d
    else if revents[i].gone then Sweep(CloseAt(d, i), i, revents, inbox)
    else if revents[i].readable then
      var (h, keep) := HandleAt(d, i, inbox);
      if keep then Sweep(h, i + 1, revents, inbox) else Sweep(CloseAt(h, i), i, revents, inbox)
    else Sweep(d, i + 1, revents, inbox)
  }

  // ---- The main loop -------------------------------------------------------------------

  function Accept(d: Desk, incoming: Option<Conn>): Desk {
    match incoming
    case None => d
    case Some(conn) =>
      var a := d.(accepted := d.accepted + [conn]);
      if |d.live| < CLIENT_LIMIT then a.(live := d.live + [conn]) else a.(closed := d.closed + [conn])
  }

  function Tick(d: Desk, now: Reading, living: set<nat>): Desk {
    var delta := now.Total() - d.control.lastTick.Total();
    if delta > 0 then
      var time := NsAdd(d.control.time, delta);
      Announce(d, d.control.(time := time, slots := Reaped(d.control.slots, living), lastTick := now),
               [Published(time)])
    else d
  }

  /** What one iteration of the loop meets: a poll interrupted by a signal, a poll that failed, or
      results for the table, of which the code reads as many as there are clients. */
  datatype Turn =
    | Interrupted
    | PollFailed
    | Polled(incoming: Option<Conn>, revents: seq<Revents>, inbox: map<Conn, Delivery>, now: Reading, living: set<nat>)

  predicate Sized(t: Turn) {
    t.Polled? ==> |t.revents| == CLIENT_LIMIT
  }

  function TakeTurn(d: Desk, t: Turn): (d': Desk)
    requires Sized(t) && |d.live| <= CLIENT_LIMIT
    ensures |d'.live| <= CLIENT_LIMIT
  {
    match t
    case Polled(incoming, revents, inbox, now, living) =>
      Tick(Sweep(Accept(d, incoming), 0, revents, inbox), now, living)
    case _ => d
  }

  /** The loop over a sequence of turns; a failed poll ends it early. */
  function Loop(d: Desk, turns: seq<Turn>): Desk
    requires (forall i | 0 <= i < |turns| :: Sized(turns[i])) && |d.live| <= CLIENT_LIMIT
    decreases |turns|
  {
    if turns == [] || turns[0].PollFailed? then d
    else Loop(TakeTurn(d, turns[0]), turns[1..])
  }

  function Shutdown(d: Desk): Desk {
    d.(live := [], closed := d.closed + d.live)
  }

  /** After `linbox_time_manager_open` on a fresh segment and the first clock reading. */
  function Opened(now: Reading): Desk {
    var control := Control(EPOCH, 0, EmptyTable(), now, EPOCH, now);
    Desk(control, [], [], [], [Published(EPOCH), SeedStored(0)], [control])
  }
}
