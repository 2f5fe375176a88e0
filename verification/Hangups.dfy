/**
  Whom a pass over the client table closes and whom it reads from. The pass
  looks poll results up by table index while it moves clients around, so a
  client that was moved is judged by the result of the one it replaces. This
  module says exactly when that makes no difference.
 */
module Hangups {
  import opened Basics
  import opened Sbp
  import opened Controller

  /** What was read is a request, and its ACK can be written. */
  predicate Served(d: Delivery) {
    d.bytes != [] && d.sendOk &&
    match Deserialize(d.bytes)
    case Ok(m) => !m.body.Ack? && !m.body.Other?
    case Err(_) => false
  }

  lemma KeptExactlyWhenServed(c: Control, conn: Conn, d: Delivery)
    ensures Handle(c, conn, d).keep == Served(d)
  {
    hide Deserialize;
  }

  /** The clients, their poll results, and what reading from each brings. */
  datatype Pass = Pass(live: seq<Conn>, revents: seq<Revents>, inbox: map<Conn, Delivery>) {

    ghost predicate Valid() {
      |live| <= |revents| && NoDuplicates(live)
    }

    predicate Good(i: nat)
      requires i < |live|
    {
      Served(Delivered(inbox, live[i]))
    }

    /** Client `i` hung up, or has sent a message that fails. */
    predicate Leaves(i: nat)
      requires i < |live| <= |revents|
    {
      revents[i].gone || (revents[i].readable && !Good(i))
    }

    /** Reading from client `i` would not tell what its own result tells: it hung up and a good
        message is waiting, or it was not reported and no good message comes. */
    predicate Misread(i: nat)
      requires i < |live| <= |revents|
    {
      if revents[i].gone then Good(i) else !revents[i].readable && !Good(i)
    }

    /** How many of the clients `from` to `to` should stay. */
    function Staying(from: nat, to: nat): (n: nat)
      requires from <= to <= |live| <= |revents|
      ensures n <= to - from
    {
      if from == to then 0 else Staying(from, to - 1) + (if Leaves(to - 1) then 0 else 1)
    }

    /** With `k` clients that should stay, none of the first `k` hung up, and a client behind them
        may be one that reading misjudges only if place `k` hung up and all leave up to it. */
    predicate Orderly()
      requires |live| <= |revents|
    {
      var k := Staying(0, |live|);
      && (forall i | 0 <= i < k :: !revents[i].gone)
      && (forall j | k <= j < |live| && Misread(j) :: revents[k].gone && AllLeave(k, j + 1))
    }

    predicate AllLeave(from: nat, to: nat)
      requires from <= to <= |live| <= |revents|
    {
      forall i | from <= i < to :: Leaves(i)
    }

    lemma {:induction false} StayingBounds(from: nat, to: nat)
      requires from <= to <= |live| <= |revents|
      ensures Staying(from, to) == 0 <==> AllLeave(from, to)
      ensures Staying(from, to) == to - from <==> forall i | from <= i < to :: !Leaves(i)
    {
      if from < to {
        StayingBounds(from, to - 1);
      }
    }

    lemma {:induction false} StayingSplits(from: nat, mid: nat, to: nat)
      requires from <= mid <= to <= |live| <= |revents|
      ensures Staying(from, to) == Staying(from, mid) + Staying(mid, to)
    {
      if mid < to {
        StayingSplits(from, mid, to - 1);
      }
    }
  }

  /** A client is closed exactly when it hung up or its own message fails. */
  ghost predicate ChargedToTheRight(p: Pass, d': Desk)
    requires |p.live| <= |p.revents|
  {
    forall i | 0 <= i < |p.live| :: p.live[i] in d'.live <==> !p.Leaves(i)
  }

  // ---- Closing ---------------------------------------------------------------------------

  /** Reaching a hangup closes every client from that index on, whatever their own results say:
      each client moved into the slot meets the same result again. */
  lemma {:induction false} HangupClosesTheRest(d: Desk, i: nat, revents: seq<Revents>, inbox: map<Conn, Delivery>)
    requires i < |d.live| <= |revents| && revents[i].gone
    ensures Sweep(d, i, revents, inbox).live == d.live[..i]
    ensures Sweep(d, i, revents, inbox).control == d.control && Sweep(d, i, revents, inbox).events == d.events
    decreases |d.live| - i
  {
    var next := CloseAt(d, i);
    assert next.live[..i] == d.live[..i];
    if i < |next.live| {
      HangupClosesTheRest(next, i, revents, inbox);
    } else {
      assert next.live == d.live[..i];
    }
  }

  /** The part of the table already passed stays, and nobody comes back. */
  lemma {:induction false} SweepFrame(d: Desk, i: nat, revents: seq<Revents>, inbox: map<Conn, Delivery>)
    requires i <= |d.live| <= |revents|
    ensures d.live[..i] <= Sweep(d, i, revents, inbox).live
    ensures forall c | c in Sweep(d, i, revents, inbox).live :: c in d.live
    decreases |d.live| - i
  {
    if i < |d.live| {
      hide HandleAt;
      var h := HandleAt(d, i, inbox).0;
      if revents[i].gone {
        SweepFrame(CloseAt(d, i), i, revents, inbox);
      } else if revents[i].readable && !HandleAt(d, i, inbox).1 {
        SweepFrame(CloseAt(h, i), i, revents, inbox);
      } else {
        SweepFrame(if revents[i].readable then h else d, i + 1, revents, inbox);
      }
    }
  }

  /** The pass stands at place `i` of the first `m`, where client `o` now is: still client `i`, or
      one moved there after client `i` failed. */
  ghost predicate StandsAt(p: Pass, d: Desk, i: nat, m: nat, o: nat) {
    && p.Valid() && i < m == |d.live| <= |p.live| && NoDuplicates(d.live)
    && (o == i || (m <= o < |p.live| && p.revents[i].readable && !p.revents[i].gone))
    && d.live[i] == p.live[o]
    && (forall j | i < j < m :: d.live[j] == p.live[j])
  }

  ghost predicate RestCharged(p: Pass, d': Desk, i: nat, m: nat, o: nat)
    requires p.Valid() && i < m <= |p.live| && o < |p.live|
  {
    forall j | j == o || i < j < m :: p.live[j] in d'.live <==> !p.Leaves(j)
  }

  function RestStaying(p: Pass, i: nat, m: nat, o: nat): (n: nat)
    requires i < m <= |p.live| <= |p.revents| && o < |p.live|
    ensures n <= m - i
  {
    p.Staying(i + 1, m) + (if p.Leaves(o) then 0 else 1)
  }

  /** `Orderly` for the rest of the table. */
  predicate RestOrderly(p: Pass, i: nat, m: nat, o: nat)
    requires i < m <= |p.live| <= |p.revents| && o < |p.live|
  {
    var k := i + RestStaying(p, i, m, o);
    && (forall j | i <= j < k :: !p.revents[j].gone)
    && (o != i ==> !p.Misread(o))
    && (forall j | k <= j < m && (j == i ==> o == i) && p.Misread(j) :: p.revents[k].gone && p.AllLeave(k, j + 1))
  }

  lemma StandingAtHangup(p: Pass, d: Desk, i: nat, m: nat, o: nat)
    requires StandsAt(p, d, i, m, o) && p.revents[i].gone
    ensures RestCharged(p, Sweep(d, i, p.revents, p.inbox), i, m, o) <==> RestOrderly(p, i, m, o)
  {
    HangupClosesTheRest(d, i, p.revents, p.inbox);
    p.StayingBounds(i + 1, m);
    assert forall j | i <= j < m :: d.live[j] !in d.live[..i];
  }

  /** Client `o` is kept at place `i`. */
  lemma StandingAtKept(p: Pass, d: Desk, i: nat, m: nat, o: nat, d': Desk)
    requires StandsAt(p, d, i, m, o) && !p.revents[i].gone && (p.revents[i].readable ==> p.Good(o))
    requires d.live[..i + 1] <= d'.live
    requires i + 1 < m ==> (RestCharged(p, d', i + 1, m, i + 1) <==> RestOrderly(p, i + 1, m, i + 1))
    ensures RestCharged(p, d', i, m, o) <==> RestOrderly(p, i, m, o)
  {
    hide RestOrderly;
    assert p.live[o] in d'.live by {
      assert d'.live[i] == d.live[..i + 1][i];
    }
    KeptIsJudgedThere(p, i, m, o);
  }

  lemma KeptIsJudgedThere(p: Pass, i: nat, m: nat, o: nat)
    requires p.Valid() && i < m <= |p.live| && (o == i || m <= o < |p.live|)
    requires !p.revents[i].gone && (p.revents[i].readable ==> p.Good(o))
    requires o != i ==> p.revents[i].readable
    ensures RestOrderly(p, i, m, o) <==> !p.Leaves(o) && (i + 1 < m ==> RestOrderly(p, i + 1, m, i + 1))
  {
    hide NoDuplicates;
    if i + 1 < m {
      p.StayingSplits(i + 1, i + 2, m);
      OneMoreStaying(p, i + 1);
      assert !p.Leaves(o) ==> i + RestStaying(p, i, m, o) == i + 1 + RestStaying(p, i + 1, m, i + 1);
    }
    assert o != i && p.Leaves(o) ==> p.Misread(o);
  }

  lemma OneMoreStaying(p: Pass, i: nat)
    requires i < |p.live| <= |p.revents|
    ensures p.Staying(i, i + 1) == if p.Leaves(i) then 0 else 1
  {
    assert p.Staying(i, i) == 0;
  }

  /** Client `o` is closed at place `i`, and the last client takes the place. */
  lemma StandingAtFailed(p: Pass, d: Desk, i: nat, m: nat, o: nat, d': Desk)
    requires StandsAt(p, d, i, m, o) && !p.revents[i].gone && p.revents[i].readable && !p.Good(o)
    requires p.live[o] !in d'.live
    requires i + 1 < m ==> (RestCharged(p, d', i, m - 1, m - 1) <==> RestOrderly(p, i, m - 1, m - 1))
    ensures RestCharged(p, d', i, m, o) <==> RestOrderly(p, i, m, o)
  {
    if i + 1 < m {
      p.StayingSplits(i + 1, m - 1, m);
      LastIsJudgedThere(p, i, m, o);
    }
  }

  lemma LastIsJudgedThere(p: Pass, i: nat, m: nat, o: nat)
    requires p.Valid() && i + 1 < m <= |p.live| && (o == i || m <= o < |p.live|)
    requires p.revents[i].readable && !p.revents[i].gone && !p.Good(o)
    ensures RestOrderly(p, i, m, o) <==> p.Leaves(o) && RestOrderly(p, i, m - 1, m - 1)
  {
    hide NoDuplicates, Served;
    p.StayingSplits(i + 1, m - 1, m);
    var k := i + RestStaying(p, i, m, o);
    if p.Leaves(o) && p.Misread(m - 1) && RestOrderly(p, i, m, o) {
      assert p.AllLeave(k, m);
      p.StayingSplits(i + 1, k, m);
      p.StayingBounds(k, m);
      assert false;
    }
  }

  lemma {:induction false} RestChargedExactlyWhenOrderly(p: Pass, d: Desk, i: nat, m: nat, o: nat)
    requires StandsAt(p, d, i, m, o)
    ensures RestCharged(p, Sweep(d, i, p.revents, p.inbox), i, m, o) <==> RestOrderly(p, i, m, o)
    decreases m - i
  {
    hide RestCharged, RestOrderly, HandleAt;
    var d' := Sweep(d, i, p.revents, p.inbox);
    var h, keep := HandleAt(d, i, p.inbox).0, HandleAt(d, i, p.inbox).1;
    HandledAt(d, i, p.inbox);
    if p.revents[i].gone {
      StandingAtHangup(p, d, i, m, o);
    } else if p.revents[i].readable && !keep {
      var next := CloseAt(h, i);
      Closed(p, d, next, i);
      if i + 1 < m {
        RestChargedExactlyWhenOrderly(p, next, i, m - 1, m - 1);
      }
      SweepFrame(next, i, p.revents, p.inbox);
      StandingAtFailed(p, d, i, m, o, d');
    } else {
      var next := if p.revents[i].readable then h else d;
      if i + 1 < m {
        RestChargedExactlyWhenOrderly(p, next, i + 1, m, i + 1);
      }
      SweepFrame(next, i + 1, p.revents, p.inbox);
      StandingAtKept(p, d, i, m, o, d');
    }
  }

  lemma HandledAt(d: Desk, i: nat, inbox: map<Conn, Delivery>)
    requires i < |d.live|
    ensures HandleAt(d, i, inbox).1 == Served(Delivered(inbox, d.live[i]))
  {
    KeptExactlyWhenServed(d.control, d.live[i], Delivered(inbox, d.live[i]));
  }

  lemma Closed(p: Pass, d: Desk, next: Desk, i: nat)
    requires i < |d.live| && NoDuplicates(d.live) && next.live == RemoveAt(d.live, i)
    ensures NoDuplicates(next.live) && d.live[i] !in next.live
    ensures forall j | 0 <= j < |next.live| :: next.live[j] == d.live[if j == i then |d.live| - 1 else j]
  {}

  /** Over every table, poll result and message: a pass closes exactly the clients that hung up or
      whose own message fails exactly when the table is orderly for it. */
  lemma ChargedExactlyWhenOrderly(p: Pass, d: Desk)
    requires p.Valid() && d.live == p.live
    ensures ChargedToTheRight(p, Sweep(d, 0, p.revents, p.inbox)) <==> p.Orderly()
  {
    hide Sweep;
    var n := |p.live|;
    if n > 0 {
      RestChargedExactlyWhenOrderly(p, d, 0, n, 0);
      p.StayingSplits(0, 1, n);
      OneMoreStaying(p, 0);
    }
  }
  // ---- Hangups alone ----------------------------------------------------------------------

  /** Every client behind one that hung up has hung up too. */
  predicate GoneAreLast(revents: seq<Revents>, n: nat)
    requires n <= |revents|
  {
    forall i, j | 0 <= i < j < n :: revents[i].gone ==> revents[j].gone
  }

  /** Of the clients that have not hung up, none has sent a message that fails. */
  predicate MessagesAreGood(p: Pass)
    requires |p.live| <= |p.revents|
  {
    forall i | 0 <= i < |p.live| :: p.revents[i].readable && !p.revents[i].gone ==> p.Good(i)
  }

  lemma OrderlyExactlyWhenLast(p: Pass)
    requires p.Valid() && MessagesAreGood(p)
    ensures p.Orderly() <==> GoneAreLast(p.revents, |p.live|)
  {
    var n := |p.live|;
    var k := p.Staying(0, n);
    hide NoDuplicates;
    assert forall i | 0 <= i < n :: p.Leaves(i) == p.revents[i].gone;
    p.StayingSplits(0, k, n);
    p.StayingBounds(0, k);
    p.StayingBounds(k, n);
    if GoneAreLast(p.revents, n) {
      var h := FirstGone(p.revents, n);
      p.StayingSplits(0, h, n);
      p.StayingBounds(0, h);
      p.StayingBounds(h, n);
      assert h == k;
    }
  }

  lemma {:induction false} FirstGone(revents: seq<Revents>, n: nat) returns (h: nat)
    requires n <= |revents|
    ensures h <= n && (h < n ==> revents[h].gone) && forall i | 0 <= i < h :: !revents[i].gone
  {
    h := n;
    if n > 0 {
      var g := FirstGone(revents, n - 1);
      if g < n - 1 || revents[g].gone {
        h := g;
      }
    }
  }

  /** As long as no message fails, exactly the clients that hung up are closed exactly when they are
      the last ones of the table. */
  lemma HangupsChargedExactlyWhenLast(p: Pass, d: Desk)
    requires p.Valid() && d.live == p.live && MessagesAreGood(p)
    ensures var d' := Sweep(d, 0, p.revents, p.inbox);
            (forall i | 0 <= i < |p.live| :: p.live[i] in d'.live <==> !p.revents[i].gone)
            <==> GoneAreLast(p.revents, |p.live|)
  {
    hide Sweep;
    ChargedExactlyWhenOrderly(p, d);
    OrderlyExactlyWhenLast(p);
    assert forall i | 0 <= i < |p.live| :: p.Leaves(i) == p.revents[i].gone;
  }

  /** The smallest case where they are not: the first of two clients hangs up and the second,
      still connected, is closed with it. */
  lemma HangupClosesNeighbour(d: Desk, a: Conn, b: Conn, rest: seq<Revents>, inbox: map<Conn, Delivery>)
    requires d.live == [a, b]
    ensures var revents := [Revents(true, false), Revents(false, false)] + rest;
            Sweep(d, 0, revents, inbox).live == []
  {
    HangupClosesTheRest(d, 0, [Revents(true, false), Revents(false, false)] + rest, inbox);
  }

  // ---- Reading ------------------------------------------------------------------------------

  /** The clients a pass reads from, in order. */
  ghost function ReadFrom(d: Desk, i: nat, revents: seq<Revents>, inbox: map<Conn, Delivery>): seq<Conn>
    requires i <= |d.live| <= |revents|
    decreases |d.live| - i
  {
    if i == |d.live| then []
    else if revents[i].gone then ReadFrom(CloseAt(d, i), i, revents, inbox)
    else if revents[i].readable then
      var (h, keep) := HandleAt(d, i, inbox);
      [d.live[i]] + (if keep then ReadFrom(h, i + 1, revents, inbox) else ReadFrom(CloseAt(h, i), i, revents, inbox))
    else ReadFrom(d, i + 1, revents, inbox)
  }

  /** No client is read twice in one pass, however often it is moved. */
  lemma {:induction false} ReadAtMostOnce(d: Desk, i: nat, revents: seq<Revents>, inbox: map<Conn, Delivery>)
    requires i <= |d.live| <= |revents| && NoDuplicates(d.live)
    ensures NoDuplicates(ReadFrom(d, i, revents, inbox))
    ensures forall c | c in ReadFrom(d, i, revents, inbox) :: c in d.live[i..]
    decreases |d.live| - i
  {
    if i < |d.live| {
      hide HandleAt, CloseAt, NoDuplicates;
      var h, keep := HandleAt(d, i, inbox).0, HandleAt(d, i, inbox).1;
      RestAfter(d, i);
      if revents[i].gone {
        RestAfterClosing(d, CloseAt(d, i), i);
        ReadAtMostOnce(CloseAt(d, i), i, revents, inbox);
      } else if revents[i].readable {
        var next := if keep then h else CloseAt(h, i);
        if !keep {
          RestAfterClosing(d, next, i);
        }
        ReadAtMostOnce(next, if keep then i + 1 else i, revents, inbox);
        OneMoreRead(d.live[i], ReadFrom(next, if keep then i + 1 else i, revents, inbox));
      } else {
        ReadAtMostOnce(d, i + 1, revents, inbox);
      }
    }
  }

  /** The effect of serving clients one after the other: the state and what others see of it. */
  ghost function ServeAll(c: Control, conns: seq<Conn>, inbox: map<Conn, Delivery>): (Control, seq<Event>)
    decreases |conns|
  {
    if conns == [] then (c, [])
    else
      var out := Handle(c, conns[0], Delivered(inbox, conns[0]));
      var (c', events) := ServeAll(out.control, conns[1..], inbox);
      (c', out.events + events)
  }

  /** From `d` to `d'` the clients were served one after the other. */
  ghost predicate DidServe(d: Desk, d': Desk, conns: seq<Conn>, inbox: map<Conn, Delivery>) {
    var (c, events) := ServeAll(d.control, conns, inbox);
    d'.control == c && d'.events == d.events + events
  }

  lemma ServedFirst(d: Desk, i: nat, d': Desk, rest: seq<Conn>, inbox: map<Conn, Delivery>)
    requires i < |d.live| && DidServe(HandleAt(d, i, inbox).0, d', rest, inbox)
    ensures DidServe(d, d', [d.live[i]] + rest, inbox)
  {
    hide Handle;
    assert ([d.live[i]] + rest)[1..] == rest;
  }

  lemma ClosingServesNobody(d: Desk, i: nat, d': Desk, conns: seq<Conn>, inbox: map<Conn, Delivery>)
    requires i < |d.live| && DidServe(CloseAt(d, i), d', conns, inbox)
    ensures DidServe(d, d', conns, inbox)
  {
    hide ServeAll;
  }

  /** A pass does to the controller what serving the clients it reads from does, in that order. */
  lemma {:induction false} PassServesWhatItReads(d: Desk, i: nat, revents: seq<Revents>, inbox: map<Conn, Delivery>)
    requires i <= |d.live| <= |revents|
    ensures DidServe(d, Sweep(d, i, revents, inbox), ReadFrom(d, i, revents, inbox), inbox)
    decreases |d.live| - i
  {
    if i == |d.live| {
      assert d.events + [] == d.events;
    } else {
      hide DidServe, HandleAt, CloseAt;
      var d' := Sweep(d, i, revents, inbox);
      var h, keep := HandleAt(d, i, inbox).0, HandleAt(d, i, inbox).1;
      if revents[i].gone {
        PassServesWhatItReads(CloseAt(d, i), i, revents, inbox);
        ClosingServesNobody(d, i, d', ReadFrom(CloseAt(d, i), i, revents, inbox), inbox);
      } else if !revents[i].readable {
        PassServesWhatItReads(d, i + 1, revents, inbox);
      } else if keep {
        PassServesWhatItReads(h, i + 1, revents, inbox);
        ServedFirst(d, i, d', ReadFrom(h, i + 1, revents, inbox), inbox);
      } else {
        PassServesWhatItReads(CloseAt(h, i), i, revents, inbox);
        ClosingServesNobody(h, i, d', ReadFrom(CloseAt(h, i), i, revents, inbox), inbox);
        ServedFirst(d, i, d', ReadFrom(CloseAt(h, i), i, revents, inbox), inbox);
      }
    }
  }

  /** The clients from place `i` on that poll reported readable, in table order. */
  function ReadableOf(live: seq<Conn>, revents: seq<Revents>, i: nat): seq<Conn>
    requires i <= |live| <= |revents|
    decreases |live| - i
  {
    if i == |live| then []
    else (if revents[i].readable then [live[i]] else []) + ReadableOf(live, revents, i + 1)
  }

  /** Without hangups and failing messages a pass reads exactly the clients reported readable, in
      table order, and closes nobody. */
  lemma {:induction false} GoodPassReadsTheReadable(d: Desk, i: nat, revents: seq<Revents>, inbox: map<Conn, Delivery>)
    requires i <= |d.live| <= |revents|
    requires forall j | i <= j < |d.live| ::
               !revents[j].gone && (revents[j].readable ==> Served(Delivered(inbox, d.live[j])))
    ensures ReadFrom(d, i, revents, inbox) == ReadableOf(d.live, revents, i)
    ensures Sweep(d, i, revents, inbox).live == d.live && Sweep(d, i, revents, inbox).closed == d.closed
    decreases |d.live| - i
  {
    if i < |d.live| {
      hide Handle, Served;
      HandledAt(d, i, inbox);
      GoodPassReadsTheReadable(if revents[i].readable then HandleAt(d, i, inbox).0 else d, i + 1, revents, inbox);
    }
  }

  lemma OneMoreRead(c: Conn, rest: seq<Conn>)
    requires NoDuplicates(rest) && c !in rest
    ensures NoDuplicates([c] + rest)
  {}

  lemma RestAfter(d: Desk, i: nat)
    requires i < |d.live| && NoDuplicates(d.live)
    ensures d.live[i] in d.live[i..]
    ensures forall c | c in d.live[i + 1..] :: c in d.live[i..] && c != d.live[i]
  {
    assert d.live[i..] == [d.live[i]] + d.live[i + 1..];
  }

  lemma RestAfterClosing(d: Desk, next: Desk, i: nat)
    requires i < |d.live| && NoDuplicates(d.live)
    requires next == CloseAt(d, i) || (exists h: Desk :: h.live == d.live && next == CloseAt(h, i))
    ensures NoDuplicates(next.live)
    ensures forall c | c in next.live[i..] :: c in d.live[i..] && c != d.live[i]
  {
    assert next.live == RemoveAt(d.live, i);
  }

  /** After a failed message the last client is read in its place, and so on down the table as long
      as messages fail, whether poll reported these clients or not. */
  lemma {:induction false} FailedMessagesReadTheRest(d: Desk, i: nat, revents: seq<Revents>, inbox: map<Conn, Delivery>)
    requires i < |d.live| <= |revents| && revents[i].readable && !revents[i].gone
    requires forall j | i <= j < |d.live| :: !Served(Delivered(inbox, d.live[j]))
    ensures forall j | i <= j < |d.live| :: d.live[j] in ReadFrom(d, i, revents, inbox)
    ensures Sweep(d, i, revents, inbox).live == d.live[..i]
    decreases |d.live| - i
  {
    hide HandleAt, Served;
    HandledAt(d, i, inbox);
    var next := CloseAt(HandleAt(d, i, inbox).0, i);
    assert next.live[..i] == d.live[..i];
    if i < |next.live| {
      FailedMessagesReadTheRest(next, i, revents, inbox);
      forall j | i <= j < |d.live|
        ensures d.live[j] in ReadFrom(d, i, revents, inbox)
      {
        if j > i {
          var k := if j == |d.live| - 1 then i else j;
          assert next.live[k] == d.live[j];
        }
      }
    } else {
      assert next.live == d.live[..i];
    }
  }

  /** The place is the first where anything was reported, and it can be read. */
  predicate FirstReported(revents: seq<Revents>, i: nat)
    requires i < |revents|
  {
    revents[i].readable && !revents[i].gone && forall j | 0 <= j < i :: !revents[j].gone && !revents[j].readable
  }

  /** If the first report is a message, every client from there on is readable. */
  predicate ReadableFromFirst(revents: seq<Revents>, n: nat)
    requires n <= |revents|
  {
    forall i | 0 <= i < n && FirstReported(revents, i) :: forall j | i < j < n :: revents[j].readable
  }

  ghost predicate OnlyReadableRead(d: Desk, revents: seq<Revents>, inbox: map<Conn, Delivery>)
    requires |d.live| <= |revents|
  {
    forall j | 0 <= j < |d.live| && d.live[j] in ReadFrom(d, 0, revents, inbox) :: revents[j].readable
  }

  lemma {:induction false} ReadsStartAtFirstReport(d: Desk, i: nat, revents: seq<Revents>, inbox: map<Conn, Delivery>)
    requires i <= |d.live| <= |revents|
    requires forall j | 0 <= j < i :: !revents[j].gone && !revents[j].readable
    ensures ReadFrom(d, i, revents, inbox) == []
            || exists h | i <= h < |d.live| && FirstReported(revents, h) ::
                 ReadFrom(d, i, revents, inbox) == ReadFrom(d, h, revents, inbox)
    decreases |d.live| - i
  {
    if i < |d.live| {
      if revents[i].gone {
        HangupEndsReading(d, i, revents, inbox);
      } else if revents[i].readable {
        assert FirstReported(revents, i);
      } else {
        ReadsStartAtFirstReport(d, i + 1, revents, inbox);
      }
    }
  }

  lemma {:induction false} HangupEndsReading(d: Desk, i: nat, revents: seq<Revents>, inbox: map<Conn, Delivery>)
    requires i <= |d.live| <= |revents| && (i < |d.live| ==> revents[i].gone)
    ensures ReadFrom(d, i, revents, inbox) == []
    decreases |d.live|
  {
    if i < |d.live| {
      HangupEndsReading(CloseAt(d, i), i, revents, inbox);
    }
  }

  lemma {:induction false} QuietAreSkipped(d: Desk, i: nat, h: nat, revents: seq<Revents>, inbox: map<Conn, Delivery>)
    requires i <= h < |d.live| <= |revents| && FirstReported(revents, h)
    ensures ReadFrom(d, i, revents, inbox) == ReadFrom(d, h, revents, inbox)
    ensures Sweep(d, i, revents, inbox) == Sweep(d, h, revents, inbox)
    decreases h - i
  {
    if i < h {
      QuietAreSkipped(d, i + 1, h, revents, inbox);
    }
  }

  /** Poll results make it certain that only clients reported readable are read, whatever is in
      their messages, exactly when all are readable from the first reported message on. Otherwise
      the controller can end up waiting for a client that has sent nothing. */
  lemma OnlyReadableReadExactly(d: Desk, revents: seq<Revents>)
    requires |d.live| <= |revents| && NoDuplicates(d.live)
    ensures (forall inbox :: OnlyReadableRead(d, revents, inbox)) <==> ReadableFromFirst(revents, |d.live|)
  {
    hide ReadFrom, Sweep;
    var n := |d.live|;
    if ReadableFromFirst(revents, n) {
      forall inbox
        ensures OnlyReadableRead(d, revents, inbox)
      {
        ReadsStartAtFirstReport(d, 0, revents, inbox);
        if ReadFrom(d, 0, revents, inbox) != [] {
          var h :| 0 <= h < n && FirstReported(revents, h)
                   && ReadFrom(d, 0, revents, inbox) == ReadFrom(d, h, revents, inbox);
          ReadAtMostOnce(d, h, revents, inbox);
        }
      }
    } else {
      var i, j :| 0 <= i < j < n && FirstReported(revents, i) && !revents[j].readable;
      QuietAreSkipped(d, 0, i, revents, map[]);
      FailedMessagesReadTheRest(d, i, revents, map[]);
      assert !OnlyReadableRead(d, revents, map[]);
    }
  }

  const FAILED_QUIET_GONE := [Revents(false, true), Revents(false, false), Revents(true, false)]

  /** A failed message charges others even when the hangups are last: the first client's message
      fails, the third has hung up, and the second, of which poll reported nothing, is read and
      closed with them. */
  lemma FailedMessageClosesQuiet(d: Desk, a: Conn, b: Conn, c: Conn)
    requires d.live == [a, b, c] && NoDuplicates(d.live)
    ensures GoneAreLast(FAILED_QUIET_GONE, 3)
    ensures Sweep(d, 0, FAILED_QUIET_GONE, map[]).live == [] && b in ReadFrom(d, 0, FAILED_QUIET_GONE, map[])
    ensures !Pass(d.live, FAILED_QUIET_GONE, map[]).Orderly()
  {
    hide Sweep, ReadFrom;
    var p := Pass(d.live, FAILED_QUIET_GONE, map[]);
    FailedMessagesReadTheRest(d, 0, FAILED_QUIET_GONE, map[]);
    assert d.live[1] == b;
    assert !p.Leaves(1);
    ChargedExactlyWhenOrderly(p, d);
  }
}
