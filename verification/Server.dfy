/** The server: listener, connection table, descriptors, and the event loop that drives them. */
module Servers {
  import opened Octets
  import opened Buffers
  import opened Keyspace
  import opened Expiry
  import opened Database
  import opened Parser
  import opened Chunking
  import opened Commands
  import opened Replies
  import opened Histories
  import opened Service
  import opened Kernel
  import opened EventLoops
  import opened Connection
  import opened Journals
  import opened Effects
  import opened Closing
  import Writer

  const MAX_ACCEPTS: nat := 1000

  /** An event handed to a connection: the incarnation it was reported for, and the one that got it. */
  datatype Delivery = Delivery(fd: int, reported: nat, reached: nat)

  function Delivered(ev: Ready): Delivery {
    Delivery(ev.fd, ev.incarnation, ev.incarnation)
  }

  function AllDelivered(events: seq<Ready>): (d: seq<Delivery>)
    ensures |d| == |events| && forall i :: 0 <= i < |d| ==> d[i] == Delivered(events[i])
  {
    if events == [] then [] else AllDelivered(events[..|events| - 1]) + [Delivered(events[|events| - 1])]
  }

  /** One batch more, among all of them and among those since the first. */
  lemma MoreBatches(batches: seq<seq<Ready>>, events: seq<Ready>, first: nat)
    requires first <= |batches|
    ensures (batches + [events])[first..] == batches[first..] + [events]
    ensures Flatten((batches + [events])[first..]) == Flatten(batches[first..]) + events
    ensures Flatten(batches + [events]) == Flatten(batches) + events
    ensures AllDelivered(Flatten(batches + [events])) == AllDelivered(Flatten(batches)) + AllDelivered(events)
  {
    assert (batches + [events])[first..] == batches[first..] + [events];
    assert Flatten([events]) == events + Flatten([][..]) == events by {
      assert [events][1..] == [];
    }
    FlattenAppend(batches[first..], [events]);
    FlattenAppend(batches, [events]);
    DeliveredAppend(Flatten(batches), events);
  }

  lemma DeliveredAppend(a: seq<Ready>, b: seq<Ready>)
    ensures AllDelivered(a + b) == AllDelivered(a) + AllDelivered(b)
  {}

  /** What one event must leave alone. */
  datatype Picture = Picture(conns: map<int, Conn>, open: map<int, nat>, armed: set<int>, paused: bool,
                             running: Option<Callback>)

  ghost predicate Kept(a: Picture, b: Picture, listenFd: int, fd: int) {
    && (forall f :: f in a.conns && f != fd ==> f in b.conns && b.conns[f] == a.conns[f])
    && (forall f :: (f in a.conns || f == listenFd) && f != fd && f in a.open ==> f in b.open && b.open[f] == a.open[f])
    && (forall f :: f in a.conns && f != fd ==> (f in b.armed <==> f in a.armed))
    && (0 <= fd != listenFd && !a.paused ==> !b.paused)
    && b.running == a.running
  }

  lemma KeptAll(a: Picture, b: Picture, c: Picture, listenFd: int, fd: int)
    ensures Kept(a, a, listenFd, fd)
    ensures Kept(a, b, listenFd, fd) && Kept(b, c, listenFd, fd) ==> Kept(a, c, listenFd, fd)
  {}

  lemma KeptWithout(a: Picture, listenFd: int, fd: int)
    ensures Kept(a, Picture(a.conns - {fd}, a.open - {fd}, a.armed - {fd}, a.paused, a.running), listenFd, fd)
  {}

  /** What accepting keeps. */
  lemma KeptByListener(a: Picture, b: Picture, listenFd: int)
    requires Kept(a, b, listenFd, -1) && -1 !in a.conns
    ensures Kept(a, b, listenFd, listenFd)
  {}

  lemma KeptWith(a: Picture, listenFd: int, conn: Conn)
    requires conn.fd !in a.conns
    ensures Kept(a, a.(conns := a.conns[conn.fd := conn]), listenFd, -1) && Kept(a, a, listenFd, -1)
  {}

  /** A callback frame opened and closed again around what keeps the others. */
  lemma KeptFramed(a: Picture, b: Picture, listenFd: int, fd: int, frame: Option<Callback>)
    requires Kept(a.(running := frame), b, listenFd, fd)
    ensures Kept(a, b.(running := a.running), listenFd, fd)
  {}

  ghost predicate Accounts(conns: map<int, Conn>, open: map<int, nat>, handlers: map<int, Callback>, spareFd: int,
                           paused: bool, listenFd: int, lim: ProtocolLimits, extra: set<int>) {
    && (forall fd :: fd in open <==> fd in conns || fd == listenFd || (fd == spareFd && fd >= 0) || fd in extra)
    && (forall fd :: fd in extra ==> fd !in conns && fd != listenFd && fd != spareFd)
    && listenFd !in conns && spareFd !in conns && spareFd != listenFd
    && (forall fd :: fd in handlers <==> fd in conns || (fd == listenFd && !paused))
    && (forall fd :: fd in conns ==>
          conns[fd].fd == fd && conns[fd].incarnation == open[fd] && conns[fd].limits == lim)
    && (forall fd :: fd in handlers ==> (handlers[fd].target == ToListener <==> fd == listenFd))
  }

  lemma AccountsWithout(conns: map<int, Conn>, open: map<int, nat>, handlers: map<int, Callback>, spareFd: int,
                        paused: bool, listenFd: int, lim: ProtocolLimits, fd: int)
    requires Accounts(conns, open, handlers, spareFd, paused, listenFd, lim, {}) && fd in conns
    ensures fd in open && Accounts(conns - {fd}, open - {fd}, handlers - {fd}, spareFd, paused, listenFd, lim, {})
  {}

  lemma AccountsWith(conns: map<int, Conn>, open: map<int, nat>, before: map<int, Callback>, after: map<int, Callback>,
                     spareFd: int, paused: bool, listenFd: int, lim: ProtocolLimits, conn: Conn)
    requires Accounts(conns, open, before, spareFd, paused, listenFd, lim, {conn.fd}) && conn.limits == lim
    requires conn.fd in open && conn.incarnation == open[conn.fd] && after.Keys == before.Keys + {conn.fd}
    requires after[conn.fd].target == ToClient && forall f :: f in before ==> after[f] == before[f]
    ensures Accounts(conns[conn.fd := conn], open, after, spareFd, paused, listenFd, lim, {})
  {
    assert forall f :: f in after <==> f in before || f == conn.fd;
  }

  class Server {
    const sys: System
    const loop: EventLoop
    const db: Db
    const limits: ProtocolLimits
    const cap: nat
    const listenFd: int
    var spareFd: int
    var listenerPaused: bool
    var conns: map<int, Conn>
    /** What the poller reported, and where those events went. */
    const waitLog: WaitLog
    ghost var deliveries: seq<Delivery>
    ghost const origin: Store
    ghost var journal: seq<Entry<Conn>>

    // ----- Descriptor accounting

    /**
     Every open descriptor is the listener, the spare or in the connection table, each in one place
     only; the loop watches exactly the connections and, unless paused, the listener; and a
     connection stands for the current incarnation of its descriptor.
     */
    ghost predicate Tables()
      reads this`spareFd, this`listenerPaused, this`conns, loop, sys`open, sys`born, sys`registered, sys`armed
    {
      TablesWith({})
    }

    /** The same, with some descriptors that have just been accepted and have no place yet. */
    ghost predicate TablesWith(extra: set<int>)
      reads this`spareFd, this`listenerPaused, this`conns, loop, sys`open, sys`born, sys`registered, sys`armed
    {
      && loop.sys == sys && loop.Valid()
      && Accounts(conns, sys.open, loop.handlers, spareFd, listenerPaused, listenFd, limits, extra)
    }

    /**
     The listener and the connections other than `fd` are as they were, down to the incarnation;
     the event of a connection does not pause the listener.
     */
    twostate predicate KeepsOthers(fd: int)
      reads this`listenerPaused, this`conns, sys`open, sys`armed, loop`running
    {
      Kept(old(Snapshot()), Snapshot(), listenFd, fd)
    }

    ghost function Snapshot(): Picture
      reads this`listenerPaused, this`conns, sys`open, sys`armed, loop`running
    {
      Picture(conns, sys.open, sys.armed, listenerPaused, loop.running)
    }

    /** How much output is queued for each connection. */
    ghost function Queued(): map<int, int>
      reads this`conns, set f | f in conns :: conns[f].out
    {
      map f | f in conns :: conns[f].out.writePos - conns[f].out.readPos
    }

    ghost function Done(): Effects
      reads sys`readLog, sys`acceptCalls, sys`fullLog, this`conns, set f | f in conns :: conns[f].out
    {
      Effects(sys.readLog, sys.acceptCalls, sys.fullLog, Queued())
    }

    /** The end of start: the listener is open and registered, and a spare descriptor is reserved if possible. */
    constructor (loop: EventLoop, db: Db, listenFd: int, lim: ProtocolLimits, cap: nat)
      requires loop.Valid() && loop.running == None
      requires loop.sys.open.Keys == {listenFd} && loop.handlers.Keys == {listenFd}
      requires loop.handlers[listenFd].target == ToListener
      requires Consistent(db.State()) && ServableLimits(lim)
      modifies loop.sys
      ensures this.loop == loop && sys == loop.sys && this.db == db && this.listenFd == listenFd
      ensures limits == lim && this.cap == cap
      ensures Sound() && conns == map[] && !listenerPaused && NothingLost()
      ensures origin == db.State() && journal == []
    {
      hide Consistent, ServableLimits, Tables, TablesWith, Clients, Told, EventLoop.Valid;
      origin, journal := db.State(), [];
      this.sys, this.loop, this.db, this.listenFd, limits, this.cap := loop.sys, loop, db, listenFd, lim, cap;
      conns, spareFd, listenerPaused, deliveries := map[], -1, false, [];
      waitLog := new WaitLog();
      new;
      EmptyTables();
      var _ := ReopenSpare();
      EmptyIsSound();
    }

    lemma EmptyTables()
      requires loop.sys == sys && loop.Valid() && sys.open.Keys == {listenFd} && loop.handlers.Keys == {listenFd}
      requires loop.handlers[listenFd].target == ToListener
      requires conns == map[] && spareFd == -1 && !listenerPaused
      ensures Tables()
    {
      hide EventLoop.Numbered, EventLoop.Owns;
      assert listenFd in sys.open;
    }

    lemma EmptyIsSound()
      requires Tables() && conns == map[] && loop.running == None && deliveries == [] && waitLog.batches == []
      requires journal == [] && origin == db.State() && Consistent(origin) && ServableLimits(limits)
      ensures Sound() && NothingLost()
    {
      hide Tables, Consistent, ServableLimits;
    }

    method ReopenSpare() returns (held: bool)
      requires Tables()
      modifies this`spareFd, sys`open, sys`born, sys`refusals
      ensures Tables() && (held <==> spareFd >= 0)
      ensures sys.refusals == old(sys.refusals) + if held then 0 else 1
      ensures forall f :: f in old(sys.open) ==> f in sys.open && sys.open[f] == old(sys.open)[f]
      ensures old(spareFd) >= 0 ==> spareFd == old(spareFd) && sys.open == old(sys.open)
    {
      if spareFd >= 0 {
        return true;
      }
      spareFd := sys.OpenNull();
      held := spareFd >= 0;
    }

    method PauseListener()
      requires Tables()
      modifies this`listenerPaused, loop`handlers, loop`retired, sys`registered, sys`armed
      ensures Tables() && listenerPaused
      ensures sys.armed == old(sys.armed) - {listenFd} && loop.running == old(loop.running)
    {
      if listenerPaused {
        assert sys.armed - {listenFd} == sys.armed;
        return;
      }
      loop.Remove(listenFd);
      listenerPaused := true;
    }

    method ResumeListener()
      requires Tables()
      modifies this`spareFd, this`listenerPaused, sys`open, sys`born, sys`refusals, sys`registered
      modifies loop`handlers, loop`made
      ensures Tables()
      ensures listenerPaused ==> sys.refusals > old(sys.refusals)
      ensures forall f :: f in old(sys.open) ==> f in sys.open && sys.open[f] == old(sys.open)[f]
      ensures !listenerPaused && old(listenerPaused) ==> spareFd >= 0
      ensures !old(listenerPaused) ==> !listenerPaused
    {
      if !listenerPaused {
        return;
      }
      var held := ReopenSpare();
      if !held {
        return;
      }
      var ok := loop.Add(listenFd, ToListener);
      if !ok {
        return;
      }
      listenerPaused := false;
    }

    method ReleaseSpare()
      requires Tables() && spareFd >= 0
      modifies this`spareFd, sys`open
      ensures Tables() && KeepsOthers(-1) && spareFd == -1
    {
      sys.Close(spareFd);
      spareFd := -1;
    }

    /** Accepts the pending connection only to close it. */
    method TurnAway()
      requires Tables()
      modifies sys`open, sys`born, sys`acceptCalls, sys`lastAccept
      ensures Tables() && sys.open == old(sys.open) && sys.acceptCalls == old(sys.acceptCalls) + 1
    {
      var r := sys.Accept();
      if r.Accepted? {
        sys.Close(r.fd);
      }
    }

    /** Gives up the spare to turn one connection away, and tries to get the spare back. */
    method SpendSpare() returns (held: bool)
      requires Tables() && spareFd >= 0
      modifies this`spareFd, sys`open, sys`born, sys`refusals, sys`acceptCalls, sys`lastAccept
      ensures Tables() && KeepsOthers(-1) && (held <==> spareFd >= 0)
      ensures sys.acceptCalls == old(sys.acceptCalls) + 1 && (!held ==> sys.refusals > old(sys.refusals))
    {
      hide Tables, TablesWith;
      ReleaseSpare();
      TurnAway();
      held := ReopenSpare();
    }

    /** Out of descriptors: spend the spare on a polite refusal, or stop listening. */
    method ShedConnection()
      requires Tables()
      modifies this`spareFd, this`listenerPaused, sys`open, sys`born, sys`refusals, sys`acceptCalls, sys`lastAccept
      modifies loop`handlers, loop`retired, sys`registered, sys`armed
      ensures Tables() && KeepsOthers(-1)
      ensures if spareFd >= 0 then listenerPaused == old(listenerPaused) else listenerPaused
      ensures sys.acceptCalls == old(sys.acceptCalls) + if old(spareFd) >= 0 then 1 else 0
      ensures old(spareFd) >= 0 > spareFd ==> sys.refusals > old(sys.refusals)
    {
      hide EventLoop.Valid;
      assert listenFd !in conns;
      hide Tables, TablesWith;
      if spareFd >= 0 {
        var held := SpendSpare();
        if held {
          return;
        }
      }
      PauseListener();
    }

    /** Unregister, then close, then forget: in this order, since the number can be reissued at once. */
    method Forget(fd: int)
      requires Tables() && fd in conns
      modifies this`conns, sys`open, sys`registered, sys`armed, loop`handlers, loop`retired
      ensures Tables() && conns == old(conns) - {fd} && KeepsOthers(fd)
    {
      hide Kept, EventLoop.Owns, EventLoop.Numbered, Accounts;
      KeptWithout(Snapshot(), listenFd, fd);
      AccountsWithout(conns, sys.open, loop.handlers, spareFd, listenerPaused, listenFd, limits, fd);
      loop.Remove(fd);
      sys.Close(fd);
      conns := conns - {fd};
    }

    method CloseConn(c: Conn)
      requires Tables() && c.fd in conns && conns[c.fd] == c
      modifies this`spareFd, this`listenerPaused, this`conns
      modifies sys`open, sys`born, sys`registered, sys`armed, sys`refusals, loop`handlers, loop`retired, loop`made
      ensures Tables() && conns == old(conns) - {c.fd}
      ensures KeepsOthers(c.fd)
      ensures listenerPaused ==> sys.refusals > old(sys.refusals)
    {
      hide Tables, TablesWith;
      Forget(c.fd);
      ResumeListener();
    }

    // ----- Accepting

    /** The state of a connection between events; the poller watches for writability exactly while output is queued. */
    ghost predicate Healthy(c: Conn)
      reads sys`armed, c, c.input, c.out, c.parser, c.input.data, c.out.data
    {
      c.Settled(cap) && c.Owned() && (c.writeArmed <==> c.fd in sys.armed)
    }

    /** Connections only ever gain memory that is new. */
    twostate predicate FreshMemory()
      reads this`conns, set f | f in conns :: conns[f]
    {
      forall f, o :: f in conns && o in conns[f].Repr ==> fresh(o) || (f in old(conns) && o in old(conns[f].Repr))
    }

    /** Every connection is in the state it has between events, on memory of its own. */
    ghost predicate Clients()
      reads this`conns, sys`armed
      reads set f | f in conns :: conns[f]
      reads set f | f in conns :: conns[f].input
      reads set f | f in conns :: conns[f].out
      reads set f | f in conns :: conns[f].parser
      reads set f | f in conns :: conns[f].input.data
      reads set f | f in conns :: conns[f].out.data
    {
      && (forall fd :: fd in conns ==> Healthy(conns[fd]))
      && (forall f, g :: f in conns && g in conns && f != g ==> conns[f].Repr !! conns[g].Repr)
    }

    // ----- The journal of the run

    ghost predicate ToldOf(c: Conn)
      requires AllSensible(journal)
      reads this`journal, c
    {
      NonEmpty(c.argvs) == CommandsOf(journal, c) && c.replies == RepliesTo(origin, journal, c)
    }

    /** The journal explains the keyspace and what every connection has been asked and answered. */
    ghost predicate Told()
      reads this`journal, this`conns, db, set f | f in conns :: conns[f]
    {
      && AllSensible(journal)
      && db.State() == StoreAfter(origin, journal)
      && forall f :: f in conns ==> ToldOf(conns[f])
    }

    /** A connection that is new to the journal. */
    lemma BlankIsTold(c: Conn)
      requires AllSensible(journal) && c.argvs == [] && c.replies == []
      requires forall i :: 0 <= i < |journal| ==> !Journals.Owned(journal[i], c)
      ensures ToldOf(c)
    {
      NotAnOwner(origin, journal, c);
    }

    /** The journal explains a view of `c`. */
    ghost predicate Accounted(c: Conn, v: View)
      reads this`journal
    {
      && AllSensible(journal)
      && v.store == StoreAfter(origin, journal)
      && NonEmpty(v.argvs) == CommandsOf(journal, c) && v.replies == RepliesTo(origin, journal, c)
    }

    /** What a read adds to the journal. */
    ghost function Entered(c: Conn, v: View, r: ReadResult, clock: nat -> int): seq<Entry<Conn>> {
      if r.Data? then
        PassEntries(c, Serve(v.st, v.held + r.bytes, v.store, v.pending, cap, limits, clock, 0), clock)
      else []
    }

    /** What a read brought about goes into the journal, in the order in which it happened. */
    ghost method Chronicle(c: Conn, v: View, r: ReadResult, clock: nat -> int)
      requires Accounted(c, v) && WellFormed(v.st, limits) && ServableLimits(limits)
      requires Replied(c, v, r, clock) && forall i :: PastHalfSecond(clock(i))
      requires forall f :: f in conns && conns[f] != c ==> ToldOf(conns[f])
      modifies this`journal
      ensures Told() && ToldOf(c) && Extends(old(journal), journal, clock)
      ensures journal == old(journal) + Entered(c, v, r, clock)
    {
      hide AllSensible, Sensible, StoreAfter, RepliesTo, CommandsOf, ServableLimits, Serve, PassIsDispatch, NonEmpty;
      hide PassEntries, Extends;
      ExtendsByNothing(journal, clock);
      if r.Data? {
        assert forall i :: ClockReading(clock(i)) by {
          assert forall i :: PastHalfSecond(clock(i));
        }
        var p := Serve(v.st, v.held + r.bytes, v.store, v.pending, cap, limits, clock, 0);
        ServeDispatches(v.st, v.held + r.bytes, v.store, v.pending, cap, limits, clock, 0);
        ServedIsDispatchable(v.st, v.held + r.bytes, v.store, v.pending, cap, limits, clock, 0);
        PassIsJournaled(v.store, c, p, clock);
        var k := PassEntries(c, p, clock);
        ExtendsByPass(journal, c, p, clock);
        StoreContinued(origin, journal, k);
        Continued(origin, journal, k, c);
        NonEmptyAppend(v.argvs, p.argvs);
        forall f | f in conns && conns[f] != c
          ensures CommandsOf(journal + k, conns[f]) == CommandsOf(journal, conns[f])
          ensures RepliesTo(origin, journal + k, conns[f]) == RepliesTo(origin, journal, conns[f])
        {
          Continued(origin, journal, k, conns[f]);
          NotAnOwner(v.store, k, conns[f]);
        }
        journal := journal + k;
      }
    }

    method Drop(fd: int)
      requires TablesWith({fd})
      modifies sys`open
      ensures Tables() && KeepsOthers(-1) && fd !in sys.open
    {
      sys.Close(fd);
    }

    lemma NewIsUnknown(conn: Conn)
      requires TablesWith({conn.fd})
      ensures conn.fd in sys.open && conn.fd !in conns && conn.fd !in loop.handlers
    {
      hide EventLoop.Valid;
    }

    method Enroll(conn: Conn) returns (ok: bool)
      requires TablesWith({conn.fd}) && conn.incarnation == sys.open[conn.fd] && conn.limits == limits
      modifies this`conns, loop`handlers, loop`made, sys`registered, sys`refusals
      ensures KeepsOthers(-1) && sys.refusals == old(sys.refusals) + if ok then 0 else 1
      ensures if ok then Tables() && conns == old(conns)[conn.fd := conn]
              else TablesWith({conn.fd}) && conns == old(conns)
    {
      hide Kept, EventLoop.Owns, EventLoop.Numbered, Accounts;
      NewIsUnknown(conn);
      KeptWith(Snapshot(), listenFd, conn);
      ghost var before := loop.handlers;
      ok := loop.Add(conn.fd, ToClient);
      if ok {
        AccountsWith(conns, sys.open, before, loop.handlers, spareFd, listenerPaused, listenFd, limits, conn);
        conns := conns[conn.fd := conn];
      }
    }

    /** A connection just made for the current incarnation of `fd`: silent, on memory of its own. */
    twostate predicate Newcomer(fd: int)
      reads this`conns
      reads set f | f in conns :: conns[f]
      reads set f | f in conns :: conns[f].input
      reads set f | f in conns :: conns[f].out
      reads set f | f in conns :: conns[f].parser
      reads set f | f in conns :: conns[f].input.data
      reads set f | f in conns :: conns[f].out.data
    {
      fd in conns &&
      var c := conns[fd];
      && conns == old(conns)[fd := c] && c.fd == fd
      && fresh(c) && fresh(c.Repr) && c.Owned() && c.Settled(cap)
      && c.argvs == [] && c.replies == [] && !c.writeArmed
    }

    /** Registers `fd` with a connection of its own, or gives it up. */
    method Attach(fd: int)
      requires TablesWith({fd}) && ServableLimits(limits) && fd in sys.open && fd !in conns
      modifies this`conns, sys`open, sys`refusals, loop`handlers, loop`made, sys`registered
      ensures Tables() && KeepsOthers(-1)
      ensures fd in conns ==> Newcomer(fd)
      ensures fd !in conns ==> fd !in sys.open && conns == old(conns) && sys.refusals > old(sys.refusals)
    {
      hide Kept, Conn.Settled, Conn.Owned, ServableLimits, Tables, TablesWith;
      var conn := new Conn(fd, sys.open[fd], limits);
      var ok := Enroll(conn);
      if !ok {
        ghost var between := Snapshot();
        Drop(fd);
        KeptAll(old(Snapshot()), between, Snapshot(), listenFd, -1);
      }
    }

    /** An accepted descriptor ends up in the table with a fresh connection, or closed. */
    method AddConnection(fd: int)
      requires TablesWith({fd}) && ServableLimits(limits)
      modifies this`conns, sys`open, sys`refusals, loop`handlers, loop`made, sys`registered
      ensures Tables() && KeepsOthers(-1)
      ensures fd in conns ==> Newcomer(fd)
      ensures fd !in conns ==> fd !in sys.open && conns == old(conns) && sys.refusals > old(sys.refusals)
    {
      hide Kept, Conn.Settled, Conn.Owned, ServableLimits, EventLoop.Valid;
      assert fd in sys.open && fd !in conns;
      hide Tables, TablesWith;
      var nonblocking := sys.SetNonblocking(fd);
      if !nonblocking {
        Drop(fd);
        return;
      }
      Attach(fd);
    }

    /** Accepting leaves the other connections healthy and separate. */
    twostate lemma WelcomeKeepsClients(fd: int)
      requires old(Clients()) && fd !in old(conns) && fd !in sys.armed && sys.armed == old(sys.armed)
      requires if fd in conns then Newcomer(fd) else conns == old(conns)
      requires forall f :: f in old(conns) ==> old(conns)[f].fd == f && Untouched(old(conns)[f])
      ensures Clients() && FreshMemory()
    {
      hide Conn.Settled, Conn.Owned;
      forall f | f in old(conns) ensures Healthy(conns[f]) {
        HealthyStays(conns[f]);
      }
    }

    /** Accepting leaves the journal true: a new connection has asked nothing yet. */
    twostate lemma WelcomeIsTold(fd: int)
      requires old(Told()) && journal == old(journal) && db.State() == old(db.State())
      requires if fd in conns then Newcomer(fd) else conns == old(conns)
      requires forall f :: f in old(conns) ==> Untouched(old(conns)[f])
      ensures Told()
    {
      hide StoreAfter, RepliesTo, CommandsOf, AllSensible, NonEmpty;
      forall f | f in conns ensures ToldOf(conns[f]) {
        if fresh(conns[f]) {
          BlankIsTold(conns[f]);
        } else {
          assert Untouched(conns[f]);
        }
      }
    }

    /** A new connection has nothing queued. */
    twostate lemma WelcomeKeepsQueues(fd: int)
      requires fd !in old(conns) && if fd in conns then Newcomer(fd) else conns == old(conns)
      requires forall f :: f in old(conns) ==> Untouched(old(conns)[f])
      ensures QueuesGrow(old(Queued()), Queued())
    {
      hide Conn.OnTrack, Conn.Drained, Conn.Conserved, RespParser.Valid, ServableLimits, Conn.Owned;
      forall f | f in conns && f !in old(conns) ensures Queued()[f] == 0 {
        assert f == fd && conns[fd].Settled(cap);
        assert conns[fd].out.Contents() == [];
      }
    }

    method Welcome(fd: int)
      requires TablesWith({fd}) && Clients() && Told() && ServableLimits(limits) && fd !in sys.armed
      modifies this`conns, sys`open, sys`refusals, loop`handlers, loop`made, sys`registered
      ensures Tables() && Clients() && Told() && KeepsOthers(-1) && FreshMemory()
      ensures fd in conns || sys.refusals > old(sys.refusals)
      ensures QueuesGrow(old(Queued()), Queued())
    {
      hide Kept, Conn.Settled, Conn.Owned, ServableLimits, EventLoop.Valid, Clients, Newcomer, QueuesGrow;
      assert fd !in conns && forall f :: f in conns ==> conns[f].fd == f;
      hide Tables, TablesWith, Told;
      AddConnection(fd);
      assert forall f :: f in old(conns) ==> Untouched(old(conns)[f]);
      hide Untouched, Queued, FreshMemory;
      WelcomeKeepsClients(fd);
      WelcomeIsTold(fd);
      WelcomeKeepsQueues(fd);
    }

    method Shed()
      requires Tables() && Clients()
      modifies this`spareFd, this`listenerPaused, sys`open, sys`born, sys`refusals, sys`acceptCalls, sys`lastAccept
      modifies loop`handlers, loop`retired, sys`registered, sys`armed
      ensures Tables() && Clients() && KeepsOthers(-1)
      ensures if spareFd >= 0 then listenerPaused == old(listenerPaused) else listenerPaused
      ensures sys.acceptCalls == old(sys.acceptCalls) + if old(spareFd) >= 0 then 1 else 0
      ensures old(spareFd) >= 0 > spareFd ==> sys.refusals > old(sys.refusals)
    {
      hide Conn.Settled, Conn.Owned;
      ShedConnection();
    }

    method AcceptNext() returns (r: AcceptResult)
      requires Tables() && Clients()
      modifies sys`open, sys`born, sys`acceptCalls, sys`lastAccept
      ensures Clients() && KeepsOthers(-1)
      ensures sys.acceptCalls == old(sys.acceptCalls) + 1 && sys.lastAccept == r
      ensures if r.Accepted? then TablesWith({r.fd}) && r.fd !in sys.armed else Tables()
    {
      hide Conn.Settled, Conn.Owned;
      r := sys.Accept();
    }

    /** The last accept said that there is nothing more to accept, or failed outright. */
    ghost predicate QueueIsDone()
      reads sys`lastAccept
    {
      sys.lastAccept.QueueEmpty? || sys.lastAccept.AcceptFailed?
    }

    /** One turn of the accept loop. */
    method AcceptOne() returns (more: bool, shed: bool)
      requires Tables() && Clients() && Told() && ServableLimits(limits)
      modifies this`spareFd, this`listenerPaused, this`conns
      modifies sys`open, sys`born, sys`registered, sys`armed, sys`refusals, sys`acceptCalls, sys`lastAccept
      modifies loop`handlers, loop`retired, loop`made
      ensures Tables() && Clients() && Told() && KeepsOthers(-1) && FreshMemory()
      ensures shed ==> !more && (spareFd >= 0 || listenerPaused)
      ensures !more ==> shed || QueueIsDone()
      ensures old(sys.acceptCalls) + 1 <= sys.acceptCalls <= old(sys.acceptCalls) + if shed then 2 else 1
      ensures !shed && sys.lastAccept.Accepted? ==> sys.lastAccept.fd in conns || sys.refusals > old(sys.refusals)
      ensures !shed && !sys.lastAccept.Accepted? ==> conns == old(conns) && listenerPaused == old(listenerPaused)
      ensures QueuesGrow(old(Queued()), Queued())
    {
      hide Kept, Clients, Told, Tables, TablesWith, ServableLimits, QueuesGrow;
      shed := false;
      QueuesGrowOn(Queued(), Queued(), Queued());
      var r := AcceptNext();
      ghost var between := Snapshot();
      match r {
        case Accepted(fd) =>
          Welcome(fd);
          KeptAll(old(Snapshot()), between, Snapshot(), listenFd, -1);
          more := true;
        case QueueEmpty =>
          more := false;
        case AcceptAgain =>
          more := true;
        case OutOfDescriptors =>
          Shed();
          KeptAll(old(Snapshot()), between, Snapshot(), listenFd, -1);
          more, shed := false, true;
        case AcceptFailed =>
          more := false;
      }
    }

    /**
     Accepting goes on until the queue is empty, accept fails, or the bound of one event is reached.
     After running out of descriptors either a spare is held again or the listener is paused.
     */
    method OnListenerReadable() returns (shed: bool)
      requires Tables() && Clients() && Told() && ServableLimits(limits)
      modifies this`spareFd, this`listenerPaused, this`conns
      modifies sys`open, sys`born, sys`registered, sys`armed, sys`refusals, sys`acceptCalls, sys`lastAccept
      modifies loop`handlers, loop`retired, loop`made
      ensures Tables() && Clients() && Told() && KeepsOthers(-1) && FreshMemory()
      ensures shed ==> spareFd >= 0 || listenerPaused
      ensures shed || QueueIsDone() || sys.acceptCalls == old(sys.acceptCalls) + MAX_ACCEPTS
      ensures old(sys.acceptCalls) < sys.acceptCalls <= old(sys.acceptCalls) + MAX_ACCEPTS + 1
      ensures QueuesGrow(old(Queued()), Queued())
    {
      hide Kept;
      KeptAll(Snapshot(), Snapshot(), Snapshot(), listenFd, -1);
      hide Clients, Told, Tables, QueuesGrow;
      QueuesGrowOn(Queued(), Queued(), Queued());
      shed := false;
      var more, i := true, 0;
      while more && i < MAX_ACCEPTS
        invariant Tables() && Clients() && Told() && KeepsOthers(-1) && FreshMemory()
        invariant shed ==> !more && (spareFd >= 0 || listenerPaused)
        invariant !more ==> i > 0 && (shed || QueueIsDone())
        invariant 0 <= i <= MAX_ACCEPTS && QueuesGrow(old(Queued()), Queued())
        invariant old(sys.acceptCalls) + i <= sys.acceptCalls <= old(sys.acceptCalls) + i + if shed then 1 else 0
      {
        ghost var between, queued := Snapshot(), Queued();
        more, shed := AcceptOne();
        KeptAll(old(Snapshot()), between, Snapshot(), listenFd, -1);
        QueuesGrowOn(old(Queued()), queued, Queued());
        i := i + 1;
      }
    }

    // ----- One connection

    /** `c` is the connection of its descriptor, with its input drained and its output within the cap. */
    ghost predicate Working(c: Conn)
      reads this, sys, loop, c, c.input, c.out, c.parser, c.input.data, c.out.data
    {
      && Tables() && c.fd in conns && conns[c.fd] == c
      && c.Valid() && c.OnTrack() && c.Drained() && c.Owned()
      && (c.closeAfterWrite || |c.out.Contents()| <= cap)
      && (c.writeArmed <==> c.fd in sys.armed)
    }

    /**
     The helpers answer false exactly when they have closed the connection; even then what it was sent
     and what was left unsent are its replies.
     */
    twostate predicate Outcome(c: Conn, alive: bool)
      reads this`spareFd, this`listenerPaused, this`conns, loop, sys`open, sys`born, sys`registered, sys`armed
      reads c, c.input, c.out, c.parser, c.input.data, c.out.data
    {
      && Tables() && KeepsOthers(c.fd)
      && conns == (if alive then old(conns) else old(conns) - {c.fd})
      && (if alive then Healthy(c) else c.Conserved())
      && fresh(c.Repr - old(c.Repr))
    }

    method SetInterest(fd: int, want: bool)
      requires Tables() && fd in conns
      modifies sys`armed
      ensures Tables() && KeepsOthers(fd) && (fd in sys.armed <==> want)
    {
      loop.SetWriteInterest(fd, want);
    }

    /** Asks for write readiness exactly when output is left over. */
    method Rearm(c: Conn)
      requires Working(c) && (c.closeAfterWrite ==> c.out.Contents() != [])
      modifies sys`armed, c`writeArmed
      ensures Outcome(c, true)
    {
      hide Drain, Quiescent, NonEmpty, EncodeAll, ServableLimits, RespParser.Valid, Tables, TablesWith;
      if c.out.Readable() == 0 {
        if c.writeArmed {
          SetInterest(c.fd, false);
          c.writeArmed := false;
        }
      } else if !c.writeArmed {
        SetInterest(c.fd, true);
        c.writeArmed := true;
      }
    }

    /** Why a flush closes a connection: a send has failed, or the farewell has been delivered. */
    ghost predicate Finished(c: Conn, failures: nat)
      reads sys`sendFailures, c, c.out
    {
      sys.sendFailures > failures || (c.closeAfterWrite && c.out.Valid() && c.out.Readable() == 0)
    }

    method FlushOutput(c: Conn) returns (alive: bool)
      requires Working(c)
      modifies this`spareFd, this`listenerPaused, this`conns, loop`handlers, loop`retired, loop`made
      modifies sys`open, sys`born, sys`registered, sys`armed, sys`refusals, sys`signals, sys`fullLog, sys`sendFailures
      modifies c`sent, c`writeArmed, c.out`readPos, c.out`writePos
      ensures Outcome(c, alive)
      ensures alive && c.out.Readable() > 0 ==> Logged(old(sys.fullLog), sys.fullLog, c.fd)
      ensures old(sys.fullLog) <= sys.fullLog && sys.sendFailures >= old(sys.sendFailures)
      ensures !alive ==> Finished(c, old(sys.sendFailures))
      ensures c.Conserved() && (!alive && c.out.Readable() == 0 ==> c.sent == EncodeAll(c.replies))
    {
      hide Kept, Conn.OnTrack, Conn.Drained, EncodeAll, ServableLimits, RespParser.Valid, Healthy;
      assert c.fd in sys.open;
      hide Tables, TablesWith;
      var ok := c.SendAll(sys);
      assert Working(c);
      hide Working, Conn.Valid;
      alive := AfterSend(c, ok);
    }

    /** The end of a flush: a failed or farewelled connection is closed, any other watched as it needs. */
    method AfterSend(c: Conn, ok: bool) returns (alive: bool)
      requires Working(c)
      modifies this`spareFd, this`listenerPaused, this`conns, loop`handlers, loop`retired, loop`made
      modifies sys`open, sys`born, sys`registered, sys`armed, sys`refusals
      modifies c`writeArmed
      ensures Outcome(c, alive) && c.out.Valid()
      ensures alive <==> ok && !(c.closeAfterWrite && c.out.Readable() == 0)
    {
      hide Kept, Healthy, Tables, TablesWith, RespParser.Valid, EncodeAll, ServableLimits, Conn.OnTrack, Conn.Drained;
      if !ok || (c.out.Readable() == 0 && c.closeAfterWrite) {
        CloseConn(c);
        return false;
      }
      Rearm(c);
      alive := true;
    }

    /** `c` with input that has not been looked at yet. */
    ghost predicate Loaded(c: Conn)
      reads this, sys, c, c.input, c.out, c.parser, c.input.data, c.out.data
    {
      && c.Valid() && c.OnTrack() && c.Owned()
      && (if c.closeAfterWrite then c.out.Contents() != [] else |c.out.Contents()| <= cap)
      && (c.writeArmed <==> c.fd in sys.armed)
    }

    /** The commands of a pass have been executed and answered. */
    ghost predicate Effect(c: Conn, p: Pass)
      reads c`argvs, c`replies, db
    {
      db.State() == p.store && c.argvs == p.argvs && c.replies == p.replies
    }

    /** What a read brings about, from the view `v` that was there before it. */
    ghost predicate Replied(c: Conn, v: View, r: ReadResult, clock: nat -> int)
      reads c`argvs, c`replies, db
    {
      if r.Data? then Effect(c, Total(v.(held := v.held + r.bytes), cap, limits, clock, 0))
      else db.State() == v.store && c.argvs == v.argvs && c.replies == v.replies
    }

    /** The end of a pass: a connection whose replies piled up is closed outright, any other is flushed. */
    method Conclude(c: Conn, fate: Fate) returns (alive: bool)
      requires Tables() && c.fd in conns && conns[c.fd] == c && c.Conserved() && (!fate.Overflowing? ==> Working(c))
      modifies this`spareFd, this`listenerPaused, this`conns, loop`handlers, loop`retired, loop`made
      modifies sys`open, sys`born, sys`registered, sys`armed, sys`refusals, sys`signals, sys`fullLog, sys`sendFailures
      modifies c, c.out
      ensures c.received == old(c.received) && c.argvs == old(c.argvs) && c.replies == old(c.replies)
      ensures c.Repr == old(c.Repr)
      ensures Outcome(c, alive) && (fate.Overflowing? ==> !alive)
      ensures alive && c.out.Readable() > 0 ==> Logged(old(sys.fullLog), sys.fullLog, c.fd)
      ensures old(sys.fullLog) <= sys.fullLog && sys.sendFailures >= old(sys.sendFailures)
      ensures !alive ==> Finished(c, old(sys.sendFailures)) || fate.Overflowing?
    {
      hide Kept, Tables, Working, Healthy;
      if fate.Overflowing? {
        CloseConn(c);
        return false;
      }
      alive := FlushOutput(c);
    }

    /** Parses and dispatches what has been received, then sends what it can. */
    method ProcessInput(c: Conn, clock: nat -> int) returns (alive: bool)
      requires Tables() && c.fd in conns && conns[c.fd] == c && Loaded(c)
      requires Consistent(db.State()) && forall i :: PastHalfSecond(clock(i))
      modifies this`spareFd, this`listenerPaused, this`conns, loop`handlers, loop`retired, loop`made
      modifies sys`open, sys`born, sys`registered, sys`armed, sys`refusals, sys`signals, sys`fullLog, sys`sendFailures
      modifies c, c.parser, c.input, c.out, c.out.data, db
      ensures Outcome(c, alive) && Consistent(db.State())
      ensures c.received == old(c.received)
      ensures var p := Total(old(c.Seen(db)), cap, limits, clock, 0); Effect(c, p) && (p.fate.Overflowing? ==> !alive)
      ensures alive && c.out.Readable() > 0 ==> Logged(old(sys.fullLog), sys.fullLog, c.fd)
      ensures old(sys.fullLog) <= sys.fullLog && sys.sendFailures >= old(sys.sendFailures)
      ensures !alive ==>
                Finished(c, old(sys.sendFailures)) || Total(old(c.Seen(db)), cap, limits, clock, 0).fate.Overflowing?
    {
      hide Finished, Logged;
      hide Kept, Conn.OnTrack, Conn.Drained, EncodeAll, ServableLimits, RespParser.Valid, Consistent, Healthy, Total;
      hide Tables, TablesWith, Conn.Owned;
      SameLimits(c.fd);
      var fate := c.Digest(db, clock, cap);
      alive := Conclude(c, fate);
    }

    lemma BuffersAreValid(c: Conn)
      requires Healthy(c) || Loaded(c)
      ensures c.input.Valid() && c.out.Valid()
      ensures Healthy(c) && c.closeAfterWrite ==> c.out.Readable() > 0
      ensures c.Conserved()
    {
      hide Conn.OnTrack, Conn.Drained, EncodeAll;
    }

    method ReadInto(c: Conn, ghost v: View) returns (r: ReadResult)
      requires Healthy(c) && c.fd in sys.open && c.input.Valid() && c.out.Valid() && v == c.Seen(db)
      modifies c`received, c`Repr, c.input, c.input.data, sys`readLog
      ensures if r.Data? then Loaded(c) else Healthy(c)
      ensures fresh(c.Repr - old(c.Repr)) && c.out.data == old(c.out.data)
      ensures c.input.data == old(c.input.data) || fresh(c.input.data)
      ensures sys.readLog == old(sys.readLog) + [c.fd]
      ensures c.received == old(c.received) + if r.Data? then r.bytes else []
      ensures ReadFrom(c, v, r)
    {
      hide Drain, Quiescent, NonEmpty, EncodeAll, ServableLimits, RespParser.Valid;
      r := c.Receive(sys);
    }

    /** Why the event of a connection closes it: the peer is gone, a flush ended it, or its replies piled up. */
    ghost predicate Cause(c: Conn, v: View, r: ReadResult, clock: nat -> int, failures: nat)
      reads sys`sendFailures, c, c.out
    {
      || r.EndOfFile? || r.ReadFailed? || Finished(c, failures)
      || (r.Data? && Total(v.(held := v.held + r.bytes), cap, limits, clock, 0).fate.Overflowing?)
    }

    /** `v` is what was there before the read. */
    ghost predicate ReadFrom(c: Conn, v: View, r: ReadResult)
      reads c, c.input, c.out, c.parser, c.input.data, c.out.data, db
    {
      if r.Data? then
        c.input.Valid() && c.out.Valid() && c.Seen(db) == v.(held := v.held + r.bytes)
      else
        db.State() == v.store && c.argvs == v.argvs && c.replies == v.replies
    }

    /** What handle_read does with the result of its read. */
    method AfterRead(c: Conn, r: ReadResult, clock: nat -> int, ghost v: View) returns (alive: bool)
      requires Tables() && c.fd in conns && conns[c.fd] == c && if r.Data? then Loaded(c) else Healthy(c)
      requires Consistent(db.State()) && forall i :: PastHalfSecond(clock(i))
      requires ReadFrom(c, v, r)
      modifies this`spareFd, this`listenerPaused, this`conns, loop`handlers, loop`retired, loop`made
      modifies sys`open, sys`born, sys`registered, sys`armed, sys`refusals, sys`signals, sys`fullLog, sys`sendFailures
      modifies c, c.parser, c.input, c.out, c.out.data, db
      ensures Outcome(c, alive) && Consistent(db.State()) && c.received == old(c.received)
      ensures r.NothingYet? ==> alive
      ensures r.EndOfFile? || r.ReadFailed? ==> !alive
      ensures Replied(c, v, r, clock)
      ensures r.Data? && Total(v.(held := v.held + r.bytes), cap, limits, clock, 0).fate.Overflowing? ==> !alive
      ensures r.Data? && alive && c.out.Readable() > 0 ==> Logged(old(sys.fullLog), sys.fullLog, c.fd)
      ensures old(sys.fullLog) <= sys.fullLog && sys.sendFailures >= old(sys.sendFailures)
      ensures !alive ==> Cause(c, v, r, clock, old(sys.sendFailures))
    {
      hide Kept, Healthy, Loaded, Consistent, Tables, TablesWith, Total;
      KeptAll(Snapshot(), Snapshot(), Snapshot(), listenFd, c.fd);
      BuffersAreValid(c);
      if r.EndOfFile? || r.ReadFailed? {
        CloseConn(c);
        return false;
      }
      if r.NothingYet? {
        return true;
      }
      alive := ProcessInput(c, clock);
    }

    /** One read per readiness report; an end of file or a hard error closes the connection. */
    method HandleRead(c: Conn, clock: nat -> int) returns (alive: bool, ghost r: ReadResult)
      requires Tables() && c.fd in conns && conns[c.fd] == c && Healthy(c)
      requires Consistent(db.State()) && forall i :: PastHalfSecond(clock(i))
      modifies this`spareFd, this`listenerPaused, this`conns, sys, loop`handlers, loop`retired, loop`made
      modifies c, c.parser, c.input, c.out, c.input.data, c.out.data, db
      ensures Outcome(c, alive) && Consistent(db.State())
      ensures sys.acceptCalls == old(sys.acceptCalls)
      ensures sys.readLog == old(sys.readLog) + [c.fd]
      ensures c.received == old(c.received) + if r.Data? then r.bytes else []
      ensures r.NothingYet? ==> alive
      ensures r.EndOfFile? || r.ReadFailed? ==> !alive
      ensures Replied(c, old(c.Seen(db)), r, clock)
      ensures r.Data? && alive && c.out.Readable() > 0 ==> Logged(old(sys.fullLog), sys.fullLog, c.fd)
      ensures old(sys.fullLog) <= sys.fullLog && sys.sendFailures >= old(sys.sendFailures)
      ensures !alive ==> Cause(c, old(c.Seen(db)), r, clock, old(sys.sendFailures))
    {
      hide Conn.Conserved, Finished, Logged;
      hide Kept, Healthy, Loaded, Consistent, Total, EventLoop.Valid, Replied, Cause, ReadFrom, PastHalfSecond;
      BuffersAreValid(c);
      assert c.fd in sys.open;
      hide Tables, TablesWith;
      ghost var v := c.Seen(db);
      var got := ReadInto(c, v);
      r := got;
      alive := AfterRead(c, got, clock, v);
    }

    /** The read half of the callback. */
    method ReadIfReady(c: Conn, readable: bool, clock: nat -> int) returns (alive: bool, ghost r: ReadResult)
      requires Tables() && c.fd in conns && conns[c.fd] == c && Healthy(c)
      requires Consistent(db.State()) && forall i :: PastHalfSecond(clock(i))
      modifies this`spareFd, this`listenerPaused, this`conns, sys, loop`handlers, loop`retired, loop`made
      modifies c, c.parser, c.input, c.out, c.input.data, c.out.data, db
      ensures Outcome(c, alive) && Consistent(db.State())
      ensures sys.acceptCalls == old(sys.acceptCalls)
      ensures sys.readLog == old(sys.readLog) + if readable then [c.fd] else []
      ensures !readable ==> r == NothingYet
      ensures c.received == old(c.received) + if r.Data? then r.bytes else []
      ensures Replied(c, old(c.Seen(db)), r, clock)
      ensures r.Data? && alive && c.out.Readable() > 0 ==> Logged(old(sys.fullLog), sys.fullLog, c.fd)
      ensures old(sys.fullLog) <= sys.fullLog && sys.sendFailures >= old(sys.sendFailures)
      ensures !alive ==> Cause(c, old(c.Seen(db)), r, clock, old(sys.sendFailures))
    {
      hide Kept;
      KeptAll(Snapshot(), Snapshot(), Snapshot(), listenFd, c.fd);
      hide Consistent, Tables, TablesWith, Total, Healthy;
      BuffersAreValid(c);
      alive := true;
      r := NothingYet;
      if readable {
        alive, r := HandleRead(c, clock);
      }
    }

    /** The write half of the callback: output left over from before. */
    method FlushLeftover(c: Conn, writable: bool) returns (alive: bool)
      requires Tables() && c.fd in conns && conns[c.fd] == c && Healthy(c)
      modifies this`spareFd, this`listenerPaused, this`conns, loop`handlers, loop`retired, loop`made
      modifies sys`open, sys`born, sys`registered, sys`armed, sys`refusals, sys`signals, sys`fullLog, sys`sendFailures
      modifies c`sent, c`writeArmed, c.out`readPos, c.out`writePos
      ensures Outcome(c, alive)
      ensures alive && c.out.Readable() > 0 && writable ==> Logged(old(sys.fullLog), sys.fullLog, c.fd)
      ensures !alive ==> Finished(c, old(sys.sendFailures))
      ensures old(sys.fullLog) <= sys.fullLog && (alive && !writable ==> c.out.Readable() == old(c.out.Readable()))
    {
      hide Kept;
      KeptAll(Snapshot(), Snapshot(), Snapshot(), listenFd, c.fd);
      hide Tables, TablesWith, Conn.OnTrack, Conn.Drained, EncodeAll;
      alive := true;
      if writable && c.out.Readable() > 0 {
        alive := FlushOutput(c);
      }
      // The callback ends with a test for a closing connection whose output has drained: there is none by now.
      assert alive ==> !(c.closeAfterWrite && c.out.Readable() == 0);
    }

    /** The same, after a read that was made of the view `v`. */
    method FlushRest(c: Conn, writable: bool, ghost v: View, ghost r: ReadResult, clock: nat -> int,
                     ghost failures: nat)
      returns (alive: bool)
      requires Tables() && c.fd in conns && conns[c.fd] == c && Healthy(c)
      requires Replied(c, v, r, clock) && failures <= sys.sendFailures
      modifies this`spareFd, this`listenerPaused, this`conns, loop`handlers, loop`retired, loop`made
      modifies sys, c, c.out`readPos, c.out`writePos
      ensures c.Repr == old(c.Repr) && c.received == old(c.received)
      ensures sys.readLog == old(sys.readLog) && sys.acceptCalls == old(sys.acceptCalls)
      ensures Outcome(c, alive) && Replied(c, v, r, clock)
      ensures alive && c.out.Readable() > 0 && writable ==> Logged(old(sys.fullLog), sys.fullLog, c.fd)
      ensures old(sys.fullLog) <= sys.fullLog && (alive && !writable ==> c.out.Readable() == old(c.out.Readable()))
      ensures !alive ==> Cause(c, v, r, clock, failures)
    {
      hide Kept, KeepsOthers, Snapshot, Tables, TablesWith, Healthy, Total, Replied, Conn.Conserved;
      alive := FlushLeftover(c, writable);
    }

    /** The body of a connection's callback: at most one read, then a flush of what is left over. */
    method ServeConn(c: Conn, readable: bool, writable: bool, clock: nat -> int)
      returns (alive: bool, ghost r: ReadResult)
      requires Tables() && c.fd in conns && conns[c.fd] == c && Healthy(c)
      requires Consistent(db.State()) && forall i :: PastHalfSecond(clock(i))
      modifies this`spareFd, this`listenerPaused, this`conns, sys, loop`handlers, loop`retired, loop`made
      modifies c, c.parser, c.input, c.out, c.input.data, c.out.data, db
      ensures Outcome(c, alive) && Consistent(db.State())
      ensures sys.acceptCalls == old(sys.acceptCalls)
      ensures sys.readLog == old(sys.readLog) + if readable then [c.fd] else []
      ensures !readable ==> r == NothingYet
      ensures c.received == old(c.received) + if r.Data? then r.bytes else []
      ensures Replied(c, old(c.Seen(db)), r, clock)
      ensures alive && c.out.Readable() > 0 && (writable || r.Data?) ==> Logged(old(sys.fullLog), sys.fullLog, c.fd)
      ensures old(sys.fullLog) <= sys.fullLog
      ensures !alive ==> Cause(c, old(c.Seen(db)), r, clock, old(sys.sendFailures))
    {
      hide Logged;
      hide Kept, Consistent, Tables, TablesWith, Total, Healthy, Replied, Cause, Conn.Conserved;
      BuffersAreValid(c);
      ghost var v, failures := c.Seen(db), sys.sendFailures;
      alive, r := ReadIfReady(c, readable, clock);
      if alive {
        ghost var between, log := Snapshot(), sys.fullLog;
        alive := FlushRest(c, writable, v, r, clock, failures);
        KeptAll(old(Snapshot()), between, Snapshot(), listenFd, c.fd);
        LogGoesOn(old(sys.fullLog), log, sys.fullLog, c.fd);
      }
    }

    // ----- Events

    /** No object of one connection is an object of the other. */
    ghost predicate Apart(c: Conn, d: Conn)
      reads c.input, c.out, d.input, d.out
    {
      && c != d && c.parser != d.parser
      && c.input != d.input && c.input != d.out && c.out != d.input && c.out != d.out
      && c.input.data != d.input.data && c.input.data != d.out.data
      && c.out.data != d.input.data && c.out.data != d.out.data
    }

    lemma DisjointMemory(c: Conn, d: Conn)
      requires c.Owned() && d.Owned() && c.Repr !! d.Repr
      ensures Apart(c, d)
    {
      assert c in c.Repr && c.parser in c.Repr && c.input in c.Repr && c.out in c.Repr;
      assert c.input.data in c.Repr && c.out.data in c.Repr;
    }

    lemma ConnApart(fd: int)
      requires Tables() && Clients() && fd in conns
      ensures var c := conns[fd];
        && c.fd == fd && fd != listenFd && c.limits == limits && Healthy(c)
        && forall g :: g in conns && g != fd ==> Apart(c, conns[g])
    {
      hide Conn.Settled, EventLoop.Valid;
      forall g | g in conns && g != fd ensures Apart(conns[fd], conns[g]) {
        DisjointMemory(conns[fd], conns[g]);
      }
    }

    twostate predicate Untouched(d: Conn)
      reads d, d.input, d.out, d.parser, d.input.data, d.out.data
    {
      && unchanged(d) && unchanged(d.input) && unchanged(d.out) && unchanged(d.parser)
      && unchanged(d.input.data) && unchanged(d.out.data)
    }

    twostate lemma HealthyStays(d: Conn)
      requires old(Healthy(d)) && (d.fd in sys.armed <==> d.fd in old(sys.armed)) && Untouched(d)
      ensures Healthy(d)
    {
      hide Conn.Settled, Conn.Owned;
    }

    /** Connections that are not served keep their queues, and none is new. */
    lemma QueuesOfOthers(a: map<int, int>, b: map<int, int>, before: Picture, after: Picture, fd: int)
      requires a.Keys == before.conns.Keys && b.Keys == after.conns.Keys && Kept(before, after, listenFd, fd)
      requires after.conns.Keys <= before.conns.Keys
      requires forall f :: f in b && f != fd ==> f in a && b[f] == a[f]
      ensures forall f :: f in a && f != fd ==> f in b && b[f] == a[f]
      ensures b.Keys <= a.Keys
    {}

    lemma QueueOf(c: Conn, alive: bool)
      requires alive ==> Healthy(c) && c.fd in conns && conns[c.fd] == c
      ensures alive ==> c.out.Valid() && Queued()[c.fd] == c.out.Readable()
    {
      hide Conn.OnTrack, Conn.Drained, Conn.Conserved, Conn.Owned, RespParser.Valid, ServableLimits;
    }

    twostate lemma OthersStayHealthy(c: Conn)
      requires old(Tables()) && old(Clients()) && old(c.fd in conns && conns[c.fd] == c) && Outcome(c, c.fd in conns)
      requires forall g :: g in old(conns) && g != c.fd ==> Untouched(old(conns)[g])
      ensures forall g :: g in conns && g != c.fd ==> Healthy(conns[g])
    {
      hide Conn.Settled, Conn.Owned, EventLoop.Valid;
      forall g | g in conns && g != c.fd ensures Healthy(conns[g]) {
        HealthyStays(conns[g]);
      }
    }

    /** The event of one connection leaves all the others healthy and separate. */
    twostate lemma ClientsStay(c: Conn)
      requires old(Tables()) && old(Clients()) && old(c.fd in conns && conns[c.fd] == c) && Outcome(c, c.fd in conns)
      requires forall g :: g in old(conns) && g != c.fd ==> Untouched(old(conns)[g])
      ensures Clients() && FreshMemory()
    {
      hide Tables, TablesWith, Healthy, Conn.Conserved;
      OthersStayHealthy(c);
    }

    twostate lemma OthersAreTold(c: Conn)
      requires old(Told()) && journal == old(journal) && old(c.fd in conns && conns[c.fd] == c)
      requires Outcome(c, c.fd in conns)
      requires forall g :: g in old(conns) && g != c.fd ==> Untouched(old(conns)[g])
      ensures AllSensible(journal) && forall f :: f in conns && conns[f] != c ==> ToldOf(conns[f])
    {
      hide AllSensible, StoreAfter, RepliesTo, CommandsOf, NonEmpty, Tables, Healthy;
    }

    lemma SeenIsSound(c: Conn)
      requires Healthy(c)
      ensures c.input.Valid() && c.out.Valid()
      ensures WellFormed(c.parser.State(), c.limits) && ServableLimits(c.limits)
      ensures Told() && c.fd in conns && conns[c.fd] == c ==> Accounted(c, c.Seen(db))
    {
      hide AllSensible, StoreAfter, RepliesTo, CommandsOf, NonEmpty;
      hide Conn.OnTrack, Conn.Drained, EncodeAll, ServableLimits, WellFormed;
      ParserIsWellFormed(c.parser);
    }

    /** Serves a connection as its event calls for. */
    method ServeActing(c: Conn, readable: bool, writable: bool, clock: nat -> int)
      returns (alive: bool, ghost r: ReadResult)
      requires Tables() && Clients() && Consistent(db.State()) && forall i :: PastHalfSecond(clock(i))
      requires c.fd in conns && conns[c.fd] == c && c.input.Valid() && c.out.Valid()
      modifies this`spareFd, this`listenerPaused, this`conns, sys, loop`handlers, loop`retired, loop`made
      modifies c, c.parser, c.input, c.out, c.input.data, c.out.data, db
      ensures Outcome(c, alive) && Consistent(db.State())
      ensures Replied(c, old(c.Seen(db)), r, clock)
      ensures Acted(old(Done()), Done(), listenFd, c.fd, readable, writable)
    {
      hide Kept, Clients, Consistent, Tables, Healthy, Replied, Cause, Conn.Conserved, Logged, Acted;
      ConnApart(c.fd);
      ghost var before, others := Done(), Snapshot();
      alive, r := ServeConn(c, readable, writable, clock);
      QueuesOfOthers(before.queued, Queued(), others, Snapshot(), c.fd);
      QueueOf(c, alive);
      ClientActed(before, Done(), listenFd, c.fd, readable, writable);
    }

    /** Serves a connection; the accounts of all others stay true. */
    method ServeApart(c: Conn, readable: bool, writable: bool, clock: nat -> int) returns (ghost r: ReadResult)
      requires Tables() && Clients() && Told() && Consistent(db.State()) && forall i :: PastHalfSecond(clock(i))
      requires c.fd in conns && conns[c.fd] == c && c.input.Valid() && c.out.Valid()
      modifies this`spareFd, this`listenerPaused, this`conns, sys, loop`handlers, loop`retired, loop`made, db
      modifies c, c.parser, c.input, c.out, c.input.data, c.out.data
      ensures Clients() && Consistent(db.State()) && FreshMemory() && Outcome(c, c.fd in conns)
      ensures AllSensible(journal) && forall f :: f in conns && conns[f] != c ==> ToldOf(conns[f])
      ensures Replied(c, old(c.Seen(db)), r, clock)
      ensures Acted(old(Done()), Done(), listenFd, c.fd, readable, writable)
    {
      hide Kept, KeepsOthers, Snapshot, Clients, Told, ToldOf, AllSensible, Consistent, Tables, Healthy, Replied;
      hide ServableLimits, WellFormed, FreshMemory, Acted;
      ConnApart(c.fd);
      var alive, got := ServeActing(c, readable, writable, clock);
      r := got;
      ClientsStay(c);
      OthersAreTold(c);
    }

    /** Serves a connection and enters what came of it into the journal. */
    method ServeClient(c: Conn, readable: bool, writable: bool, clock: nat -> int)
      requires Tables() && Clients() && Told() && Consistent(db.State()) && forall i :: PastHalfSecond(clock(i))
      requires c.fd in conns && conns[c.fd] == c
      modifies this`spareFd, this`listenerPaused, this`conns, this`journal
      modifies sys, loop`handlers, loop`retired, loop`made, db
      modifies c, c.parser, c.input, c.out, c.input.data, c.out.data
      ensures Clients() && Told() && ToldOf(c) && Consistent(db.State()) && FreshMemory()
      ensures Extends(old(journal), journal, clock)
      ensures Outcome(c, c.fd in conns)
      ensures c.fd !in conns ==> c.Conserved() && (c.out.Readable() == 0 ==> c.sent == EncodeAll(c.replies))
      ensures Acted(old(Done()), Done(), listenFd, c.fd, readable, writable)
    {
      hide Kept, KeepsOthers, Snapshot, Clients, Told, ToldOf, Accounted, AllSensible, Consistent, Tables, Healthy;
      hide Replied, ServableLimits, WellFormed, FreshMemory, Extends, Acted;
      ConnApart(c.fd);
      SeenIsSound(c);
      ghost var v := c.Seen(db);
      var r := ServeApart(c, readable, writable, clock);
      Chronicle(c, v, r, clock);
    }

    /** The callback of a connection. Nothing but the connection's own event changes or closes it. */
    method OnConnEvent(fd: int, readable: bool, writable: bool, clock: nat -> int)
      requires Tables() && Clients() && Told() && Consistent(db.State()) && forall i :: PastHalfSecond(clock(i))
      modifies this`spareFd, this`listenerPaused, this`conns, this`journal
      modifies sys, loop`handlers, loop`retired, loop`made, db
      modifies if fd in conns then conns[fd].Objects() else {}
      ensures Tables() && Clients() && Told() && Consistent(db.State()) && KeepsOthers(fd) && FreshMemory()
      ensures deliveries == old(deliveries) && waitLog.batches == old(waitLog.batches)
      ensures Extends(old(journal), journal, clock)
      ensures if fd in old(conns) then Acted(old(Done()), Done(), listenFd, fd, readable, writable)
              else Done() == old(Done())
      ensures fd in conns ==> fd in old(conns) && conns[fd] == old(conns)[fd]
    {
      hide Kept;
      KeptAll(Snapshot(), Snapshot(), Snapshot(), listenFd, fd);
      hide Clients, Told, Consistent, Tables, Healthy, Extends, Acted;
      ExtendsByNothing(journal, clock);
      if fd in conns {
        ConnApart(fd);
        ServeClient(conns[fd], readable, writable, clock);
      }
    }

    /** Every event so far reached the incarnation of its descriptor that it was reported for. */
    ghost predicate Faithful()
      reads this`deliveries
    {
      forall i :: 0 <= i < |deliveries| ==> deliveries[i].reported == deliveries[i].reached
    }

    /** Every event ever reported was delivered, in order, to the incarnation it was reported for. */
    ghost predicate NothingLost()
      reads waitLog, this`deliveries
    {
      deliveries == AllDelivered(Flatten(waitLog.batches))
    }

    /** Everything that holds between two events. */
    ghost predicate Sound()
      reads *
    {
      && Tables() && Clients() && Told() && Faithful() && loop.running == None
      && Consistent(db.State()) && Consistent(origin) && ServableLimits(limits)
    }

    /** The descriptor of a report is still the one that was reported, and it is still being watched. */
    ghost predicate Current(ev: Ready)
      reads this, sys
    {
      && 0 <= ev.fd && ev.fd in sys.open && sys.open[ev.fd] == ev.incarnation
      && (ev.fd in conns || (ev.fd == listenFd && !listenerPaused))
    }

    lemma CurrentIsWatched(ev: Ready)
      requires Tables() && Current(ev)
      ensures ev.fd in loop.handlers
    {
      hide EventLoop.Valid;
    }

    /** The dispatch frame: the callback found in the table is alive for as long as it runs. */
    ghost method EnterFrame(fd: int)
      requires Tables() && Clients() && fd in loop.handlers && loop.running == None
      modifies loop`running
      ensures Tables() && Clients() && loop.running == Some(loop.handlers[fd])
    {
      hide Healthy;
      loop.Enter(fd);
    }

    ghost method LeaveFrame()
      requires Tables() && Clients()
      modifies loop`running
      ensures Tables() && Clients() && loop.running == None
    {
      hide Healthy;
      loop.Leave();
    }

    /** The callback of the listener: it accepts when readable. */
    method OnListenerEvent(readable: bool, ghost writable: bool)
      requires Tables() && Clients() && Told() && ServableLimits(limits)
      modifies this`spareFd, this`listenerPaused, this`conns
      modifies sys`open, sys`born, sys`registered, sys`armed, sys`refusals, sys`acceptCalls, sys`lastAccept
      modifies loop`handlers, loop`retired, loop`made
      ensures Tables() && Clients() && Told() && KeepsOthers(listenFd) && FreshMemory()
      ensures Acted(old(Done()), Done(), listenFd, listenFd, readable, writable)
    {
      hide Kept, Clients, Told, ServableLimits, Acted, QueuesGrow;
      NoSuchClient();
      hide Tables;
      ghost var before, picture := Done(), Snapshot();
      KeptAll(picture, picture, picture, listenFd, -1);
      QueuesGrowOn(Queued(), Queued(), Queued());
      if readable {
        var _ := OnListenerReadable();
      }
      KeptByListener(picture, Snapshot(), listenFd);
      ListenerActed(before, Done(), listenFd, readable, writable);
    }

    lemma NoSuchClient()
      requires Tables()
      ensures -1 !in conns && -1 !in sys.open
    {
      hide EventLoop.Numbered, EventLoop.Owns;
    }

    lemma HandlerOf(fd: int)
      requires Tables() && fd in loop.handlers
      ensures if loop.handlers[fd].target == ToListener then fd == listenFd else fd in conns
    {
      hide EventLoop.Valid;
    }

    method RunCallback(ev: Ready, clock: nat -> int)
      requires Tables() && Clients() && Told() && Consistent(db.State()) && ServableLimits(limits)
      requires ev.fd in loop.handlers && forall i :: PastHalfSecond(clock(i))
      modifies this`spareFd, this`listenerPaused, this`conns, this`journal
      modifies sys, loop`handlers, loop`retired, loop`made, db
      modifies if ev.fd in conns then conns[ev.fd].Objects() else {}
      ensures Tables() && Clients() && Told() && Consistent(db.State()) && KeepsOthers(ev.fd) && FreshMemory()
      ensures deliveries == old(deliveries) && waitLog.batches == old(waitLog.batches)
      ensures Extends(old(journal), journal, clock)
      ensures Acted(old(Done()), Done(), listenFd, ev.fd, ev.readable, ev.writable)
    {
      hide Kept, Clients, Told, Consistent, ServableLimits, Extends, Acted, Tables;
      ExtendsByNothing(journal, clock);
      HandlerOf(ev.fd);
      var cb := loop.handlers[ev.fd];
      if cb.target == ToListener {
        OnListenerEvent(ev.readable, ev.writable);
      } else {
        OnConnEvent(ev.fd, ev.readable, ev.writable, clock);
      }
    }

    /** Records where an event goes. */
    ghost method Log(ev: Ready)
      requires Tables() && Clients() && Current(ev) && ev.fd in loop.handlers && Faithful()
      modifies this`deliveries
      ensures Tables() && Clients() && Faithful()
      ensures deliveries == old(deliveries) + [Delivered(ev)]
      ensures deliveries[|deliveries| - 1].reached ==
                if ev.fd in conns then conns[ev.fd].incarnation else sys.open[listenFd]
    {
      hide Healthy, EventLoop.Valid;
      var reached := if ev.fd in conns then conns[ev.fd].incarnation else sys.open[listenFd];
      deliveries := deliveries + [Delivery(ev.fd, ev.incarnation, reached)];
    }

    /**
     Dispatches one report to the callback registered for its descriptor. The lookup cannot fail: no
     event but its own closes a connection or pauses the listener.
     */
    method Deliver(ev: Ready, clock: nat -> int)
      requires Sound() && Current(ev) && forall i :: PastHalfSecond(clock(i))
      modifies this`spareFd, this`listenerPaused, this`conns, this`deliveries, this`journal, sys, loop, db
      modifies if ev.fd in conns then conns[ev.fd].Objects() else {}
      ensures Sound() && KeepsOthers(ev.fd) && FreshMemory() && waitLog.batches == old(waitLog.batches)
      ensures Extends(old(journal), journal, clock)
      ensures deliveries == old(deliveries) + [Delivered(ev)]
      ensures Acted(old(Done()), Done(), listenFd, ev.fd, ev.readable, ev.writable)
    {
      hide Kept, Clients, Told, Consistent, ServableLimits, Tables, Faithful, Extends, Acted;
      CurrentIsWatched(ev);
      if ev.fd in loop.handlers {
        Log(ev);
        InFrame(ev, clock);
      }
    }

    /** Runs a callback in a frame of its own. */
    method InFrame(ev: Ready, clock: nat -> int)
      requires Tables() && Clients() && Told() && Consistent(db.State()) && ServableLimits(limits)
      requires ev.fd in loop.handlers && loop.running == None && forall i :: PastHalfSecond(clock(i))
      modifies this`spareFd, this`listenerPaused, this`conns, this`journal, sys, loop, db
      modifies if ev.fd in conns then conns[ev.fd].Objects() else {}
      ensures Tables() && Clients() && Told() && Consistent(db.State()) && KeepsOthers(ev.fd) && FreshMemory()
      ensures deliveries == old(deliveries) && waitLog.batches == old(waitLog.batches) && loop.running == None
      ensures Extends(old(journal), journal, clock)
      ensures Acted(old(Done()), Done(), listenFd, ev.fd, ev.readable, ev.writable)
    {
      hide Kept, Clients, Told, Consistent, ServableLimits, Tables, Extends, Acted, Done, Queued;
      ghost var before := Snapshot();
      EnterFrame(ev.fd);
      RunCallback(ev, clock);
      KeptFramed(before, Snapshot(), listenFd, ev.fd, loop.running);
      LeaveFrame();
    }

    /** The memory of all connections. */
    ghost function Memory(): set<object>
      reads this`conns
      reads set f | f in conns :: conns[f]
    {
      set f, o | f in conns && o in conns[f].Repr :: o
    }

    /**
     One batch: whatever closes or is accepted meanwhile, every report reaches, in order, the
     incarnation of its descriptor that it was made for.
     */
    method DispatchBatch(events: seq<Ready>, clock: nat -> nat -> int)
      requires Sound() && Reportable(events, sys.open, sys.registered)
      requires forall e, i :: PastHalfSecond(clock(e)(i))
      modifies this`spareFd, this`listenerPaused, this`conns, this`deliveries, this`journal, sys, loop, db, Memory()
      ensures Sound() && FreshMemory() && waitLog.batches == old(waitLog.batches)
      ensures ExtendsBatch(old(journal), journal, clock)
      ensures deliveries == old(deliveries) + AllDelivered(events)
      ensures BatchActed(old(Done()), Done(), listenFd, events)
    {
      hide Sound, AllDelivered, Extends, ExtendsUpTo, ExtendsBatch, Acted, BatchActed;
      NothingHeard(Done(), listenFd);
      BatchStarts(journal, clock);
      BatchIsCurrent(events);
      assert events[..0] == [];
      var i := 0;
      while i < |events|
        invariant 0 <= i <= |events|
        invariant Sound() && FreshMemory() && waitLog.batches == old(waitLog.batches)
        invariant ExtendsUpTo(old(journal), journal, clock, i)
        invariant deliveries == old(deliveries) + AllDelivered(events[..i])
        invariant BatchActed(old(Done()), Done(), listenFd, events[..i])
        invariant forall j :: i <= j < |events| ==> Current(events[j])
      {
        assert forall k :: PastHalfSecond(clock(i)(k));
        OwnMemory(events[i].fd);
        DeliveredMore(events, i);
        ghost var before, done := journal, Done();
        Deliver(events[i], clock(i));
        BatchGoesOn(old(journal), before, journal, clock, i);
        BatchActsOn(old(Done()), done, Done(), listenFd, events, i);
        i := i + 1;
      }
      assert events[..i] == events;
      BatchEnds(old(journal), journal, clock, i);
    }

    lemma DeliveredMore(events: seq<Ready>, i: nat)
      requires i < |events|
      ensures AllDelivered(events[..i + 1]) == AllDelivered(events[..i]) + [Delivered(events[i])]
    {
      assert events[..i + 1][..i] == events[..i];
    }

    lemma BatchIsCurrent(events: seq<Ready>)
      requires Sound() && Reportable(events, sys.open, sys.registered)
      ensures forall j :: 0 <= j < |events| ==> Current(events[j])
    {
      hide Clients, Told, Consistent, ServableLimits, Faithful;
    }

    lemma OwnMemory(fd: int)
      requires Sound()
      ensures fd in conns ==> conns[fd].Objects() <= conns[fd].Repr
    {
      hide Conn.Settled, Tables, Told, Consistent, ServableLimits, Faithful;
    }

    ghost method ChronicleCycle(before: Store, samples: nat, chance: Chance)
      requires AllSensible(journal) && before == StoreAfter(origin, journal) && Possible(chance)
      requires db.State() == RunCycle(before, samples, chance, 0).store
      requires forall f :: f in conns ==> ToldOf(conns[f])
      modifies this`journal
      ensures Told() && journal == old(journal) + [Cycled(samples, chance)]
    {
      hide Possible, RunCycle, NonEmpty;
      var k := [Cycled(samples, chance)];
      assert AllSensible(k) && k[1..] == [];
      StoreContinued(origin, journal, k);
      forall f | f in conns
        ensures CommandsOf(journal + k, conns[f]) == CommandsOf(journal, conns[f])
        ensures RepliesTo(origin, journal + k, conns[f]) == RepliesTo(origin, journal, conns[f])
      {
        Continued(origin, journal, k, conns[f]);
        NotAnOwner(before, k, conns[f]);
      }
      journal := journal + k;
    }

    method Cycle(samples: nat, chance: Chance)
      requires Told() && Consistent(db.State()) && Possible(chance)
      modifies db, this`journal
      ensures Told() && Consistent(db.State()) && journal == old(journal) + [Cycled(samples, chance)]
      ensures Live(db.State(), chance.clock(MAX_ROUNDS)) == Live(old(db.State()), chance.clock(MAX_ROUNDS))
    {
      hide Consistent, RunCycle, Possible, Live, AllSensible, StoreAfter, ToldOf;
      CycleIsInvisible(db.State(), samples, chance);
      ghost var before := db.State();
      var _ := db.ActiveExpireCycle(samples, chance);
      ChronicleCycle(before, samples, chance);
    }

    /** The tick after a batch: one expiry cycle, and the retired callbacks destroyed. */
    method Tick(samples: nat, chance: Chance)
      requires Sound() && Possible(chance)
      modifies db, loop`retired, this`journal
      ensures Sound() && loop.retired == [] && journal == old(journal) + [Cycled(samples, chance)]
      ensures Live(db.State(), chance.clock(MAX_ROUNDS)) == Live(old(db.State()), chance.clock(MAX_ROUNDS))
    {
      hide Clients, Tables, Told, Faithful, ServableLimits, Consistent, Possible, Live;
      Cycle(samples, chance);
      ClearRetired();
    }

    method ClearRetired()
      requires Tables() && loop.running == None
      modifies loop`retired
      ensures Tables() && loop.retired == [] && loop.running == None
    {
      hide EventLoop.Numbered;
      loop.ClearRetired();
    }

    /** The rest of an iteration, after the wait: dispatch the batch, then tick. */
    method Iterate(events: seq<Ready>, clock: nat -> nat -> int, samples: nat, chance: Chance)
      requires Sound() && Reportable(events, sys.open, sys.registered)
      requires forall e, i :: PastHalfSecond(clock(e)(i))
      requires Possible(chance)
      modifies this`spareFd, this`listenerPaused, this`conns, this`deliveries, this`journal
      modifies sys, loop, db, Memory()
      ensures Sound() && FreshMemory() && waitLog.batches == old(waitLog.batches)
      ensures deliveries == old(deliveries) + AllDelivered(events)
      ensures BatchActed(old(Done()), Done(), listenFd, events)
      ensures loop.retired == [] && journal != [] && journal[|journal| - 1] == Cycled(samples, chance)
      ensures ExtendsBatch(old(journal), journal[..|journal| - 1], clock)
    {
      hide Sound, AllDelivered, Possible, Reportable, PastHalfSecond, ExtendsBatch, BatchActed, Done, Queued;
      DispatchBatch(events, clock);
      Tick(samples, chance);
    }

    /**
     The event loop for any number of iterations, in any environment: descriptors stay accounted for,
     connections stay sound, every report of every wait is delivered to its own incarnation, and the
     reads and accepts are those that the reports call for, in order.
     */
    method RunLoop(iterations: nat, clock: nat -> nat -> nat -> int, samples: nat, chance: nat -> Chance)
      requires Sound() && NothingLost()
      requires forall n, e, i :: PastHalfSecond(clock(n)(e)(i))
      requires forall n :: Possible(chance(n))
      modifies this`spareFd, this`listenerPaused, this`conns, waitLog, this`deliveries, this`journal
      modifies sys, loop, db, Memory()
      ensures Sound() && NothingLost() && FreshMemory()
      ensures old(waitLog.batches) <= waitLog.batches && |waitLog.batches| == old(|waitLog.batches|) + iterations
      ensures Heard(old(Done()), Done(), listenFd, Flatten(waitLog.batches[old(|waitLog.batches|)..]))
      ensures ExtendsRun(old(journal), journal, clock, chance, iterations)
      ensures iterations > 0 ==>
                loop.retired == [] && journal != [] && journal[|journal| - 1] == Cycled(samples, chance(iterations - 1))
    {
      hide Sound, AllDelivered, ExtendsBatch, ExtendsRun, Possible, Heard;
      RunStarts(journal, clock, chance);
      NothingHeard(Done(), listenFd);
      assert waitLog.batches[|waitLog.batches|..] == [];
      ghost var first := |waitLog.batches|;
      var n := 0;
      while n < iterations
        invariant 0 <= n <= iterations && |waitLog.batches| == first + n && old(waitLog.batches) <= waitLog.batches
        invariant Sound() && NothingLost() && FreshMemory()
        invariant Heard(old(Done()), Done(), listenFd, Flatten(waitLog.batches[first..]))
        invariant ExtendsRun(old(journal), journal, clock, chance, n)
        invariant n > 0 ==>
                    loop.retired == [] && journal != [] && journal[|journal| - 1] == Cycled(samples, chance(n - 1))
      {
        ghost var before, done, batches := journal, Done(), waitLog.batches;
        assert forall e, i :: PastHalfSecond(clock(n)(e)(i));
        Turn(clock(n), samples, chance(n));
        MoreHeard(old(Done()), done, Done(), batches, waitLog.batches, first);
        ghost var served := journal[..|journal| - 1];
        assert journal == served + [Cycled(samples, chance(n))];
        RunGoesOn(old(journal), before, served, clock, chance, n, samples);
        n := n + 1;
      }
    }

    lemma MoreHeard(a: Effects, b: Effects, c: Effects, before: seq<seq<Ready>>, after: seq<seq<Ready>>, first: nat)
      requires first <= |before| < |after| && after == before + [after[|before|]]
      requires Heard(a, b, listenFd, Flatten(before[first..])) && Heard(b, c, listenFd, after[|before|])
      ensures Heard(a, c, listenFd, Flatten(after[first..]))
    {
      hide Heard;
      var events := after[|before|];
      MoreBatches(before, events, first);
      HeardMore(a, b, c, listenFd, Flatten(before[first..]), events);
    }

    /** One iteration: wait, dispatch, tick. */
    method Turn(clock: nat -> nat -> int, samples: nat, chance: Chance)
      requires Sound() && NothingLost()
      requires forall e, i :: PastHalfSecond(clock(e)(i))
      requires Possible(chance)
      modifies this`spareFd, this`listenerPaused, this`conns, waitLog, this`deliveries, this`journal
      modifies sys, loop, db, Memory()
      ensures Sound() && NothingLost() && FreshMemory()
      ensures |waitLog.batches| == old(|waitLog.batches|) + 1
      ensures var events := waitLog.batches[old(|waitLog.batches|)];
        waitLog.batches == old(waitLog.batches) + [events] && Heard(old(Done()), Done(), listenFd, events)
      ensures loop.retired == [] && journal != [] && journal[|journal| - 1] == Cycled(samples, chance)
      ensures ExtendsBatch(old(journal), journal[..|journal| - 1], clock)
    {
      hide Sound, AllDelivered, Possible, Reportable, ExtendsBatch, Heard, Done, Queued;
      ghost var batches := waitLog.batches;
      var events := WaitForEvents();
      MoreBatches(batches, events, 0);
      assert FreshMemory();
      Iterate(events, clock, samples, chance);
    }

    /**
     What a run means to a client: everything sent or queued is the encoding of its replies, they are
     those that a plain table without expiry cycles gives to its commands among all the others', but
     for DBSIZE, and its commands are those its bytes spell.
     */
    lemma ClientIsAnsweredPlainly(fd: int, t: int)
      requires Sound() && fd in conns && Forward(journal, t)
      ensures var c := conns[fd];
        && c.input.Valid() && c.Conserved() && c.limits == limits
        && SameButSize(SizeFlags(journal, c), c.replies, PlainRepliesTo(origin.entries, journal, c))
        && CommandsOf(journal, c) == NonEmpty(c.argvs)
        && (!c.closeAfterWrite ==>
              Drain(Start, c.received, limits) == Stream(c.argvs, Pending(c.parser.State(), c.input.Contents())))
    {
      hide Tables, Consistent, AllSensible, Forward, EncodeAll, NonEmpty, Drain, CommandsOf, RepliesTo, SameButSize;
      hide PlainRepliesTo, StoreAfter, Conn.Owned, LiveIn, Quiescent, RespParser.Valid, ServableLimits, Faithful;
      var c := conns[fd];
      assert Healthy(c) && ToldOf(c);
      SameLimits(fd);
      RepliesArePlain(origin, origin.entries, journal, t, c);
      if !c.closeAfterWrite {
        QuiescentDrain(c.parser.State(), c.input.Contents(), limits);
      }
    }

    /** Every connection parses within the server's limits. */
    lemma SameLimits(fd: int)
      requires Tables() && fd in conns
      ensures conns[fd].limits == limits
    {
      hide EventLoop.Valid;
    }

    /** After a run from the start, with readings that never decrease, the clock of the journal is in order. */
    lemma RunIsForward(clock: nat -> nat -> nat -> int, chance: nat -> Chance, n: nat, t: int)
      requires ExtendsRun([], journal, clock, chance, n) && Steady(clock, chance, t)
      ensures Forward(journal, t) && End(journal, t) <= Began(chance, n, t)
    {
      hide Forward, Steady;
      assert journal[0..] == journal;
    }

    /** A client that sends no unknown command with a line end can read every byte of what it is sent. */
    lemma ClientReadsReplies(fd: int)
      requires Sound() && fd in conns && AllReadable(NonEmpty(conns[fd].argvs))
      ensures var c := conns[fd]; c.Conserved() && DecodeAll(c.sent + c.out.Contents()) == Some(c.replies)
    {
      hide Tables, Consistent, AllSensible, EncodeAll, NonEmpty, CommandsOf, RepliesTo, AllReadable, DecodeAll;
      hide StoreAfter, Conn.Owned, Conn.OnTrack, Conn.Drained, RespParser.Valid, ServableLimits, Faithful, Framed;
      var c := conns[fd];
      assert Healthy(c) && ToldOf(c);
      RepliesAreFramed(origin, journal, c);
      DecodeAllEncodeAll(c.replies);
    }

    /**
     Is the farewell the last reply? The event of a connection adds a reply if and only if its read
     finishes a non-empty command or breaks the framing, whether or not the connection is closing.
     */
    lemma FarewellIsLast(c: Conn, v: View, r: ReadResult, clock: nat -> int)
      requires Replied(c, v, r, clock)
      ensures c.replies == v.replies <==> (r.Data? ==> Silent(Drain(v.st, v.held + r.bytes, limits)))
    {
      hide Serve, Silent, Drain;
      if r.Data? {
        SilentPass(v.st, v.held + r.bytes, v.store, v.pending, cap, limits, clock, 0);
        var p := Serve(v.st, v.held + r.bytes, v.store, v.pending, cap, limits, clock, 0);
        assert c.replies == v.replies + p.replies;
        assert c.replies[|v.replies|..] == p.replies;
      }
    }

    method WaitForEvents() returns (events: seq<Ready>)
      requires Sound()
      modifies waitLog
      ensures Sound() && waitLog.batches == old(waitLog.batches) + [events]
      ensures Reportable(events, sys.open, sys.registered)
    {
      hide Clients, Told, Consistent, ServableLimits, Faithful;
      events := sys.Wait(waitLog);
    }
  }
}
