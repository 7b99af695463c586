/** What an event must bring about: the reads, the accepts and the flushes that it was reported for. */
module Effects {
  import opened Octets
  import opened Kernel

  /** The logs of the system calls, and how many bytes of output are queued for each connection. */
  datatype Effects = Effects(readLog: seq<int>, accepts: nat, fullLog: seq<int>, queued: map<int, int>)

  /** The read that an event calls for: one, from a client that is reported readable. */
  function ReadsOf(ev: Ready, listenFd: int): seq<int> {
    if ev.readable && ev.fd != listenFd then [ev.fd] else []
  }

  function AllReads(events: seq<Ready>, listenFd: int): seq<int> {
    if events == [] then []
    else AllReads(events[..|events| - 1], listenFd) + ReadsOf(events[|events| - 1], listenFd)
  }

  predicate CallsForAccept(ev: Ready, listenFd: int) {
    ev.readable && ev.fd == listenFd
  }

  /** How many events call for accepting. */
  function AcceptEvents(events: seq<Ready>, listenFd: int): nat {
    if events == [] then 0
    else AcceptEvents(events[..|events| - 1], listenFd)
         + if CallsForAccept(events[|events| - 1], listenFd) then 1 else 0
  }

  /** Queues stay as they are, and connections that are new have nothing queued. */
  ghost predicate QueuesGrow(a: map<int, int>, b: map<int, int>) {
    && (forall f :: f in a ==> f in b && b[f] == a[f])
    && (forall f :: f in b && f !in a ==> b[f] == 0)
  }

  lemma QueuesGrowOn(a: map<int, int>, b: map<int, int>, c: map<int, int>)
    ensures QueuesGrow(a, a)
    ensures QueuesGrow(a, b) && QueuesGrow(b, c) ==> QueuesGrow(a, c)
  {}

  /** The same but for the queue of `fd`. */
  ghost predicate QueuesKept(a: map<int, int>, b: map<int, int>, fd: int) {
    && (forall f :: f in a && f != fd ==> f in b && b[f] == a[f])
    && (forall f :: f in b && f !in a ==> b[f] == 0)
  }

  /** The output is gone, the socket is full, or the connection is closed. */
  ghost predicate Flushed(a: Effects, b: Effects, fd: int) {
    fd in b.queued ==> b.queued[fd] == 0 || Logged(a.fullLog, b.fullLog, fd)
  }

  /** What the event of `fd` brings about. */
  ghost predicate Acted(a: Effects, b: Effects, listenFd: int, fd: int, readable: bool, writable: bool) {
    && b.readLog == a.readLog + (if readable && fd != listenFd then [fd] else [])
    && (if readable && fd == listenFd then b.accepts > a.accepts else b.accepts == a.accepts)
    && a.fullLog <= b.fullLog
    && QueuesKept(a.queued, b.queued, fd)
    && (writable && fd != listenFd ==> Flushed(a, b, fd))
  }

  /** The event of a client. */
  lemma ClientActed(a: Effects, b: Effects, listenFd: int, fd: int, readable: bool, writable: bool)
    requires fd != listenFd
    requires b.readLog == a.readLog + (if readable then [fd] else []) && b.accepts == a.accepts
    requires a.fullLog <= b.fullLog && (writable ==> Flushed(a, b, fd))
    requires forall f :: f in a.queued && f != fd ==> f in b.queued && b.queued[f] == a.queued[f]
    requires b.queued.Keys <= a.queued.Keys
    ensures Acted(a, b, listenFd, fd, readable, writable)
  {}

  /** The event of the listener. */
  lemma ListenerActed(a: Effects, b: Effects, listenFd: int, readable: bool, writable: bool)
    requires b.readLog == a.readLog && b.fullLog == a.fullLog && QueuesGrow(a.queued, b.queued)
    requires if readable then b.accepts > a.accepts else b.accepts == a.accepts
    ensures Acted(a, b, listenFd, listenFd, readable, writable)
  {}

  /** What the events of a batch bring about: all its reads in order, its accepts, and its flushes. */
  ghost predicate BatchActed(a: Effects, b: Effects, listenFd: int, events: seq<Ready>) {
    && Heard(a, b, listenFd, events)
    && a.fullLog <= b.fullLog
    && (forall j :: 0 <= j < |events| && events[j].writable && events[j].fd != listenFd ==> Flushed(a, b, events[j].fd))
  }

  /** Its reads and accepts alone. */
  ghost predicate Heard(a: Effects, b: Effects, listenFd: int, events: seq<Ready>) {
    && b.readLog == a.readLog + AllReads(events, listenFd)
    && b.accepts >= a.accepts + AcceptEvents(events, listenFd)
    && (AcceptEvents(events, listenFd) == 0 ==> b.accepts == a.accepts)
  }

  lemma NothingHeard(a: Effects, listenFd: int)
    ensures BatchActed(a, a, listenFd, []) && Heard(a, a, listenFd, [])
  {}

  lemma BatchActsOn(a: Effects, b: Effects, c: Effects, listenFd: int, events: seq<Ready>, i: nat)
    requires i < |events| && BatchActed(a, b, listenFd, events[..i])
    requires Acted(b, c, listenFd, events[i].fd, events[i].readable, events[i].writable)
    requires forall j, k :: 0 <= j < k < |events| ==> events[j].fd != events[k].fd
    ensures BatchActed(a, c, listenFd, events[..i + 1])
  {
    hide Logged;
    var ev := events[i];
    assert events[..i + 1][..i] == events[..i];
    Assoc3(a.readLog, AllReads(events[..i], listenFd), ReadsOf(ev, listenFd));
    LogGoesOn(a.fullLog, b.fullLog, c.fullLog, ev.fd);
    forall j | 0 <= j < i + 1 && events[j].writable && events[j].fd != listenFd
      ensures Flushed(a, c, events[j].fd)
    {
      LogGoesOn(a.fullLog, b.fullLog, c.fullLog, events[j].fd);
      if j < i {
        assert events[..i][j] == events[j];
        assert Flushed(a, b, events[j].fd);
      }
    }
  }

  lemma {:induction false} ReadsAppend(a: seq<Ready>, b: seq<Ready>, listenFd: int)
    ensures AllReads(a + b, listenFd) == AllReads(a, listenFd) + AllReads(b, listenFd)
    ensures AcceptEvents(a + b, listenFd) == AcceptEvents(a, listenFd) + AcceptEvents(b, listenFd)
    decreases |b|
  {
    hide AllReads, AcceptEvents;
    if b == [] {
      assert a + b == a;
      NoEvents(listenFd);
    } else {
      var n := |b| - 1;
      assert b == b[..n] + [b[n]] && a + b == a + b[..n] + [b[n]];
      ReadsAppend(a, b[..n], listenFd);
      OneMoreEvent(a + b[..n], b[n], listenFd);
      OneMoreEvent(b[..n], b[n], listenFd);
      Assoc3(AllReads(a, listenFd), AllReads(b[..n], listenFd), ReadsOf(b[n], listenFd));
    }
  }

  lemma NoEvents(listenFd: int)
    ensures AllReads([], listenFd) == [] && AcceptEvents([], listenFd) == 0
  {}

  lemma OneMoreEvent(events: seq<Ready>, ev: Ready, listenFd: int)
    ensures AllReads(events + [ev], listenFd) == AllReads(events, listenFd) + ReadsOf(ev, listenFd)
    ensures AcceptEvents(events + [ev], listenFd) ==
              AcceptEvents(events, listenFd) + if CallsForAccept(ev, listenFd) then 1 else 0
  {
    assert (events + [ev])[..|events|] == events;
  }

  lemma HeardMore(a: Effects, b: Effects, c: Effects, listenFd: int, before: seq<Ready>, events: seq<Ready>)
    requires Heard(a, b, listenFd, before) && Heard(b, c, listenFd, events)
    ensures Heard(a, c, listenFd, before + events)
  {
    ReadsAppend(before, events, listenFd);
    Assoc3(a.readLog, AllReads(before, listenFd), AllReads(events, listenFd));
  }
}
