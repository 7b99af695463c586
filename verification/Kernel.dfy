/**
 The operating system as the server sees it: a nondeterministic environment that hands
 out descriptor numbers, reuses them after close, and takes or gives any number of bytes.
 */
module Kernel {
  import opened Octets

  const READ_CHUNK: nat := 16 * 1024

  datatype AcceptResult = Accepted(fd: int) | QueueEmpty | AcceptAgain | OutOfDescriptors | AcceptFailed

  datatype ReadResult = Data(bytes: Bytes) | EndOfFile | NothingYet | ReadFailed

  datatype SendResult = Sent(n: nat) | Interrupted | WouldBlock | SendFailed

  /** A readiness report, and the incarnation of the descriptor that it is about. */
  datatype Ready = Ready(fd: int, readable: bool, writable: bool, incarnation: nat)

  /** At most one report per descriptor, each about a registered descriptor as it is now open. */
  ghost predicate Reportable(events: seq<Ready>, open: map<int, nat>, registered: set<int>) {
    && (forall i :: 0 <= i < |events| ==>
          events[i].fd in registered && events[i].fd in open && events[i].incarnation == open[events[i].fd])
    && (forall i, j :: 0 <= i < j < |events| ==> events[i].fd != events[j].fd)
  }

  /** The batches that the poller has reported so far. */
  class WaitLog {
    ghost var batches: seq<seq<Ready>>

    constructor ()
      ensures batches == []
    {
      batches := [];
    }
  }

  /** A log that has gone on, and with an entry for `fd`. */
  ghost predicate Logged(before: seq<int>, after: seq<int>, fd: int) {
    before <= after && fd in after[|before|..]
  }

  lemma LogGoesOn(a: seq<int>, b: seq<int>, c: seq<int>, fd: int)
    requires a <= b <= c
    ensures a <= c
    ensures Logged(a, b, fd) || Logged(b, c, fd) ==> Logged(a, c, fd)
  {
    assert c[|a|..] == b[|a|..] + c[|b|..];
  }

  class System {
    /** Open descriptors; every time a number is handed out it is a new incarnation. */
    var open: map<int, nat>
    var born: nat
    /** Descriptors registered with the poller, and those of them watched for writability too. */
    var registered: set<int>
    var armed: set<int>
    /** Signals still to interrupt a system call: finitely many. */
    var signals: nat
    /** The descriptors read from, those whose sends were answered with "would block", and how many sends failed. */
    ghost var readLog: seq<int>
    ghost var fullLog: seq<int>
    ghost var sendFailures: nat
    /** Descriptors and registrations refused so far, accepts performed, and the last one's result. */
    ghost var refusals: nat
    ghost var acceptCalls: nat
    ghost var lastAccept: AcceptResult

    ghost predicate Valid()
      reads this`open, this`born, this`registered, this`armed
    {
      && armed <= registered <= open.Keys
      && (forall fd :: fd in open ==> 0 <= fd && open[fd] < born)
    }

    constructor ()
      ensures Valid() && open == map[] && registered == {}
    {
      open, born, registered, armed := map[], 0, {}, {};
      signals := *;
      readLog, fullLog, sendFailures, refusals, acceptCalls, lastAccept := [], [], 0, 0, 0, QueueEmpty;
    }

    /** Some number that is not in use, or -1 when there is none. */
    method FreshNumber() returns (fd: int)
      requires Valid()
      modifies this`open, this`born
      ensures Valid() && born >= old(born)
      ensures fd == -1 ==> open == old(open)
      ensures fd != -1 ==> fd >= 0 && fd !in old(open) && open == old(open)[fd := old(born)]
    {
      fd := *;
      if fd < 0 || fd in open {
        return -1;
      }
      open := open[fd := born];
      born := born + 1;
    }

    /** open on /dev/null. */
    method OpenNull() returns (fd: int)
      requires Valid()
      modifies this`open, this`born, this`refusals
      ensures Valid() && born >= old(born)
      ensures fd == -1 ==> open == old(open) && refusals == old(refusals) + 1
      ensures fd != -1 ==> fd >= 0 && fd !in old(open) && open == old(open)[fd := old(born)]
      ensures fd != -1 ==> refusals == old(refusals)
    {
      fd := FreshNumber();
      if fd == -1 {
        refusals := refusals + 1;
      }
    }

    method Accept() returns (r: AcceptResult)
      requires Valid()
      modifies this`open, this`born, this`acceptCalls, this`lastAccept
      ensures acceptCalls == old(acceptCalls) + 1 && lastAccept == r
      ensures Valid() && born >= old(born)
      ensures !r.Accepted? ==> open == old(open)
      ensures r.Accepted? ==> r.fd >= 0 && r.fd !in old(open) && open == old(open)[r.fd := old(born)]
    {
      acceptCalls := acceptCalls + 1;
      r := *;
      if r.Accepted? {
        var fd := FreshNumber();
        r := if fd == -1 then OutOfDescriptors else Accepted(fd);
      }
      lastAccept := r;
    }

    /** The number is free for reuse at once. The caller has unregistered it. */
    method Close(fd: int)
      requires Valid() && fd in open && fd !in registered
      modifies this`open
      ensures Valid() && open == old(open) - {fd}
    {
      open := open - {fd};
    }

    method Register(fd: int) returns (ok: bool)
      requires Valid() && fd in open && fd !in registered
      modifies this`registered, this`refusals
      ensures Valid() && registered == if ok then old(registered) + {fd} else old(registered)
      ensures refusals == old(refusals) + if ok then 0 else 1
    {
      ok := *;
      if ok {
        registered := registered + {fd};
      } else {
        refusals := refusals + 1;
      }
    }

    method SetNonblocking(fd: int) returns (ok: bool)
      requires fd in open
      modifies this`refusals
      ensures refusals == old(refusals) + if ok then 0 else 1
    {
      ok := *;
      if !ok {
        refusals := refusals + 1;
      }
    }

    method Unregister(fd: int)
      requires Valid()
      modifies this`registered, this`armed
      ensures Valid() && registered == old(registered) - {fd} && armed == old(armed) - {fd}
    {
      registered := registered - {fd};
      armed := armed - {fd};
    }

    method SetWriteInterest(fd: int, want: bool)
      requires Valid() && fd in registered
      modifies this`armed
      ensures Valid() && armed == if want then old(armed) + {fd} else old(armed) - {fd}
    {
      armed := if want then armed + {fd} else armed - {fd};
    }

    method Read(fd: int) returns (r: ReadResult)
      requires fd in open
      modifies this`readLog
      ensures r.Data? ==> 0 < |r.bytes| <= READ_CHUNK
      ensures readLog == old(readLog) + [fd]
    {
      readLog := readLog + [fd];
      r := *;
      if r.Data? && !(0 < |r.bytes| <= READ_CHUNK) {
        r := NothingYet;
      }
    }

    /** Takes any non-empty prefix of what is offered, or none. */
    method Send(fd: int, n: nat) returns (r: SendResult)
      requires fd in open && n > 0
      modifies this`signals, this`fullLog, this`sendFailures
      ensures fullLog == old(fullLog) + if r.WouldBlock? then [fd] else []
      ensures sendFailures == old(sendFailures) + if r.SendFailed? then 1 else 0
      ensures r.Sent? ==> 0 < r.n <= n && signals == old(signals)
      ensures r.Interrupted? ==> signals < old(signals)
      ensures signals <= old(signals)
    {
      r := *;
      if r.Sent? && !(0 < r.n <= n) {
        r := SendFailed;
      }
      if r.Interrupted? {
        if signals == 0 {
          r := WouldBlock;
        } else {
          signals := signals - 1;
        }
      }
      if r.WouldBlock? {
        fullLog := fullLog + [fd];
      } else if r.SendFailed? {
        sendFailures := sendFailures + 1;
      }
    }

    /** Any reports about registered descriptors, at most one for each. */
    method Wait(log: WaitLog) returns (events: seq<Ready>)
      requires Valid()
      modifies log
      ensures Reportable(events, open, registered) && log.batches == old(log.batches) + [events]
    {
      events := [];
      var left := registered;
      var fd: int := *;
      while fd in left
        invariant left <= registered
        invariant Reportable(events, open, registered)
        invariant forall i :: 0 <= i < |events| ==> events[i].fd !in left
        decreases |left|
      {
        var readable: bool := *;
        var writable: bool := *;
        events := events + [Ready(fd, readable, writable, open[fd])];
        left := left - {fd};
        fd := *;
      }
      log.batches := log.batches + [events];
    }
  }
}
