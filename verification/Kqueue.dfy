/** The kqueue backend reports per filter; the loop is promised one event per descriptor. */
module Kqueue {
  import Kernel

  datatype Filter = ReadFilter | WriteFilter | OtherFilter

  /** One entry of the kernel's event list. */
  datatype Report = Report(fd: int, filter: Filter, eof: bool, error: bool)

  datatype PollEvent = PollEvent(fd: int, readable: bool, writable: bool, error: bool)

  // ----- What the caller is promised

  /** The descriptors reported, in order of first appearance. */
  function FdsOf(reports: seq<Report>): seq<int> {
    if reports == [] then []
    else
      var init, last := FdsOf(reports[..|reports| - 1]), reports[|reports| - 1].fd;
      if last < 0 || last in init then init else init + [last]
  }

  /** Any report of `fd` satisfying a test. */
  ghost predicate Reported(reports: seq<Report>, fd: int, test: Report -> bool) {
    exists i :: 0 <= i < |reports| && reports[i].fd == fd && test(reports[i])
  }

  predicate Fails(r: Report) {
    r.error || r.eof
  }

  predicate Reads(r: Report) {
    r.filter == ReadFilter || r.error || r.eof
  }

  predicate Writes(r: Report) {
    r.filter == WriteFilter
  }

  /** The union of what was reported about one descriptor; end of file and errors count as readable. */
  ghost predicate Merges(e: PollEvent, reports: seq<Report>) {
    && (e.error <==> Reported(reports, e.fd, Fails))
    && (e.readable <==> Reported(reports, e.fd, Reads))
    && (e.writable <==> Reported(reports, e.fd, Writes))
  }

  ghost predicate Coalesces(out: seq<PollEvent>, reports: seq<Report>) {
    && |out| == |FdsOf(reports)|
    && (forall i :: 0 <= i < |out| ==> out[i].fd == FdsOf(reports)[i] && Merges(out[i], reports))
  }

  // ----- Properties of the order

  ghost predicate Mentioned(reports: seq<Report>, fd: int) {
    exists i :: 0 <= i < |reports| && reports[i].fd == fd
  }

  lemma MentionedStep(reports: seq<Report>, r: Report, fd: int)
    ensures Mentioned(reports + [r], fd) <==> Mentioned(reports, fd) || r.fd == fd
  {
    var all := reports + [r];
    if Mentioned(reports, fd) {
      var i :| 0 <= i < |reports| && reports[i].fd == fd;
      assert all[i].fd == fd;
    }
    assert all[|reports|] == r;
  }

  ghost predicate OncePerFd(fds: seq<int>, reports: seq<Report>) {
    && (forall i, j :: 0 <= i < j < |fds| ==> fds[i] != fds[j])
    && (forall fd :: fd in fds <==> fd >= 0 && Mentioned(reports, fd))
  }

  lemma OncePerFdStep(fds: seq<int>, reports: seq<Report>, r: Report)
    requires OncePerFd(fds, reports)
    ensures OncePerFd(if r.fd < 0 || r.fd in fds then fds else fds + [r.fd], reports + [r])
  {
    forall fd ensures Mentioned(reports + [r], fd) <==> Mentioned(reports, fd) || r.fd == fd {
      MentionedStep(reports, r, fd);
    }
  }

  /** Every descriptor once, and exactly the valid ones that were reported. */
  lemma {:induction false} FdsAreReported(reports: seq<Report>)
    ensures OncePerFd(FdsOf(reports), reports)
  {
    if reports != [] {
      var init, last := reports[..|reports| - 1], reports[|reports| - 1];
      assert reports == init + [last];
      FdsAreReported(init);
      OncePerFdStep(FdsOf(init), init, last);
    }
  }

  lemma ReportedStep(reports: seq<Report>, r: Report, fd: int, test: Report -> bool)
    ensures Reported(reports + [r], fd, test) <==> Reported(reports, fd, test) || (r.fd == fd && test(r))
  {
    var all := reports + [r];
    if Reported(reports, fd, test) {
      var i :| 0 <= i < |reports| && reports[i].fd == fd && test(reports[i]);
      assert all[i] == reports[i];
    }
    assert all[|reports|] == r;
  }

  /** Folding one report into the event of its descriptor, as the loop does flag by flag. */
  function Fold(e: PollEvent, r: Report): (next: PollEvent)
    ensures next.fd == e.fd
  {
    var e1 := if r.error then e.(error := true) else e;
    var e2 := if r.eof then e1.(error := true, readable := true) else e1;
    var e3 := if r.filter == ReadFilter then e2.(readable := true) else e2;
    var e4 := if r.filter == WriteFilter then e3.(writable := true) else e3;
    if e4.error then e4.(readable := true) else e4
  }

  lemma FoldMerges(e: PollEvent, reports: seq<Report>, r: Report)
    requires Merges(e, reports)
    ensures e.fd == r.fd ==> Merges(Fold(e, r), reports + [r])
    ensures e.fd != r.fd ==> Merges(e, reports + [r])
  {
    ReportedStep(reports, r, e.fd, Fails);
    ReportedStep(reports, r, e.fd, Reads);
    ReportedStep(reports, r, e.fd, Writes);
    if Reported(reports, e.fd, Fails) {
      var i :| 0 <= i < |reports| && reports[i].fd == e.fd && Fails(reports[i]);
      assert Reads(reports[i]);
    }
  }

  function Blank(fd: int): PollEvent {
    PollEvent(fd, false, false, false)
  }

  lemma FreshMerges(fd: int, reports: seq<Report>)
    requires fd !in FdsOf(reports) && fd >= 0
    ensures Merges(Blank(fd), reports)
  {
    FdsAreReported(reports);
  }

  lemma FdsStep(seen: seq<Report>, e: Report)
    ensures FdsOf(seen + [e]) == if e.fd < 0 || e.fd in FdsOf(seen) then FdsOf(seen) else FdsOf(seen) + [e.fd]
  {
    var all := seen + [e];
    assert all[..|all| - 1] == seen;
  }

  /** A report about a descriptor that already has an event. */
  lemma AbsorbKnown(out: seq<PollEvent>, seen: seq<Report>, e: Report, idx: nat)
    requires Coalesces(out, seen) && idx < |out| && out[idx].fd == e.fd
    ensures Coalesces(out[idx := Fold(out[idx], e)], seen + [e])
  {
    FdsStep(seen, e);
    FdsAreReported(seen);
    assert FdsOf(seen)[idx] in FdsOf(seen);
    forall i | 0 <= i < |out|
      ensures Merges(if i == idx then Fold(out[i], e) else out[i], seen + [e])
    {
      FoldMerges(out[i], seen, e);
    }
  }

  /** The first report about a descriptor, or one about no descriptor at all. */
  lemma AbsorbNew(out: seq<PollEvent>, seen: seq<Report>, e: Report)
    requires Coalesces(out, seen) && e.fd !in FdsOf(seen)
    ensures Coalesces(if e.fd < 0 then out else out + [Fold(Blank(e.fd), e)], seen + [e])
  {
    FdsStep(seen, e);
    forall i | 0 <= i < |out| ensures Merges(out[i], seen + [e]) {
      assert FdsOf(seen)[i] in FdsOf(seen);
      FoldMerges(out[i], seen, e);
    }
    if e.fd >= 0 {
      FreshMerges(e.fd, seen);
      FoldMerges(Blank(e.fd), seen, e);
    }
  }

  // ----- The slot table

  /** Between iterations the table maps exactly the descriptors of `out` to their positions. */
  ghost predicate Indexed(slot: seq<int>, out: seq<PollEvent>) {
    && (forall i :: 0 <= i < |out| ==> 0 <= out[i].fd < |slot| && slot[out[i].fd] == i)
    && (forall fd :: 0 <= fd < |slot| ==> slot[fd] == -1 || (0 <= slot[fd] < |out| && out[slot[fd]].fd == fd))
  }

  lemma IndexedGrows(slot: seq<int>, out: seq<PollEvent>, n: nat)
    requires Indexed(slot, out)
    ensures Indexed(slot + seq(n, _ => -1), out)
  {}

  lemma IndexedFresh(slot: seq<int>, out: seq<PollEvent>, e: PollEvent)
    requires Indexed(slot, out) && 0 <= e.fd < |slot| && slot[e.fd] == -1
    ensures Indexed(slot[e.fd := |out|], out + [e])
  {}

  lemma IndexedUpdate(slot: seq<int>, out: seq<PollEvent>, idx: nat, e: PollEvent)
    requires Indexed(slot, out) && idx < |out| && e.fd == out[idx].fd
    ensures Indexed(slot, out[idx := e])
  {}

  lemma NotIndexed(slot: seq<int>, out: seq<PollEvent>, seen: seq<Report>, fd: int)
    requires Indexed(slot, out) && Coalesces(out, seen) && 0 <= fd < |slot| && slot[fd] == -1
    ensures fd !in FdsOf(seen)
  {
    assert forall i :: 0 <= i < |out| ==> out[i].fd != fd;
  }

  // ----- The loops

  class Poller {
    /** fd -> position of its event in the output of the current wait, or -1. */
    var slot: seq<int>

    ghost predicate Idle()
      reads this
    {
      forall fd :: 0 <= fd < |slot| ==> slot[fd] == -1
    }

    constructor ()
      ensures Idle()
    {
      slot := [];
    }

    /** The body of the first loop: one report into `out`. */
    method Absorb(out: seq<PollEvent>, e: Report, ghost seen: seq<Report>) returns (next: seq<PollEvent>)
      requires Indexed(slot, out) && Coalesces(out, seen)
      modifies this
      ensures Indexed(slot, next) && Coalesces(next, seen + [e])
    {
      hide Coalesces, FdsOf, Fold;
      if e.fd < 0 {
        FdsAreReported(seen);
        AbsorbNew(out, seen, e);
        return out;
      }
      if e.fd >= |slot| {
        IndexedGrows(slot, out, e.fd + 1 - |slot|);
        slot := slot + seq(e.fd + 1 - |slot|, _ => -1);
      }
      var idx := slot[e.fd];
      next := out;
      if idx < 0 {
        NotIndexed(slot, out, seen, e.fd);
        AbsorbNew(out, seen, e);
        IndexedFresh(slot, out, Blank(e.fd));
        idx := |out|;
        slot := slot[e.fd := idx];
        next := next + [Blank(e.fd)];
        assert next[idx := Fold(next[idx], e)] == out + [Fold(Blank(e.fd), e)];
      } else {
        AbsorbKnown(out, seen, e, idx);
      }
      IndexedUpdate(slot, next, idx, Fold(next[idx], e));
      next := next[idx := Fold(next[idx], e)];
    }

    /** The coalescing part of wait: one event per descriptor, and a clean table for the next call. */
    method Coalesce(reports: seq<Report>) returns (out: seq<PollEvent>)
      requires Idle()
      modifies this
      ensures Idle()
      ensures Coalesces(out, reports)
    {
      out := [];
      var i := 0;
      while i < |reports|
        invariant 0 <= i <= |reports|
        invariant Indexed(slot, out) && Coalesces(out, reports[..i])
      {
        assert reports[..i + 1] == reports[..i] + [reports[i]];
        out := Absorb(out, reports[i], reports[..i]);
        i := i + 1;
      }
      assert reports[..i] == reports;

      var j := 0;
      while j < |out|
        invariant 0 <= j <= |out|
        invariant forall k :: 0 <= k < |out| ==> 0 <= out[k].fd < |slot|
        invariant forall fd :: 0 <= fd < |slot| ==>
                    slot[fd] == -1 || (j <= slot[fd] < |out| && out[slot[fd]].fd == fd)
      {
        slot := slot[out[j].fd := -1];
        j := j + 1;
      }
    }
  }

  // ----- What the event loop relies on

  /** The events as the loop gets them, each about the incarnation of its descriptor that is open. */
  function Announced(out: seq<PollEvent>, open: map<int, nat>): (events: seq<Kernel.Ready>)
    requires forall i :: 0 <= i < |out| ==> out[i].fd in open
    ensures |events| == |out|
  {
    seq(|out|, i requires 0 <= i < |out| => Kernel.Ready(out[i].fd, out[i].readable, out[i].writable, open[out[i].fd]))
  }

  /** Coalesced reports about registered descriptors are what the poller promises: one event per descriptor. */
  lemma CoalescedIsReportable(out: seq<PollEvent>, reports: seq<Report>, open: map<int, nat>, registered: set<int>)
    requires Coalesces(out, reports) && registered <= open.Keys
    requires forall i :: 0 <= i < |reports| ==> reports[i].fd < 0 || reports[i].fd in registered
    ensures forall i :: 0 <= i < |out| ==> out[i].fd in open
    ensures Kernel.Reportable(Announced(out, open), open, registered)
  {
    hide Merges;
    FdsAreReported(reports);
    var fds := FdsOf(reports);
    forall i | 0 <= i < |out| ensures out[i].fd in registered {
      assert fds[i] in fds;
      assert Mentioned(reports, fds[i]);
    }
  }
}
