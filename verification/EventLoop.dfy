/** The table of callbacks, and the retired ones that a running callback may still be among. */
module EventLoops {
  import opened Octets
  import opened Kernel

  datatype Target = ToListener | ToClient

  /** A callback object; its number tells it from every other ever made. */
  datatype Callback = Callback(id: nat, target: Target)

  /** Callbacks are numbered as they are made, so that equal ones are the same object. */
  ghost predicate AllNumbered(handlers: map<int, Callback>, retired: seq<Callback>, made: nat) {
    && (forall fd :: fd in handlers ==> handlers[fd].id < made)
    && (forall i :: 0 <= i < |retired| ==> retired[i].id < made)
    && (forall f, g :: f in handlers && g in handlers && f != g ==> handlers[f].id != handlers[g].id)
    && (forall f, i :: f in handlers && 0 <= i < |retired| ==> handlers[f].id != retired[i].id)
    && (forall i, k :: 0 <= i < k < |retired| ==> retired[i].id != retired[k].id)
  }

  lemma NumbersAfterAdd(handlers: map<int, Callback>, retired: seq<Callback>, made: nat, fd: int, target: Target)
    requires AllNumbered(handlers, retired, made) && fd !in handlers
    ensures AllNumbered(handlers[fd := Callback(made, target)], retired, made + 1)
  {}

  lemma NumbersAfterRemove(handlers: map<int, Callback>, retired: seq<Callback>, made: nat, fd: int)
    requires AllNumbered(handlers, retired, made) && fd in handlers
    ensures AllNumbered(handlers - {fd}, retired + [handlers[fd]], made)
  {}

  class EventLoop {
    const sys: System
    var handlers: map<int, Callback>
    var retired: seq<Callback>
    var made: nat
    /** The callback whose frame is on the stack, if any. */
    ghost var running: Option<Callback>

    /** Callbacks and poller registrations are for the same descriptors, and a running callback is alive. */
    ghost predicate Valid()
      reads this, sys`open, sys`born, sys`registered, sys`armed
    {
      && sys.Valid()
      && (forall fd :: fd in handlers <==> fd in sys.registered)
      && (running.Some? ==> Owns(running.value))
      && Numbered()
    }

    ghost predicate Numbered()
      reads this`handlers, this`retired, this`made
    {
      AllNumbered(handlers, retired, made)
    }

    /** The callback object still exists. */
    ghost predicate Owns(cb: Callback)
      reads this
    {
      cb in retired || exists fd :: fd in handlers && handlers[fd] == cb
    }

    /** No two owners hold one callback, so the running one has exactly one place. */
    lemma OwnedOnce(f: int, g: int, i: nat, k: nat)
      requires Valid()
      ensures f in handlers && g in handlers && handlers[f] == handlers[g] ==> f == g
      ensures f in handlers && i < |retired| ==> handlers[f] != retired[i]
      ensures i < |retired| && k < |retired| && retired[i] == retired[k] ==> i == k
    {}

    constructor (sys: System)
      requires sys.Valid() && sys.registered == {}
      ensures this.sys == sys && Valid() && handlers == map[] && running == None
    {
      this.sys := sys;
      handlers, retired, made := map[], [], 0;
      running := None;
    }

    method Add(fd: int, target: Target) returns (ok: bool)
      requires Valid() && fd in sys.open && fd !in handlers
      modifies this`handlers, this`made, sys`registered, sys`refusals
      ensures sys.refusals == old(sys.refusals) + if ok then 0 else 1
      ensures Valid() && handlers.Keys == if ok then old(handlers).Keys + {fd} else old(handlers).Keys
      ensures forall f :: f in old(handlers) ==> handlers[f] == old(handlers)[f]
      ensures if ok then handlers[fd].target == target else handlers == old(handlers)
    {
      hide AllNumbered;
      ok := sys.Register(fd);
      if ok {
        NumbersAfterAdd(handlers, retired, made, fd, target);
        var cb := Callback(made, target);
        ghost var before := handlers;
        handlers := handlers[fd := cb];
        assert forall f :: f in before ==> f in handlers && handlers[f] == before[f];
        made := made + 1;
      }
    }

    /** Unregisters before the caller closes; the callback is kept until no frame can be inside it. */
    method Remove(fd: int)
      requires Valid()
      modifies this`handlers, this`retired, sys`registered, sys`armed
      ensures Valid() && handlers == old(handlers) - {fd}
      ensures sys.armed == old(sys.armed) - {fd}
      ensures old(retired) <= retired
    {
      hide AllNumbered;
      if fd !in handlers {
        assert handlers - {fd} == handlers && sys.armed - {fd} == sys.armed;
        return;
      }
      NumbersAfterRemove(handlers, retired, made, fd);
      sys.Unregister(fd);
      retired := retired + [handlers[fd]];
      ghost var before := handlers;
      handlers := handlers - {fd};
      assert retired[|retired| - 1] == before[fd];
      assert forall f :: f in before && f != fd ==> f in handlers && handlers[f] == before[f];
    }

    method SetWriteInterest(fd: int, want: bool)
      requires Valid() && fd in handlers
      modifies sys`armed
      ensures Valid() && sys.armed == if want then old(sys.armed) + {fd} else old(sys.armed) - {fd}
    {
      sys.SetWriteInterest(fd, want);
    }

    /** A dispatch frame starts: the callback found in the table is on the stack from now on. */
    ghost method Enter(fd: int)
      requires Valid() && fd in handlers && running == None
      modifies this`running
      ensures Valid() && running == Some(handlers[fd])
    {
      running := Some(handlers[fd]);
    }

    ghost method Leave()
      requires Valid()
      modifies this`running
      ensures Valid() && running == None
    {
      running := None;
    }

    /** Destroys the retired callbacks; no frame may be live. */
    method ClearRetired()
      requires Valid() && running == None
      modifies this`retired
      ensures Valid() && retired == []
    {
      retired := [];
    }
  }
}
