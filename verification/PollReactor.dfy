/**
  agent/poll-reactor.cpp: callbacks registered for file descriptors, the epoll
  set that watches them, and the reactor thread that takes one event at a time.
  A system of steps interleaves that thread with any number of threads that
  add and delete; every step is what the source does under one lock or in one
  system call.
  */
module PollReactor {
  import opened Common

  type Fd = int

  /** A reaction callback, by its identity. */
  type Callback = nat

  /** The map from descriptors to reactions, and the descriptors epoll watches. */
  datatype Reactor = Reactor(react: map<Fd, Callback>, epoll: set<Fd>)

  /** A descriptor that is closed leaves the epoll set, unless another copy of it is open. */
  function Closed(epoll: set<Fd>, fd: Fd, last: bool): set<Fd> { if last then epoll - {fd} else epoll }

  /** epoll_ctl adds what is not there yet and modifies what is there; it may fail for other reasons too. */
  predicate MayAdd(s: Reactor, fd: Fd, ok: bool) {
    ok ==> (fd in s.epoll <==> fd in s.react)
  }

  /** add_fd: a known descriptor takes the new callback even when epoll refuses. */
  function Added(s: Reactor, fd: Fd, cb: Callback, ok: bool, last: bool): Reactor {
    if fd in s.react then s.(react := s.react[fd := cb])
    else if ok then Reactor(s.react[fd := cb], s.epoll + {fd})
    else s.(epoll := Closed(s.epoll, fd, last))
  }

  /** The first step of del_fd, which takes no lock. */
  function Unhooked(s: Reactor, fd: Fd): Reactor { s.(epoll := s.epoll - {fd}) }

  /** The second step of del_fd: the reaction goes, and closes its descriptor. */
  function Erased(s: Reactor, fd: Fd, last: bool): Reactor {
    if fd in s.react then Reactor(s.react - {fd}, Closed(s.epoll, fd, last)) else s
  }

  /** make_callback: a callback that answers false is deleted; an unknown descriptor is no longer watched. */
  function Dispatched(s: Reactor, fd: Fd, keep: bool): Reactor {
    if fd !in s.react then Unhooked(s, fd)
    else if keep then s
    else Reactor(s.react - {fd}, s.epoll - {fd})
  }

  class PollReactor {
    var react: map<Fd, Callback>
    var epoll: set<Fd>

    ghost function State(): Reactor
      reads this
    {
      Reactor(react, epoll)
    }

    constructor ()
      ensures State() == Reactor(map[], {})
    {
      react, epoll := map[], {};
    }

    /** epoll_ctl with EPOLL_CTL_ADD. */
    method EpollAdd(fd: Fd) returns (ok: bool)
      modifies `epoll
      ensures ok ==> fd !in old(epoll) && epoll == old(epoll) + {fd}
      ensures !ok ==> epoll == old(epoll)
    {
      ok := *;
      ok := ok && fd !in epoll;
      if ok { epoll := epoll + {fd}; }
    }

    /** epoll_ctl with EPOLL_CTL_MOD. */
    method EpollModify(fd: Fd) returns (ok: bool)
      ensures ok ==> fd in epoll
    {
      ok := *;
      ok := ok && fd in epoll;
    }

    method EpollDelete(fd: Fd)
      modifies `epoll
      ensures epoll == old(epoll) - {fd}
    {
      epoll := epoll - {fd};
    }

    /** close(2), as the destructor of a reaction calls it. */
    method CloseDescriptor(fd: Fd, last: bool)
      modifies `epoll
      ensures epoll == Closed(old(epoll), fd, last)
    {
      if last { epoll := epoll - {fd}; }
    }

    /** add_fd; a refusal is thrown to the caller. */
    method AddFd(fd: Fd, cb: Callback, last: bool) returns (ok: bool)
      modifies this
      ensures MayAdd(old(State()), fd, ok) && State() == Added(old(State()), fd, cb, ok, last)
      ensures fd in old(react) ==> react == old(react)[fd := cb] && epoll == old(epoll)
      ensures fd !in old(react) && ok ==> react == old(react)[fd := cb] && epoll == old(epoll) + {fd}
      ensures fd !in old(react) && !ok ==> react == old(react) && epoll == old(epoll) - if last then {fd} else {}
    {
      if fd !in react {
        ok := EpollAdd(fd);
        if !ok {
          CloseDescriptor(fd, last);
          return;
        }
        react := react[fd := cb];
      } else {
        react := react[fd := cb];
        ok := EpollModify(fd);
      }
    }

    /** The locked half of del_fd. */
    method Erase(fd: Fd, last: bool)
      modifies this
      ensures State() == Erased(old(State()), fd, last)
    {
      if fd in react {
        react := react - {fd};
        CloseDescriptor(fd, last);
      }
    }

    method DelFd(fd: Fd, last: bool)
      modifies this
      ensures State() == Erased(Unhooked(old(State()), fd), fd, last)
      ensures react == old(react) - {fd} && epoll == old(epoll) - {fd}
    {
      EpollDelete(fd);
      Erase(fd, last);
    }

    method DelFdUnsafe(fd: Fd)
      modifies this
      ensures State() == Reactor(old(react) - {fd}, old(epoll) - {fd})
    {
      EpollDelete(fd);
      react := react - {fd};
    }

    /** make_callback; `ran` is the callback called, and `keep` what it answered. */
    method MakeCallback(fd: Fd, keep: bool) returns (ran: Option<Callback>)
      modifies this
      ensures State() == Dispatched(old(State()), fd, keep)
      ensures ran == if fd in old(react) then Some(old(react)[fd]) else None
      ensures fd !in old(react) ==> react == old(react) && epoll == old(epoll) - {fd}
      ensures fd in old(react) && keep ==> react == old(react) && epoll == old(epoll)
      ensures fd in old(react) && !keep ==> react == old(react) - {fd} && epoll == old(epoll) - {fd}
    {
      if fd in react {
        ran := Some(react[fd]);
        if !keep { DelFdUnsafe(fd); }
      } else {
        ran := None;
        EpollDelete(fd);
      }
    }
  }

  // ---------------------------------------------------------------------
  // All interleavings
  // ---------------------------------------------------------------------

  type Thread = nat

  /** What has happened, as the callers and the callbacks see it. */
  datatype Event =
    | Registers(fd: Fd, cb: Callback, ok: bool)
    | DelReturns(fd: Fd)
    | Calls(fd: Fd, cb: Callback, keep: bool)

  /** `between` holds the deleters that have done the first step; `dequeued` is the event the reactor thread holds. */
  datatype System = System(r: Reactor, between: map<Thread, Fd>, dequeued: Option<Fd>, trace: seq<Event>)

  datatype Step =
    | Add(fd: Fd, cb: Callback, ok: bool, last: bool)
    | DelFirst(t: Thread, fd: Fd)
    | DelSecond(t: Thread, last: bool)
    | Wait(fd: Fd)
    | Dispatch(keep: bool)

  const START := System(Reactor(map[], {}), map[], None, [])

  predicate Enabled(s: System, step: Step) {
    match step
    case Add(fd, cb, ok, last) => MayAdd(s.r, fd, ok)
    case DelFirst(t, fd) => t !in s.between
    case DelSecond(t, last) => t in s.between
    case Wait(fd) => s.dequeued.None? && fd in s.r.epoll
    case Dispatch(keep) => s.dequeued.Some?
  }

  function Next(s: System, step: Step): System
    requires Enabled(s, step)
  {
    match step
    case Add(fd, cb, ok, last) =>
      s.(r := Added(s.r, fd, cb, ok, last), trace := s.trace + [Registers(fd, cb, ok)])
    case DelFirst(t, fd) =>
      s.(r := Unhooked(s.r, fd), between := s.between[t := fd])
    case DelSecond(t, last) =>
      var fd := s.between[t];
      System(Erased(s.r, fd, last), s.between - {t}, s.dequeued, s.trace + [DelReturns(fd)])
    case Wait(fd) => s.(dequeued := Some(fd))
    case Dispatch(keep) =>
      var fd := s.dequeued.value;
      System(Dispatched(s.r, fd, keep), s.between, None,
             s.trace + if fd in s.r.react then [Calls(fd, s.r.react[fd], keep)] else [])
  }

  predicate Allowed(s: System, steps: seq<Step>)
    decreases |steps|
  {
    steps == [] || (Enabled(s, steps[0]) && Allowed(Next(s, steps[0]), steps[1..]))
  }

  function Run(s: System, steps: seq<Step>): System
    requires Allowed(s, steps)
    decreases |steps|
  {
    if steps == [] then s else Run(Next(s, steps[0]), steps[1..])
  }

  // ---------------------------------------------------------------------
  // Safety
  // ---------------------------------------------------------------------

  /** What the calls made so far, and the answers of the callbacks, leave registered. */
  function Registered(trace: seq<Event>): map<Fd, Callback> {
    if trace == [] then map[]
    else
      RegisteredAfter(Registered(trace[..|trace| - 1]), trace[|trace| - 1])
  }

  function RegisteredAfter(before: map<Fd, Callback>, e: Event): map<Fd, Callback> {
    match e
    case Registers(fd, cb, ok) => if ok || fd in before then before[fd := cb] else before
    case DelReturns(fd) => before - {fd}
    case Calls(fd, _, keep) => if keep then before else before - {fd}
  }

  /** Every callback was the one registered at that moment. */
  ghost predicate CallsRegistered(trace: seq<Event>) {
    forall i :: 0 <= i < |trace| && trace[i].Calls? ==>
      var now := Registered(trace[..i]);
      trace[i].fd in now && now[trace[i].fd] == trace[i].cb
  }

  /** Every reaction epoll does not watch is about to be erased by a deleter. */
  ghost predicate Watched(s: System) {
    forall fd :: fd in s.r.react && fd !in s.r.epoll ==> exists t :: t in s.between && s.between[t] == fd
  }

  ghost predicate Inv(s: System) {
    s.r.react == Registered(s.trace) && CallsRegistered(s.trace) && Watched(s)
  }

  lemma RegisteredSnoc(trace: seq<Event>, e: Event)
    ensures Registered(trace + [e]) == RegisteredAfter(Registered(trace), e)
  {
    assert (trace + [e])[..|trace|] == trace;
  }

  lemma CallsSnoc(trace: seq<Event>, e: Event)
    requires CallsRegistered(trace)
    requires e.Calls? ==> e.fd in Registered(trace) && Registered(trace)[e.fd] == e.cb
    ensures CallsRegistered(trace + [e])
  {
    var longer := trace + [e];
    forall i | 0 <= i < |longer| && longer[i].Calls?
      ensures longer[i].fd in Registered(longer[..i]) && Registered(longer[..i])[longer[i].fd] == longer[i].cb
    {
      assert longer[..i] == trace[..i];
      assert trace[..|trace|] == trace;
    }
  }

  lemma WatchedStep(s: System, step: Step)
    requires Watched(s) && Enabled(s, step)
    ensures Watched(Next(s, step))
  {
    var s' := Next(s, step);
    forall fd | fd in s'.r.react && fd !in s'.r.epoll ensures exists t :: t in s'.between && s'.between[t] == fd {
      if fd in s.r.epoll {
        assert step.DelFirst? && s'.between[step.t] == fd;
      } else {
        var t :| t in s.between && s.between[t] == fd;
        assert t in s'.between && s'.between[t] == fd;
      }
    }
  }

  /** What a step adds to the trace, and how it changes the reactions. */
  lemma StepTells(s: System, step: Step)
    requires Enabled(s, step)
    ensures var s' := Next(s, step);
            (s'.trace == s.trace && s'.r.react == s.r.react) ||
            (|s'.trace| == |s.trace| + 1 &&
             var e := s'.trace[|s.trace|];
             s'.trace == s.trace + [e] && s'.r.react == RegisteredAfter(s.r.react, e) &&
             (e.Calls? ==> e.fd in s.r.react && s.r.react[e.fd] == e.cb))
  {
  }

  lemma StepKeepsInv(s: System, step: Step)
    requires Inv(s) && Enabled(s, step)
    ensures Inv(Next(s, step))
  {
    WatchedStep(s, step);
    StepTells(s, step);
    var s' := Next(s, step);
    if |s'.trace| > |s.trace| {
      var e := s'.trace[|s.trace|];
      RegisteredSnoc(s.trace, e);
      CallsSnoc(s.trace, e);
    }
  }

  /** Every reachable state, with any number of threads. */
  lemma {:induction false} InvHolds(s: System, steps: seq<Step>)
    requires Inv(s) && Allowed(s, steps)
    ensures Inv(Run(s, steps))
    decreases |steps|
  {
    if steps != [] {
      StepKeepsInv(s, steps[0]);
      InvHolds(Next(s, steps[0]), steps[1..]);
    }
  }

  lemma {:induction false} GoneUntilAdded(trace: seq<Event>, fd: Fd, j: nat, i: nat)
    requires j < i <= |trace| && trace[j] == DelReturns(fd)
    requires forall k :: j < k < i ==> !(trace[k].Registers? && trace[k].fd == fd && trace[k].ok)
    ensures fd !in Registered(trace[..i])
    decreases i
  {
    assert trace[..i][..i - 1] == trace[..i - 1];
    if i > j + 1 { GoneUntilAdded(trace, fd, j, i - 1); }
  }

  /**
    Main theorem: after del_fd(fd) has returned, a callback for fd runs only if
    an add_fd(fd) succeeded in between, whatever the reactor thread had already
    dequeued.
    */
  lemma NoCallAfterDelete(steps: seq<Step>, j: nat, i: nat)
    requires Allowed(START, steps)
    requires var trace := Run(START, steps).trace;
             j < i < |trace| && trace[j].DelReturns? && trace[i].Calls? && trace[i].fd == trace[j].fd
    ensures var trace := Run(START, steps).trace;
            exists k :: j < k < i && trace[k].Registers? && trace[k].fd == trace[j].fd && trace[k].ok
  {
    InvHolds(START, steps);
    var trace := Run(START, steps).trace;
    if forall k :: j < k < i ==> !(trace[k].Registers? && trace[k].fd == trace[j].fd && trace[k].ok) {
      GoneUntilAdded(trace, trace[j].fd, j, i);
    }
  }

  /** What is registered follows from the calls made, and is watched unless a deleter stands between its steps. */
  lemma WatchedUnlessDeleting(steps: seq<Step>, fd: Fd)
    requires Allowed(START, steps)
    ensures var s := Run(START, steps);
            s.r.react == Registered(s.trace) && (fd in s.r.react && fd !in s.r.epoll ==> fd in s.between.Values)
  {
    InvHolds(START, steps);
  }

  /**
    An add_fd that is refused still replaces the callback if and only if the
    descriptor is registered. A registered one can be refused for lack of its
    epoll entry only while a deleter stands between its steps, and then must be.
    */
  lemma RefusedAdd(steps: seq<Step>, fd: Fd, cb: Callback, last: bool, t: Thread)
    requires Allowed(START, steps)
    ensures var s := Run(START, steps);
            var after := Next(s, Add(fd, cb, false, last)).r.react;
            if fd in Registered(s.trace) then after == s.r.react[fd := cb] else fd !in after && after == s.r.react
    ensures var s := Run(START, steps);
            fd in Registered(s.trace) && !Enabled(s, Add(fd, cb, true, last)) ==> fd in s.between.Values
    ensures var s := Run(START, steps);
            fd in Registered(s.trace) && t !in s.between ==> !Enabled(Next(s, DelFirst(t, fd)), Add(fd, cb, true, last))
  {
    InvHolds(START, steps);
  }
}
