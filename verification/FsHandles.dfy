/**
  Handles of the file system service in agent/subsys-fs.cpp: paths and
  directory iterators live in two maps, and every handle comes from the one
  counter of agent/subsys-reactor.cpp. Requests run in any number of threads;
  every step below is what the source does in one call or under one lock.
  */
module FsHandles {
  import opened Common

  type Path = string
  type Iterator = nat

  const HANDLES: int := 0x1_0000_0000

  type Handle = h: int | 0 <= h < HANDLES

  /** next_op_id gives a size_t, which the services cut to 32 bits. */
  function Truncated(n: nat): Handle { n % HANDLES }

  /** A path was opened under the handle, or an iterator begun or cloned. */
  datatype Kind = PathKind | IterKind

  /** Where a request stands between two of its steps. */
  datatype Pc =
    | InsertsPath(h: Handle, p: Path)
    | Listed(it: Iterator)
    | InsertsIter(h: Handle, it: Iterator)
    | ClosesIter(h: Handle)

  /** `kinds` records what each handle was last issued for. */
  datatype Fs = Fs(counter: nat, paths: map<Handle, Path>, iters: map<Handle, Iterator>, kinds: map<Handle, Kind>)

  const NO_HANDLES := Fs(100, map[], map[], map[])

  function Issued(s: Fs, kind: Kind): Fs {
    s.(counter := s.counter + 1, kinds := s.kinds[Truncated(s.counter + 1) := kind])
  }

  /** An id taken for something that is no path handle and no iterator. */
  function Touched(s: Fs): Fs { s.(counter := s.counter + 1) }

  /** map::insert leaves a key that is there alone. */
  function PathInserted(s: Fs, h: Handle, p: Path): Fs {
    if h in s.paths then s else s.(paths := s.paths[h := p])
  }

  function IterInserted(s: Fs, h: Handle, it: Iterator): Fs {
    if h in s.iters then s else s.(iters := s.iters[h := it])
  }

  function PathClosed(s: Fs, h: Handle): Fs { s.(paths := s.paths - {h}) }

  function IterClosed(s: Fs, h: Handle): Fs { s.(iters := s.iters - {h}) }

  // ---------------------------------------------------------------------
  // The requests, each on its own
  // ---------------------------------------------------------------------

  // The source throws EINVAL.
  datatype Error = BadHandle

  /** A request names a base handle, unless its path is absolute or it has none. */
  datatype Request = Fresh(p: Path) | Relative(h: Handle, p: Path)

  class FsService {
    var counter: nat
    var paths: map<Handle, Path>
    var iters: map<Handle, Iterator>
    ghost var kinds: map<Handle, Kind>

    ghost function State(): Fs
      reads this
    {
      Fs(counter, paths, iters, kinds)
    }

    constructor ()
      ensures State() == NO_HANDLES
    {
      counter, paths, iters, kinds := 100, map[], map[], map[];
    }

    /** next_index; the ghost argument says what the handle is for. */
    method NextIndex(ghost kind: Option<Kind>) returns (h: Handle)
      modifies `counter, `kinds
      ensures State() == if kind.Some? then Issued(old(State()), kind.value) else Touched(old(State()))
      ensures h == Truncated(counter)
    {
      counter := counter + 1;
      h := counter % HANDLES;
      if kind.Some? { kinds := kinds[h := kind.value]; }
    }

    /** path_from_request: a relative request is joined, by `join`, to the path of its handle. */
    method PathFromRequest(r: Request, join: (Path, Path) -> Path, ghost kind: Option<Kind>)
      returns (res: Result<Path, Error>, h: Handle)
      modifies `counter, `kinds
      ensures r.Relative? ==>
                State() == old(State()) && h == r.h &&
                res == if r.h in paths then Ok(join(paths[r.h], r.p)) else Err(BadHandle)
      ensures r.Fresh? ==>
                State() == (if kind.Some? then Issued(old(State()), kind.value) else Touched(old(State()))) &&
                h == Truncated(counter) && res == Ok(r.p)
    {
      match r
      case Fresh(p) =>
        h := NextIndex(kind);
        res := Ok(p);
      case Relative(base, p) =>
        h := base;
        res := if h in paths then Ok(join(paths[h], p)) else Err(BadHandle);
    }

    /**
      open: a fresh request gets a new handle for its path. A relative one
      answers with its own handle and the joined path, but what the handle
      stands for stays as it was.
      */
    method Open(r: Request, join: (Path, Path) -> Path) returns (res: Result<(Handle, Path), Error>)
      modifies this
      ensures r.Fresh? ==>
                var s := Issued(old(State()), PathKind);
                var h := Truncated(s.counter);
                State() == PathInserted(s, h, r.p) && res == Ok((h, r.p))
      ensures r.Fresh? ==>
                res.Ok? && counter == old(counter) + 1 && iters == old(iters) &&
                var h := res.value.0;
                h == counter % HANDLES && h in paths && paths - {h} == old(paths) - {h} &&
                paths[h] == if h in old(paths) then old(paths)[h] else r.p
      ensures r.Relative? ==>
                State() == old(State()) &&
                res == if r.h in paths then Ok((r.h, join(paths[r.h], r.p))) else Err(BadHandle)
    {
      var p, h := PathFromRequest(r, join, Some(PathKind));
      if p.Err? { return Err(p.error); }
      if h !in paths { paths := paths[h := p.value]; }
      res := Ok((h, p.value));
    }

    /** iter_begin: a fresh request spends one handle on its path and another on the iterator. */
    method IterBegin(r: Request, join: (Path, Path) -> Path, list: Path -> Iterator)
      returns (res: Result<Handle, Error>)
      modifies this
      ensures r.Relative? && r.h !in old(paths) ==> res == Err(BadHandle) && State() == old(State())
      ensures r.Fresh? || r.h in old(paths) ==>
                var s := Issued(if r.Fresh? then Touched(old(State())) else old(State()), IterKind);
                var h := Truncated(s.counter);
                var p := if r.Fresh? then r.p else join(old(paths)[r.h], r.p);
                State() == IterInserted(s, h, list(p)) && res == Ok(h)
      ensures r.Fresh? || r.h in old(paths) ==>
                res.Ok? && counter == old(counter) + (if r.Fresh? then 2 else 1) && paths == old(paths) &&
                var h := res.value;
                h == counter % HANDLES && h in iters && iters - {h} == old(iters) - {h} &&
                iters[h] == if h in old(iters) then old(iters)[h]
                            else list(if r.Fresh? then r.p else join(old(paths)[r.h], r.p))
    {
      var p, ignored := PathFromRequest(r, join, None);
      if p.Err? { return Err(p.error); }
      var h := NextIndex(Some(IterKind));
      InsertIter(h, list(p.value));
      res := Ok(h);
    }

    method InsertIter(h: Handle, it: Iterator)
      modifies `iters
      ensures State() == IterInserted(old(State()), h, it)
    {
      if h !in iters { iters := iters[h := it]; }
    }

    /** iter_clone: the copy is stored under a new handle, but the answer carries the old one. */
    method IterClone(hdl: Handle) returns (res: Result<Handle, Error>)
      modifies this
      ensures hdl !in old(iters) ==> res == Err(BadHandle) && State() == old(State())
      ensures hdl in old(iters) ==>
                var s := Issued(old(State()), IterKind);
                State() == IterInserted(s, Truncated(s.counter), old(iters)[hdl]) && res == Ok(hdl)
      ensures hdl in old(iters) ==>
                counter == old(counter) + 1 && paths == old(paths) &&
                var h: Handle := counter % HANDLES;
                h in iters && iters - {h} == old(iters) - {h} &&
                iters[h] == old(iters)[if h in old(iters) then h else hdl]
    {
      if hdl !in iters { return Err(BadHandle); }
      var it := iters[hdl];
      var h := NextIndex(Some(IterKind));
      InsertIter(h, it);
      res := Ok(hdl);
    }

    /** close: a path, or else an iterator. */
    method Close(h: Handle)
      modifies this
      ensures State() == if h in old(paths) then PathClosed(old(State()), h) else IterClosed(old(State()), h)
      ensures counter == old(counter) && paths == old(paths) - {h}
      ensures iters == if h in old(paths) then old(iters) else old(iters) - {h}
    {
      if h in paths {
        paths := paths - {h};
        return;
      }
      if h in iters {
        iters := iters - {h};
      }
      assert old(iters) - {h} == iters;
    }
  }

  /** open, then a request relative to the handle: it is joined to the path that was opened. */
  method OpenThenRelative(fs: FsService, p: Path, q: Path, join: (Path, Path) -> Path)
    returns (res: Result<Path, Error>)
    requires (fs.counter + 1) % HANDLES !in fs.paths
    modifies fs
    ensures res == Ok(join(p, q))
  {
    var answer := fs.Open(Fresh(p), join);
    var ignored;
    res, ignored := fs.PathFromRequest(Relative(answer.value.0, q), join, None);
  }

  // ---------------------------------------------------------------------
  // All interleavings
  // ---------------------------------------------------------------------

  type Thread = nat

  datatype System = System(fs: Fs, threads: map<Thread, Pc>)

  const START := System(NO_HANDLES, map[])

  datatype Step =
    | OpenFresh(t: Thread, p: Path)                 // open, up to its handle
    | OpenRelative(t: Thread, h: Handle, p: Path)   // open, up to the joined path
    | InsertPath(t: Thread)
    | ChangeDir(h: Handle, p: Path)
    | ListFresh(t: Thread, it: Iterator)            // iter_begin, up to the listing
    | ListRelative(t: Thread, h: Handle, it: Iterator)
    | CopyIter(t: Thread, h: Handle)                // iter_clone, up to the copy
    | IssueIter(t: Thread)
    | InsertIter(t: Thread)
    | Advance(h: Handle, it: Iterator)              // iter_next
    | ClosePath(t: Thread, h: Handle)               // close, its first lock
    | CloseIter(t: Thread)                          // close, its second lock
    | Touch                                         // an id for anything else

  predicate Enabled(s: System, step: Step) {
    match step
    case OpenFresh(t, _) => t !in s.threads
    case OpenRelative(t, h, _) => t !in s.threads && h in s.fs.paths
    case InsertPath(t) => t in s.threads && s.threads[t].InsertsPath?
    case ChangeDir(h, _) => h in s.fs.paths
    case ListFresh(t, _) => t !in s.threads
    case ListRelative(t, h, _) => t !in s.threads && h in s.fs.paths
    case CopyIter(t, h) => t !in s.threads && h in s.fs.iters
    case IssueIter(t) => t in s.threads && s.threads[t].Listed?
    case InsertIter(t) => t in s.threads && s.threads[t].InsertsIter?
    case Advance(h, _) => h in s.fs.iters
    case ClosePath(t, _) => t !in s.threads
    case CloseIter(t) => t in s.threads && s.threads[t].ClosesIter?
    case Touch => true
  }

  function Next(s: System, step: Step): System
    requires Enabled(s, step)
  {
    match step
    case OpenFresh(t, p) =>
      var fs := Issued(s.fs, PathKind);
      System(fs, s.threads[t := InsertsPath(Truncated(fs.counter), p)])
    case OpenRelative(t, h, p) => s.(threads := s.threads[t := InsertsPath(h, p)])
    case InsertPath(t) => System(PathInserted(s.fs, s.threads[t].h, s.threads[t].p), s.threads - {t})
    case ChangeDir(h, p) => s.(fs := s.fs.(paths := s.fs.paths[h := p]))
    case ListFresh(t, it) => System(Touched(s.fs), s.threads[t := Listed(it)])
    case ListRelative(t, _, it) => s.(threads := s.threads[t := Listed(it)])
    case CopyIter(t, h) => s.(threads := s.threads[t := Listed(s.fs.iters[h])])
    case IssueIter(t) =>
      var fs := Issued(s.fs, IterKind);
      System(fs, s.threads[t := InsertsIter(Truncated(fs.counter), s.threads[t].it)])
    case InsertIter(t) => System(IterInserted(s.fs, s.threads[t].h, s.threads[t].it), s.threads - {t})
    case Advance(h, it) => s.(fs := s.fs.(iters := s.fs.iters[h := it]))
    case ClosePath(t, h) =>
      if h in s.fs.paths then s.(fs := PathClosed(s.fs, h)) else s.(threads := s.threads[t := ClosesIter(h)])
    case CloseIter(t) => System(IterClosed(s.fs, s.threads[t].h), s.threads - {t})
    case Touch => s.(fs := Touched(s.fs))
  }

  predicate Allowed(s: System, steps: seq<Step>)
    decreases |steps|
  {
    steps == [] || (Enabled(s, steps[0]) && Allowed(Next(s, steps[0]), steps[1..]))
  }

  function Run(s: System, steps: seq<Step>): System
    requires Allowed(s, steps)
    decreases |steps|
  {
    if steps == [] then s else Run(Next(s, steps[0]), steps[1..])
  }

  predicate IssuedFor(s: Fs, h: Handle, kind: Kind) { h in s.kinds && s.kinds[h] == kind }

  /** A request about to insert holds a handle of the right kind. */
  predicate PcOk(s: Fs, pc: Pc) {
    match pc
    case InsertsPath(h, _) => IssuedFor(s, h, PathKind)
    case InsertsIter(h, _) => IssuedFor(s, h, IterKind)
    case _ => true
  }

  /** The handle has been issued, or has been passed over: 101 and up come first, 0 to 100 after the wrap. */
  predicate Spent(s: Fs, h: Handle) { if h > 100 then h <= s.counter else HANDLES + h <= s.counter }

  /** No more than 2^32 ids have been issued since the counter stood at 100. */
  const ALL_ISSUED: int := HANDLES + 100

  ghost predicate Inv(s: System) {
    (forall h :: h in s.fs.kinds ==> Spent(s.fs, h)) &&
    (forall h :: h in s.fs.paths ==> IssuedFor(s.fs, h, PathKind)) &&
    (forall h :: h in s.fs.iters ==> IssuedFor(s.fs, h, IterKind)) &&
    (forall t :: t in s.threads ==> PcOk(s.fs, s.threads[t]))
  }

  lemma CounterGrows(s: System, step: Step)
    requires Enabled(s, step)
    ensures s.fs.counter <= Next(s, step).fs.counter
  {
  }

  lemma KindsKept(s: System, step: Step)
    requires Inv(s) && s.fs.counter >= 100 && Enabled(s, step) && Next(s, step).fs.counter <= ALL_ISSUED
    ensures forall h, kind :: IssuedFor(s.fs, h, kind) ==> IssuedFor(Next(s, step).fs, h, kind)
    ensures forall h :: h in Next(s, step).fs.kinds ==> Spent(Next(s, step).fs, h)
  {
  }

  lemma ThreadsKept(s: System, step: Step)
    requires Inv(s) && s.fs.counter >= 100 && Enabled(s, step) && Next(s, step).fs.counter <= ALL_ISSUED
    ensures var s' := Next(s, step); forall t :: t in s'.threads ==> PcOk(s'.fs, s'.threads[t])
  {
    var s' := Next(s, step);
    KindsKept(s, step);
    forall t | t in s'.threads ensures PcOk(s'.fs, s'.threads[t]) {
      if t in s.threads { assert PcOk(s.fs, s.threads[t]); }
    }
  }

  lemma StepKeepsInv(s: System, step: Step)
    requires Inv(s) && s.fs.counter >= 100 && Enabled(s, step) && Next(s, step).fs.counter <= ALL_ISSUED
    ensures Inv(Next(s, step))
  {
    KindsKept(s, step);
    ThreadsKept(s, step);
    match step
    case InsertPath(t) => assert PcOk(s.fs, s.threads[t]);
    case InsertIter(t) => assert PcOk(s.fs, s.threads[t]);
    case _ =>
  }

  lemma {:induction false} InvHolds(s: System, steps: seq<Step>)
    requires Inv(s) && s.fs.counter >= 100 && Allowed(s, steps) && Run(s, steps).fs.counter <= ALL_ISSUED
    ensures Inv(Run(s, steps)) && s.fs.counter <= Run(s, steps).fs.counter
    decreases |steps|
  {
    if steps != [] {
      CounterNeverFalls(Next(s, steps[0]), steps[1..]);
      CounterGrows(s, steps[0]);
      StepKeepsInv(s, steps[0]);
      InvHolds(Next(s, steps[0]), steps[1..]);
    }
  }

  lemma {:induction false} CounterNeverFalls(s: System, steps: seq<Step>)
    requires Allowed(s, steps)
    ensures s.fs.counter <= Run(s, steps).fs.counter
    decreases |steps|
  {
    if steps != [] {
      CounterGrows(s, steps[0]);
      CounterNeverFalls(Next(s, steps[0]), steps[1..]);
    }
  }

  /**
    Main theorem: while at most 2^32 ids have been issued, in every
    interleaving, a handle is a path's or an iterator's, never both, was issued
    for that, and is no larger than the counter.
    */
  lemma HandlesStayApart(steps: seq<Step>, h: Handle)
    requires Allowed(START, steps) && Run(START, steps).fs.counter <= ALL_ISSUED
    ensures var s := Run(START, steps).fs;
            !(h in s.paths && h in s.iters) &&
            (h in s.paths ==> IssuedFor(s, h, PathKind) && h <= s.counter) &&
            (h in s.iters ==> IssuedFor(s, h, IterKind) && h <= s.counter)
  {
    InvHolds(START, steps);
  }

  /** The next handle is free, so an object stored under it takes no other's place. */
  lemma NextHandleIsFree(steps: seq<Step>)
    requires Allowed(START, steps) && Run(START, steps).fs.counter < ALL_ISSUED
    ensures var s := Run(START, steps).fs;
            var h: Handle := (s.counter + 1) % HANDLES;
            h !in s.paths && h !in s.iters && !exists t :: InsertsAt(Run(START, steps), t, h)
  {
    InvHolds(START, steps);
    NotSpent(Run(START, steps).fs);
  }

  lemma NotSpent(s: Fs)
    requires 100 <= s.counter < ALL_ISSUED
    ensures !Spent(s, Truncated(s.counter + 1))
  {
    var n := s.counter + 1;
    assert n < HANDLES ==> n % HANDLES == n;
    assert n >= HANDLES ==> n % HANDLES == n - HANDLES;
  }

  /** A request of open that has its handle and has not stored its path. */
  predicate InsertsAt(s: System, t: Thread, h: Handle) {
    t in s.threads && s.threads[t].InsertsPath? && s.threads[t].h == h
  }

  /** The handle is thread t's alone, for the path p, and not stored yet. */
  ghost predicate Pending(s: System, t: Thread, h: Handle, p: Path) {
    h in s.fs.kinds && h !in s.fs.paths && t in s.threads && s.threads[t] == InsertsPath(h, p) &&
    forall u :: InsertsAt(s, u, h) ==> u == t
  }

  lemma PendingStep(s: System, step: Step, t: Thread, h: Handle, p: Path)
    requires Inv(s) && 100 <= s.fs.counter && Enabled(s, step) && Next(s, step).fs.counter <= ALL_ISSUED
    requires Pending(s, t, h, p)
    ensures if step == InsertPath(t) then h in Next(s, step).fs.paths && Next(s, step).fs.paths[h] == p
            else Pending(Next(s, step), t, h, p)
  {
    if step.OpenFresh? { NotSpent(s.fs); }
    if step.InsertPath? && s.threads[step.t].h == h { assert InsertsAt(s, step.t, h); }
    var s' := Next(s, step);
    if step == InsertPath(t) { return; }
    forall u | InsertsAt(s', u, h) ensures u == t {
      if u in s.threads { assert InsertsAt(s, u, h) ==> u == t; }
    }
  }

  lemma NowPending(before: seq<Step>, t: Thread, p: Path)
    requires Allowed(START, before) && t !in Run(START, before).threads && Run(START, before).fs.counter < ALL_ISSUED
    ensures var s := Next(Run(START, before), OpenFresh(t, p));
            Inv(s) && 100 <= s.fs.counter && Pending(s, t, Truncated(s.fs.counter), p)
  {
    var s0 := Run(START, before);
    var s1, h := Next(s0, OpenFresh(t, p)), Truncated(s0.fs.counter + 1);
    InvHolds(START, before);
    NextHandleIsFree(before);
    StepKeepsInv(s0, OpenFresh(t, p));
    forall u | InsertsAt(s1, u, h) ensures u == t {
      assert u != t ==> InsertsAt(s0, u, h);
    }
  }

  lemma {:induction false} StaysPending(s: System, steps: seq<Step>, t: Thread, h: Handle, p: Path)
    requires Inv(s) && 100 <= s.fs.counter && Allowed(s, steps) && Run(s, steps).fs.counter <= ALL_ISSUED
    requires Pending(s, t, h, p) && InsertPath(t) !in steps
    ensures Pending(Run(s, steps), t, h, p)
    decreases |steps|
  {
    if steps != [] {
      CounterNeverFalls(Next(s, steps[0]), steps[1..]);
      CounterGrows(s, steps[0]);
      PendingStep(s, steps[0], t, h, p);
      StepKeepsInv(s, steps[0]);
      StaysPending(Next(s, steps[0]), steps[1..], t, h, p);
    }
  }

  /** The steps that change what a path handle stands for: a close and a change of directory. */
  predicate Moves(step: Step, h: Handle) {
    (step.ClosePath? && step.h == h) || (step.ChangeDir? && step.h == h)
  }

  lemma {:induction false} PathStays(s: System, steps: seq<Step>, h: Handle)
    requires Allowed(s, steps) && h in s.fs.paths && forall i :: 0 <= i < |steps| ==> !Moves(steps[i], h)
    ensures h in Run(s, steps).fs.paths && Run(s, steps).fs.paths[h] == s.fs.paths[h]
    decreases |steps|
  {
    if steps != [] {
      assert !Moves(steps[0], h);
      PathStays(Next(s, steps[0]), steps[1..], h);
    }
  }

  /**
    Main theorem, in every interleaving: the handle open takes stands for the
    path that was opened, from the moment it is stored until it is closed or its
    directory changed, whatever other requests run in between.
    */
  lemma HandleStandsForPath(before: seq<Step>, t: Thread, p: Path, during: seq<Step>, after: seq<Step>)
    requires Allowed(START, before) && t !in Run(START, before).threads
    requires var s := Next(Run(START, before), OpenFresh(t, p));
             Allowed(s, during) && InsertPath(t) !in during &&
             Run(s, during).fs.counter <= ALL_ISSUED &&
             (Enabled(Run(s, during), InsertPath(t)) ==> Allowed(Next(Run(s, during), InsertPath(t)), after))
    ensures var s0 := Run(START, before);
            var h: Handle := (s0.fs.counter + 1) % HANDLES;
            var s := Run(Next(s0, OpenFresh(t, p)), during);
            Enabled(s, InsertPath(t)) &&
            ((forall i :: 0 <= i < |after| ==> !Moves(after[i], h)) ==>
               var e := Run(Next(s, InsertPath(t)), after).fs;
               h in e.paths && e.paths[h] == p)
  {
    var s0 := Run(START, before);
    var h := Truncated(s0.fs.counter + 1);
    var s1 := Next(s0, OpenFresh(t, p));
    CounterNeverFalls(s1, during);
    NowPending(before, t, p);
    StaysPending(s1, during, t, h, p);
    var s := Run(s1, during);
    InvHolds(s1, during);
    if forall i :: 0 <= i < |after| ==> !Moves(after[i], h) {
      PathStays(Next(s, InsertPath(t)), after, h);
    }
  }

  /**
    close, step by step: the first step removes at most the path of the handle,
    and a request that gets to the second step removed nothing in the first;
    whichever step removes something, the handle was issued for it and names
    nothing else.
    */
  lemma CloseRemovesOne(steps: seq<Step>, t: Thread, h: Handle)
    requires Allowed(START, steps) && Run(START, steps).fs.counter <= ALL_ISSUED
    ensures var s := Run(START, steps);
            t !in s.threads ==>
              var s' := Next(s, ClosePath(t, h));
              s'.fs.iters == s.fs.iters && s'.fs.paths == s.fs.paths - {h} &&
              (h in s.fs.paths ==> IssuedFor(s.fs, h, PathKind) && h !in s.fs.iters && t !in s'.threads)
    ensures var s := Run(START, steps);
            t in s.threads && s.threads[t] == ClosesIter(h) ==>
              var s' := Next(s, CloseIter(t));
              s'.fs.paths == s.fs.paths && s'.fs.iters == s.fs.iters - {h} &&
              (h in s.fs.iters ==> IssuedFor(s.fs, h, IterKind) && h !in s.fs.paths)
  {
    InvHolds(START, steps);
    var s := Run(START, steps);
    if h !in s.fs.paths { assert s.fs.paths - {h} == s.fs.paths; }
  }

  // ---------------------------------------------------------------------
  // Beyond 32 bits
  // ---------------------------------------------------------------------

  lemma {:induction false} ManyTouches(s: System, n: nat)
    ensures Allowed(s, Repeat(Touch, n)) && Run(s, Repeat(Touch, n)) == s.(fs := s.fs.(counter := s.fs.counter + n))
    decreases n
  {
    if n > 0 {
      assert Repeat(Touch, n)[1..] == Repeat(Touch, n - 1);
      ManyTouches(Next(s, Touch), n - 1);
    }
  }

  lemma {:induction false} RunConcat(s: System, a: seq<Step>, b: seq<Step>)
    requires Allowed(s, a) && Allowed(Run(s, a), b)
    ensures Allowed(s, a + b) && Run(s, a + b) == Run(Run(s, a), b)
    decreases |a|
  {
    if a == [] {
      assert a + b == b;
    } else {
      assert (a + b)[1..] == a[1..] + b;
      RunConcat(Next(s, a[0]), a[1..], b);
    }
  }

  predicate Collides(s: System) { exists h :: h in s.fs.paths && h in s.fs.iters }

  /** With one id more, and with any number beyond that, a path and an iterator can share a handle. */
  lemma CollisionAfterWrap(p: Path, it: Iterator, n: nat) returns (steps: seq<Step>)
    requires n > ALL_ISSUED
    ensures Allowed(START, steps) && Run(START, steps).fs.counter == n
    ensures var s := Run(START, steps).fs; 101 in s.paths && 101 in s.iters
  {
    var open := [OpenFresh(0, p), InsertPath(0)];
    var begin := [ListFresh(0, it), IssueIter(0), InsertIter(0)];
    RunTwo(START, open[0], open[1]);
    var s0 := Run(START, open);
    ManyTouches(s0, HANDLES - 2);
    var s1 := Run(s0, Repeat(Touch, HANDLES - 2));
    RunConcat(START, open, Repeat(Touch, HANDLES - 2));
    RunThree(s1, begin[0], begin[1], begin[2]);
    steps := open + Repeat(Touch, HANDLES - 2) + begin;
    RunConcat(START, open + Repeat(Touch, HANDLES - 2), begin);
    ManyTouches(Run(START, steps), n - ALL_ISSUED - 1);
    RunConcat(START, steps, Repeat(Touch, n - ALL_ISSUED - 1));
    steps := steps + Repeat(Touch, n - ALL_ISSUED - 1);
  }

  ghost predicate CanCollideAt(n: nat) {
    exists steps :: Allowed(START, steps) && Run(START, steps).fs.counter == n && Collides(Run(START, steps))
  }

  /** The exact condition: two objects can share a handle if and only if more than 2^32 ids have been issued. */
  lemma CollisionExactly(n: nat)
    ensures CanCollideAt(n) <==> n > ALL_ISSUED
  {
    if n > ALL_ISSUED {
      var steps := CollisionAfterWrap("", 0, n);
      assert Collides(Run(START, steps));
    } else if CanCollideAt(n) {
      var steps :| Allowed(START, steps) && Run(START, steps).fs.counter == n && Collides(Run(START, steps));
      var h :| h in Run(START, steps).fs.paths && h in Run(START, steps).fs.iters;
      HandlesStayApart(steps, h);
    }
  }

  lemma RunTwo(s: System, a: Step, b: Step)
    requires Enabled(s, a) && Enabled(Next(s, a), b)
    ensures Allowed(s, [a, b]) && Run(s, [a, b]) == Next(Next(s, a), b)
  {
    var t := Next(s, a);
    var u := Next(t, b);
    assert [a, b][1..] == [b] && [b][1..] == [];
    assert Allowed(u, []) && Run(u, []) == u;
    assert Allowed(t, [b]) && Run(t, [b]) == u;
  }

  lemma RunThree(s: System, a: Step, b: Step, c: Step)
    requires Enabled(s, a) && Enabled(Next(s, a), b) && Enabled(Next(Next(s, a), b), c)
    ensures Allowed(s, [a, b, c]) && Run(s, [a, b, c]) == Next(Next(Next(s, a), b), c)
  {
    assert [a, b, c][1..] == [b, c];
    RunTwo(Next(s, a), b, c);
  }
}
