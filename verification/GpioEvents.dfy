/**
  Event delivery of one pin in agent/gpio-helper.cpp: the reactor thread reads
  the pin and posts its value, one queue runs send_to_all for the values in
  turn, and clients add and delete subscriptions at any time.
  */
module GpioEvents {
  import opened Common

  type Id = nat
  type Value = nat

  /** One subscription: how many values had been sent before it, what it was called with, and where it ended. */
  datatype Session = Session(id: Id, from: nat, heard: seq<Value>, ended: Option<nat>) {
    function Hears(v: Value): Session { this.(heard := heard + [v]) }
    function EndsAt(n: nat): Session { this.(ended := Some(n)) }
  }

  /** The connections by id, every session there has been, the values posted, and how many of them were sent. */
  datatype Pin = Pin(connections: map<Id, nat>, sessions: seq<Session>, posted: seq<Value>, sent: nat) {
    predicate Live(i: nat) { i < |sessions| && sessions[i].id in connections && connections[sessions[i].id] == i }
  }

  const NO_PIN := Pin(map[], [], [], 0)

  /** The session that held the id, if any, ends here. */
  function Ended(p: Pin, id: Id): seq<Session> {
    if id in p.connections && p.connections[id] < |p.sessions|
    then p.sessions[p.connections[id] := p.sessions[p.connections[id]].EndsAt(p.sent)]
    else p.sessions
  }

  /** add_connection: the id takes a new session, in place of any it had. */
  function Inserted(p: Pin, id: Id): Pin {
    p.(connections := p.connections[id := |p.sessions|],
       sessions := Ended(p, id) + [Session(id, p.sent, [], None)])
  }

  /** del_connection. */
  function Removed(p: Pin, id: Id): Pin {
    p.(connections := p.connections - {id}, sessions := Ended(p, id))
  }

  function Posted(p: Pin, v: Value): Pin { p.(posted := p.posted + [v]) }

  /** A session after a send: it has heard the value, and ends when its callback answers false. */
  function AfterSend(p: Pin, v: Value, refused: set<nat>, i: nat): Session
    requires i < |p.sessions|
  {
    if !p.Live(i) then p.sessions[i]
    else if i in refused then p.sessions[i].Hears(v).EndsAt(p.sent + 1)
    else p.sessions[i].Hears(v)
  }

  /** send_to_all for the next posted value; `refused` are the sessions whose callback answers false. */
  function Sent(p: Pin, refused: set<nat>): Pin
    requires p.sent < |p.posted|
  {
    p.(connections := map id | id in p.connections && p.connections[id] !in refused :: p.connections[id],
       sessions := seq(|p.sessions|, i requires 0 <= i < |p.sessions| => AfterSend(p, p.posted[p.sent], refused, i)),
       sent := p.sent + 1)
  }

  // ---------------------------------------------------------------------
  // What a session has heard
  // ---------------------------------------------------------------------

  function EndOf(p: Pin, i: nat): nat
    requires i < |p.sessions|
  {
    match p.sessions[i].ended case Some(n) => n case None => p.sent
  }

  /** Session i has heard the posted values of its time, each once and in order. */
  ghost predicate HeardSlice(p: Pin, i: nat)
    requires i < |p.sessions|
  {
    p.sessions[i].from <= EndOf(p, i) <= p.sent <= |p.posted| &&
    p.sessions[i].heard == p.posted[p.sessions[i].from..EndOf(p, i)]
  }

  ghost predicate Consistent(p: Pin) {
    p.sent <= |p.posted| &&
    (forall id :: id in p.connections ==> p.connections[id] < |p.sessions| && p.sessions[p.connections[id]].id == id) &&
    forall i :: 0 <= i < |p.sessions| ==> HeardSlice(p, i) && (p.sessions[i].ended.None? <==> p.Live(i))
  }

  lemma InsertedConsistent(p: Pin, id: Id)
    requires Consistent(p)
    ensures Consistent(Inserted(p, id))
  {
    var p' := Inserted(p, id);
    forall i | 0 <= i < |p'.sessions| ensures HeardSlice(p', i) && (p'.sessions[i].ended.None? <==> p'.Live(i)) {
      if i < |p.sessions| { assert HeardSlice(p, i); }
    }
  }

  lemma RemovedConsistent(p: Pin, id: Id)
    requires Consistent(p)
    ensures Consistent(Removed(p, id))
  {
    var p' := Removed(p, id);
    forall i | 0 <= i < |p'.sessions| ensures HeardSlice(p', i) && (p'.sessions[i].ended.None? <==> p'.Live(i)) {
      assert HeardSlice(p, i);
    }
  }

  lemma PostedConsistent(p: Pin, v: Value)
    requires Consistent(p)
    ensures Consistent(Posted(p, v))
  {
    var p' := Posted(p, v);
    forall i | 0 <= i < |p'.sessions| ensures HeardSlice(p', i) && (p'.sessions[i].ended.None? <==> p'.Live(i)) {
      assert HeardSlice(p, i);
      assert p'.posted[p.sessions[i].from..EndOf(p, i)] == p.posted[p.sessions[i].from..EndOf(p, i)];
    }
  }

  lemma SentConsistent(p: Pin, refused: set<nat>)
    requires Consistent(p) && p.sent < |p.posted|
    ensures Consistent(Sent(p, refused))
  {
    var p' := Sent(p, refused);
    forall i | 0 <= i < |p'.sessions| ensures HeardSlice(p', i) && (p'.sessions[i].ended.None? <==> p'.Live(i)) {
      assert HeardSlice(p, i);
      if p.Live(i) {
        assert p.posted[p.sessions[i].from..p.sent] + [p.posted[p.sent]] == p.posted[p.sessions[i].from..p.sent + 1];
      }
    }
  }

  // ---------------------------------------------------------------------
  // The loop of send_to_all
  // ---------------------------------------------------------------------

  /** The connection of id has been called: it is dropped when it answered false. */
  function ConnectionsAfter(connections: map<Id, nat>, refused: set<nat>, id: Id): map<Id, nat> {
    if id in connections && connections[id] in refused then connections - {id} else connections
  }

  function SessionsAfter(connections: map<Id, nat>, sessions: seq<Session>, v: Value, refused: set<nat>, sent: nat,
                         id: Id): seq<Session>
    requires id in connections && connections[id] < |sessions|
  {
    var i := connections[id];
    var s := sessions[i].Hears(v);
    sessions[i := if i in refused then s.EndsAt(sent + 1) else s]
  }

  /** The connections of `todo` are still to be called. */
  ghost predicate Halfway(p: Pin, v: Value, refused: set<nat>, todo: set<Id>,
                          connections: map<Id, nat>, sessions: seq<Session>) {
    todo <= p.connections.Keys && |sessions| == |p.sessions| &&
    (forall i :: 0 <= i < |sessions| ==>
       sessions[i] == if p.sessions[i].id in todo then p.sessions[i] else AfterSend(p, v, refused, i)) &&
    (forall id :: id in connections <==> id in p.connections && (id in todo || p.connections[id] !in refused)) &&
    (forall id :: id in connections ==> connections[id] == p.connections[id])
  }

  lemma HalfwayStep(p: Pin, v: Value, refused: set<nat>, todo: set<Id>,
                    connections: map<Id, nat>, sessions: seq<Session>, id: Id)
    requires Consistent(p) && Halfway(p, v, refused, todo, connections, sessions) && id in todo
    ensures id in connections && connections[id] < |sessions|
    ensures Halfway(p, v, refused, todo - {id}, ConnectionsAfter(connections, refused, id),
                    SessionsAfter(connections, sessions, v, refused, p.sent, id))
  {
    var sessions' := SessionsAfter(connections, sessions, v, refused, p.sent, id);
    forall i | 0 <= i < |sessions|
      ensures sessions'[i] == if p.sessions[i].id in todo - {id} then p.sessions[i] else AfterSend(p, v, refused, i)
    {
      assert HeardSlice(p, i);
    }
  }

  lemma HalfwayDone(p: Pin, refused: set<nat>, connections: map<Id, nat>, sessions: seq<Session>)
    requires p.sent < |p.posted| && Halfway(p, p.posted[p.sent], refused, {}, connections, sessions)
    ensures connections == Sent(p, refused).connections && sessions == Sent(p, refused).sessions
  {
  }

  // ---------------------------------------------------------------------
  // The methods
  // ---------------------------------------------------------------------

  /** The id is connected as it was: not at all, or with the same session, which has heard nothing since. */
  ghost predicate Unmoved(before: Pin, after: Pin, id: Id) {
    (id in before.connections <==> id in after.connections) &&
    (id in before.connections ==>
       var i := before.connections[id];
       after.connections[id] == i < |before.sessions| <= |after.sessions| && after.sessions[i] == before.sessions[i])
  }

  /** The session of the id, if it had one, is over: it keeps what it has heard so far. */
  ghost predicate Over(before: Pin, after: Pin, id: Id) {
    id in before.connections ==>
      var i := before.connections[id];
      i < |before.sessions| <= |after.sessions| && after.sessions[i] == before.sessions[i].(ended := Some(before.sent))
  }

  /** What a send of v makes of session i: a live one hears v, and is over when its callback refuses. */
  ghost predicate Called(p: Pin, refused: set<nat>, v: Value, i: nat, after: Session)
    requires i < |p.sessions|
  {
    var s := p.sessions[i];
    if !p.Live(i) then after == s
    else after == Session(s.id, s.from, s.heard + [v], if i in refused then Some(p.sent + 1) else s.ended)
  }

  class GpioHelper {
    var connections: map<Id, nat>
    var made: nat
    var queue: seq<Value>
    var registered: bool
    ghost var sessions: seq<Session>
    ghost var posted: seq<Value>

    ghost predicate Valid() reads this {
      made == |sessions| && |queue| <= |posted| && queue == posted[|posted| - |queue|..] && Consistent(State())
    }

    ghost function State(): Pin
      reads this
    {
      Pin(connections, sessions, posted, if |queue| <= |posted| then |posted| - |queue| else 0)
    }

    constructor ()
      ensures Valid() && State() == NO_PIN && !registered
    {
      connections, made, queue, registered := map[], 0, [], false;
      sessions, posted := [], [];
    }

    /** add_reactor_action; the first connection registers the pin, which the reactor may refuse. */
    method AddReactorAction(id: Id, accepted: bool)
      requires Valid()
      modifies this
      ensures Valid() && State() == Inserted(old(State()), id)
      ensures id in connections && connections[id] == |old(sessions)|
      ensures Over(old(State()), State(), id)
      ensures sessions[|old(sessions)|..] == [Session(id, old(State()).sent, [], None)]
      ensures forall other :: other != id ==> Unmoved(old(State()), State(), other)
      ensures registered == (old(registered) || (old(connections) == map[] && accepted))
    {
      ghost var p := State();
      InsertedConsistent(p, id);
      var first := connections == map[];
      sessions := Ended(State(), id) + [Session(id, State().sent, [], None)];
      connections := connections[id := made];
      made := made + 1;
      if first { registered := registered || accepted; }
      assert State() == Inserted(p, id);
    }

    /** del_reactor_action; with the last connection the pin is taken off the reactor. */
    method DelReactorAction(id: Id)
      requires Valid()
      modifies this
      ensures Valid() && State() == Removed(old(State()), id)
      ensures id !in connections && Over(old(State()), State(), id) && |sessions| == |old(sessions)|
      ensures forall other :: other != id ==> Unmoved(old(State()), State(), other)
      ensures registered == (old(registered) && connections != map[])
    {
      ghost var p := State();
      RemovedConsistent(p, id);
      sessions := Ended(State(), id);
      connections := connections - {id};
      if connections == map[] { registered := false; }
      assert State() == Removed(p, id);
    }

    /** reactor_handler with what it reads from the pin; nothing without a connection or a reading. */
    method ReactorHandler(reading: Option<Value>) returns (keep: bool)
      requires Valid()
      modifies this
      ensures Valid() && keep == (old(connections) != map[] && reading.Some?)
      ensures State() == if keep then Posted(old(State()), reading.value) else old(State())
      ensures queue == old(queue) + if keep then [reading.value] else []
      ensures connections == old(connections) && sessions == old(sessions)
      ensures registered == old(registered)
    {
      if connections == map[] { return false; }
      if reading.None? { return false; }
      ghost var p := State();
      PostedConsistent(p, reading.value);
      queue := queue + [reading.value];
      posted := posted + [reading.value];
      assert State() == Posted(p, reading.value);
      keep := true;
    }

    /** send_to_all, as the queue runs it for its first value. */
    method SendToAll(refused: set<nat>)
      requires Valid() && queue != []
      modifies this
      ensures Valid() && State() == Sent(old(State()), refused) && queue == old(queue)[1..]
      ensures forall id :: id in connections <==> id in old(connections) && old(connections)[id] !in refused
      ensures forall id :: id in connections ==> connections[id] == old(connections)[id]
      ensures |sessions| == |old(sessions)|
      ensures forall i :: 0 <= i < |sessions| ==> Called(old(State()), refused, old(queue)[0], i, sessions[i])
      ensures registered == old(registered)
    {
      ghost var p := State();
      SentConsistent(p, refused);
      var value := queue[0];
      CallAll(value, refused);
      queue := queue[1..];
      HalfwayDone(p, refused, connections, sessions);
      assert State() == Sent(p, refused);
    }

    method CallAll(value: Value, refused: set<nat>)
      requires Consistent(State())
      modifies `connections, `sessions
      ensures Halfway(old(State()), value, refused, {}, connections, sessions)
    {
      ghost var p := State();
      var todo := connections.Keys;
      while todo != {}
        invariant Halfway(p, value, refused, todo, connections, sessions)
        decreases |todo|
      {
        var id :| id in todo;
        CallOne(id, value, refused, p, todo);
        todo := todo - {id};
      }
    }

    /** Calls one connection back, and drops it when it answers false. */
    method CallOne(id: Id, value: Value, refused: set<nat>, ghost p: Pin, ghost todo: set<Id>)
      requires Consistent(p) && Halfway(p, value, refused, todo, connections, sessions) && id in todo
      modifies `connections, `sessions
      ensures Halfway(p, value, refused, todo - {id}, connections, sessions)
    {
      HalfwayStep(p, value, refused, todo, connections, sessions, id);
      var i := connections[id];
      var answer := i !in refused;
      ghost var s := sessions[i].Hears(value);
      if answer {
        sessions := sessions[i := s];
      } else {
        sessions := sessions[i := s.EndsAt(p.sent + 1)];
        connections := connections - {id};
      }
    }
  }

  // ---------------------------------------------------------------------
  // All interleavings
  // ---------------------------------------------------------------------

  // Who holds the lock of the connections while waiting for the reactor.
  datatype Lock = Free | Adding | Deleting

  /** The handler runs under the reactor's lock; it has not looked yet, or has seen whether there were connections. */
  datatype Handler = Idle | Started | Looked(empty: bool)

  /** `deaf`: a registration was refused, or a reading failed, at some time. */
  datatype System = System(pin: Pin, registered: bool, lock: Lock, handler: Handler, deaf: bool)

  datatype Step =
    | AddInsert(id: Id)
    | AddRegister(accepted: bool)
    | DelErase(id: Id)
    | DelUnregister
    | HandlerStart
    | HandlerLook
    | HandlerEnd(reading: Option<Value>)
    | Send(refused: set<nat>)

  const START := System(NO_PIN, false, Free, Idle, false)

  predicate Enabled(s: System, step: Step) {
    match step
    case AddInsert(_) => s.lock.Free?
    case AddRegister(_) => s.lock.Adding? && s.handler.Idle?
    case DelErase(_) => s.lock.Free?
    case DelUnregister => s.lock.Deleting? && s.handler.Idle?
    case HandlerStart => s.registered && s.handler.Idle?
    case HandlerLook => s.handler.Started?
    case HandlerEnd(_) => s.handler.Looked?
    case Send(_) => s.lock.Free? && s.pin.sent < |s.pin.posted|
  }

  function Next(s: System, step: Step): System
    requires Enabled(s, step)
  {
    match step
    case AddInsert(id) =>
      s.(pin := Inserted(s.pin, id), lock := if s.pin.connections == map[] then Adding else Free)
    case AddRegister(accepted) =>
      s.(registered := s.registered || accepted, deaf := s.deaf || !accepted, lock := Free)
    case DelErase(id) =>
      var p := Removed(s.pin, id);
      s.(pin := p, lock := if p.connections == map[] then Deleting else Free)
    case DelUnregister => s.(registered := false, lock := Free)
    case HandlerStart => s.(handler := Started)
    case HandlerLook => s.(handler := Looked(s.pin.connections == map[]))
    case HandlerEnd(reading) =>
      if s.handler.empty then s.(registered := false, handler := Idle)
      else
        (match reading
         case None => s.(registered := false, handler := Idle, deaf := true)
         case Some(v) => s.(pin := Posted(s.pin, v), handler := Idle))
    case Send(refused) => s.(pin := Sent(s.pin, refused))
  }

  predicate Allowed(s: System, steps: seq<Step>)
    decreases |steps|
  {
    steps == [] || (Enabled(s, steps[0]) && Allowed(Next(s, steps[0]), steps[1..]))
  }

  function Run(s: System, steps: seq<Step>): System
    requires Allowed(s, steps)
    decreases |steps|
  {
    if steps == [] then s else Run(Next(s, steps[0]), steps[1..])
  }

  /**
    While someone is connected the pin stays registered, unless an adder is
    about to register it; a handler that saw no connections can only take it
    off before that.
    */
  ghost predicate Inv(s: System) {
    Consistent(s.pin) &&
    (s.lock.Adding? ==> s.pin.connections != map[]) &&
    (s.lock.Deleting? ==> s.pin.connections == map[]) &&
    (!s.deaf && s.pin.connections != map[] && !s.lock.Adding? ==>
      s.registered && !(s.handler.Looked? && s.handler.empty))
  }

  lemma StepKeepsInv(s: System, step: Step)
    requires Inv(s) && Enabled(s, step)
    ensures Inv(Next(s, step))
  {
    match step
    case AddInsert(id) => InsertedConsistent(s.pin, id);
    case DelErase(id) => RemovedConsistent(s.pin, id);
    case HandlerEnd(reading) => {
      if reading.Some? { PostedConsistent(s.pin, reading.value); }
    }
    case Send(refused) => SentConsistent(s.pin, refused);
    case _ =>
  }

  lemma {:induction false} InvHolds(s: System, steps: seq<Step>)
    requires Inv(s) && Allowed(s, steps)
    ensures Inv(Run(s, steps))
    decreases |steps|
  {
    if steps != [] {
      StepKeepsInv(s, steps[0]);
      InvHolds(Next(s, steps[0]), steps[1..]);
    }
  }

  /**
    Main theorem, in every interleaving: what a subscription has heard is a
    slice of the posted values, in order and without repeats, from its add on;
    while it lives, nothing sent since then is missing.
    */
  lemma DeliveredSlices(steps: seq<Step>, i: nat)
    requires Allowed(START, steps) && i < |Run(START, steps).pin.sessions|
    ensures var p := Run(START, steps).pin;
            p.sessions[i].from <= EndOf(p, i) <= p.sent <= |p.posted| &&
            p.sessions[i].heard == p.posted[p.sessions[i].from..EndOf(p, i)] &&
            (p.Live(i) ==> p.sessions[i].heard == p.posted[p.sessions[i].from..p.sent])
  {
    InvHolds(START, steps);
    var p := Run(START, steps).pin;
    assert HeardSlice(p, i);
  }

  /** What has ended stays as it is. */
  lemma StepKeepsEnded(s: System, step: Step, i: nat)
    requires Inv(s) && Enabled(s, step) && i < |s.pin.sessions| && s.pin.sessions[i].ended.Some?
    ensures i < |Next(s, step).pin.sessions| && Next(s, step).pin.sessions[i] == s.pin.sessions[i]
  {
    assert !s.pin.Live(i);
  }

  lemma {:induction false} EndedStaysSilent(s: System, steps: seq<Step>, i: nat)
    requires Inv(s) && Allowed(s, steps) && i < |s.pin.sessions| && s.pin.sessions[i].ended.Some?
    ensures i < |Run(s, steps).pin.sessions| && Run(s, steps).pin.sessions[i] == s.pin.sessions[i]
    decreases |steps|
  {
    if steps != [] {
      StepKeepsInv(s, steps[0]);
      StepKeepsEnded(s, steps[0], i);
      EndedStaysSilent(Next(s, steps[0]), steps[1..], i);
    }
  }

  /** Once del_reactor_action has erased the id, its subscription hears nothing more, whatever is still queued. */
  lemma NothingAfterDelete(before: seq<Step>, id: Id, after: seq<Step>)
    requires Allowed(START, before)
    requires var s := Run(START, before);
             id in s.pin.connections && Enabled(s, DelErase(id)) && Allowed(Next(s, DelErase(id)), after)
    ensures var s := Run(START, before);
            var i, end := s.pin.connections[id], Run(Next(s, DelErase(id)), after).pin;
            i < |s.pin.sessions| && i < |end.sessions| && end.sessions[i].heard == s.pin.sessions[i].heard
  {
    InvHolds(START, before);
    var s := Run(START, before);
    var i := s.pin.connections[id];
    StepKeepsInv(s, DelErase(id));
    EndedStaysSilent(Next(s, DelErase(id)), after, i);
  }

  /** A step that ends the subscription of the id, which has session i: deleted, replaced or refused. */
  predicate Disturbs(step: Step, id: Id, i: nat) {
    step == DelErase(id) || step == AddInsert(id) || (step.Send? && i in step.refused)
  }

  predicate Undisturbed(steps: seq<Step>, id: Id, i: nat) {
    forall k :: 0 <= k < |steps| ==> !Disturbs(steps[k], id, i)
  }

  /** The session is of the same client, and lives on or not. */
  ghost predicate Follows(p: Pin, p': Pin, i: nat, lives: bool)
    requires i < |p.sessions|
  {
    i < |p'.sessions| && p'.sessions[i].id == p.sessions[i].id && p'.sessions[i].from == p.sessions[i].from &&
    (p'.Live(i) <==> lives)
  }

  lemma LiveAfterSend(p: Pin, refused: set<nat>, i: nat)
    requires Consistent(p) && p.Live(i) && p.sent < |p.posted|
    ensures Follows(p, Sent(p, refused), i, i !in refused)
  {
  }

  lemma LiveAfterChange(p: Pin, id: Id, i: nat)
    requires Consistent(p) && p.Live(i)
    ensures Follows(p, Inserted(p, id), i, id != p.sessions[i].id)
    ensures Follows(p, Removed(p, id), i, id != p.sessions[i].id)
  {
  }

  lemma LiveStep(s: System, step: Step, i: nat)
    requires Inv(s) && Enabled(s, step) && s.pin.Live(i)
    ensures Follows(s.pin, Next(s, step).pin, i, !Disturbs(step, s.pin.sessions[i].id, i))
  {
    match step
    case AddInsert(id) => LiveAfterChange(s.pin, id, i);
    case DelErase(id) => LiveAfterChange(s.pin, id, i);
    case Send(refused) => LiveAfterSend(s.pin, refused, i);
    case _ =>
  }

  /** A subscription lives on in every interleaving exactly as long as it is not deleted, replaced or refused. */
  lemma {:induction false} StaysConnected(s: System, steps: seq<Step>, i: nat)
    requires Inv(s) && Allowed(s, steps) && s.pin.Live(i)
    ensures Follows(s.pin, Run(s, steps).pin, i, Undisturbed(steps, s.pin.sessions[i].id, i))
    decreases |steps|
  {
    if steps != [] {
      var s', id := Next(s, steps[0]), s.pin.sessions[i].id;
      StepKeepsInv(s, steps[0]);
      LiveStep(s, steps[0], i);
      assert Undisturbed(steps, id, i) <==> !Disturbs(steps[0], id, i) && Undisturbed(steps[1..], id, i);
      if s'.pin.Live(i) {
        StaysConnected(s', steps[1..], i);
      } else {
        assert HeardSlice(s'.pin, i);
        EndedStaysSilent(s', steps[1..], i);
        InvHolds(s', steps[1..]);
      }
    }
  }

  /**
    Main theorem: from its add on, in every interleaving, a client stays
    connected if and only if it is neither deleted, replaced nor refused, and
    then it has heard every value sent since, each once and in order.
    */
  lemma HearsEverything(before: seq<Step>, id: Id, after: seq<Step>)
    requires Allowed(START, before)
    requires var s := Run(START, before);
             Enabled(s, AddInsert(id)) && Allowed(Next(s, AddInsert(id)), after)
    ensures var p, e := Run(START, before).pin, Run(Next(Run(START, before), AddInsert(id)), after).pin;
            var i := |p.sessions|;
            ((id in e.connections && e.connections[id] == i) <==> Undisturbed(after, id, i)) &&
            (Undisturbed(after, id, i) ==>
               i < |e.sessions| && p.sent <= e.sent <= |e.posted| && e.sessions[i].heard == e.posted[p.sent..e.sent])
  {
    InvHolds(START, before);
    var s := Run(START, before);
    var s', i := Next(s, AddInsert(id)), |s.pin.sessions|;
    StepKeepsInv(s, AddInsert(id));
    assert s'.pin.Live(i) && s'.pin.sessions[i] == Session(id, s.pin.sent, [], None);
    StaysConnected(s', after, i);
    InvHolds(s', after);
    assert HeardSlice(Run(s', after).pin, i);
  }

  /** As long as nothing failed, a connected client has the pin registered whenever no adder is at work. */
  lemma NeverDeaf(steps: seq<Step>)
    requires Allowed(START, steps)
    ensures var s := Run(START, steps);
            !s.deaf && s.pin.connections != map[] && !s.lock.Adding? ==> s.registered
  {
    InvHolds(START, steps);
  }
}
