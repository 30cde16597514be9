/**
  Pin sharing in agent/subsys-gpio.cpp: open_pin hands out one helper per pin
  through a map of weak pointers; holders come and go in any thread, and
  close_pin is called with whatever key its callers have at hand.
  */
module GpioPins {
  import opened Common

  type Pin = nat
  type Holder = nat

  /** The pin of every helper ever made, the weak map, and which helper each shared pointer points to. */
  datatype Pins = Pins(helpers: seq<Pin>, devices: map<Pin, nat>, holders: map<Holder, nat>) {
    /** A helper lives as long as someone holds it. */
    predicate Live(h: nat) { h in holders.Values }

    /** lock( ) on the weak pointer of a pin. */
    function Locked(pin: Pin): Option<nat> {
      if pin in devices && Live(devices[pin]) then Some(devices[pin]) else None
    }
  }

  const NO_PINS := Pins([], map[], map[])

  /** open_pin: the live helper of the pin, or a new one that takes its place in the map. */
  function Opened(s: Pins, pin: Pin, who: Holder): Pins {
    match s.Locked(pin)
    case Some(h) => s.(holders := s.holders[who := h])
    case None =>
      Pins(s.helpers + [pin], s.devices[pin := |s.helpers|], s.holders[who := |s.helpers|])
  }

  /** close_pin: the entry goes only when its helper is gone. */
  function ClosedPin(s: Pins, key: Pin): Pins {
    if key in s.devices && s.Locked(key).None? then s.(devices := s.devices - {key}) else s
  }

  function Dropped(s: Pins, who: Holder): Pins { s.(holders := s.holders - {who}) }

  class GpioDevices {
    var devices: map<Pin, nat>
    var helpers: seq<Pin>
    var holders: map<Holder, nat>
    // The helpers whose value file is open, and their reactor actions by handle.
    var valueOpen: set<nat>
    var actions: set<(nat, Holder)>

    /** Every action belongs to a handle that is still held, on the helper it holds. */
    ghost predicate ActionsHeld()
      reads this
    {
      forall a :: a in actions ==> a.1 in holders && holders[a.1] == a.0 && a.0 in valueOpen
    }

    ghost function State(): Pins
      reads this
    {
      Pins(helpers, devices, holders)
    }

    constructor ()
      ensures State() == NO_PINS && ActionsHeld() && actions == {}
    {
      devices, helpers, holders := map[], [], map[];
      valueOpen, actions := {}, {};
    }

    /** weak_ptr::lock. */
    method Lock(h: nat) returns (res: Option<nat>)
      ensures res == if State().Live(h) then Some(h) else None
    {
      res := if h in holders.Values then Some(h) else None;
    }

    method OpenPin(pin: Pin, who: Holder)
      modifies this
      ensures State() == Opened(old(State()), pin, who)
      ensures valueOpen == old(valueOpen) && actions == old(actions)
      ensures old(ActionsHeld()) && who !in old(holders) ==> ActionsHeld()
      ensures who in holders && holders - {who} == old(holders) - {who}
      ensures pin in devices && devices[pin] == holders[who] && devices - {pin} == old(devices) - {pin}
      ensures pin in old(devices) && old(devices)[pin] in old(holders).Values ==>
                helpers == old(helpers) && devices == old(devices)
      ensures pin !in old(devices) || old(devices)[pin] !in old(holders).Values ==>
                helpers == old(helpers) + [pin] && holders[who] == |old(helpers)|
    {
      var res: Option<nat> := None;
      if pin in devices { res := Lock(devices[pin]); }
      if res.None? {
        res := Some(|helpers|);
        helpers := helpers + [pin];
        devices := devices[pin := res.value];
      }
      holders := holders[who := res.value];
    }

    method ClosePin(key: Pin)
      modifies `devices
      ensures State() == ClosedPin(old(State()), key)
      ensures devices ==
              if key in old(devices) && old(devices)[key] !in holders.Values then old(devices) - {key}
              else old(devices)
    {
      if key in devices {
        var res := Lock(devices[key]);
        if res.None? { devices := devices - {key}; }
      }
    }

    /** The service's register_for_change: the helper's value file is opened, and the handle gets an action. */
    method RegisterForChange(hdl: Holder) returns (found: bool)
      requires ActionsHeld()
      modifies `valueOpen, `actions
      ensures ActionsHeld() && found == (hdl in holders)
      ensures valueOpen == old(valueOpen) + if found then {holders[hdl]} else {}
      ensures actions == old(actions) + if found then {(holders[hdl], hdl)} else {}
    {
      found := hdl in holders;
      if found {
        valueOpen := valueOpen + {holders[hdl]};
        actions := actions + {(holders[hdl], hdl)};
      }
    }

    /**
      The service's close: an action of the handle is deleted, if the helper's
      value file is open. The handle is gone from the service's map at once, but
      a local copy of its pointer is held until close_pin has returned, so the
      handle stands for that copy here. The key given to close_pin is read from
      the erased entry; it may be anything.
      */
    method CloseDevice(hdl: Holder, key: Pin)
      requires ActionsHeld()
      modifies `devices, `holders, `actions
      ensures State() == if hdl in old(holders) then Dropped(ClosedPin(old(State()), key), hdl) else old(State())
      ensures ActionsHeld() && forall a :: a in actions <==> a in old(actions) && a.1 != hdl
      ensures holders == old(holders) - {hdl} && helpers == old(helpers)
      ensures forall pin :: pin in devices ==> pin in old(devices) && devices[pin] == old(devices)[pin]
    {
      if hdl in holders {
        var g := holders[hdl];
        if g in valueOpen { actions := actions - {(g, hdl)}; }
        ClosePin(key);
        holders := holders - {hdl};
      }
    }
  }

  // ---------------------------------------------------------------------
  // All interleavings
  // ---------------------------------------------------------------------

  datatype Step = Open(pin: Pin, who: Holder) | Copy(from: Holder, who: Holder) | Drop(who: Holder) | Close(key: Pin)

  predicate Enabled(s: Pins, step: Step) {
    match step
    case Open(_, who) => who !in s.holders
    case Copy(from, who) => from in s.holders && who !in s.holders
    case Drop(who) => who in s.holders
    case Close(_) => true
  }

  function Next(s: Pins, step: Step): Pins
    requires Enabled(s, step)
  {
    match step
    case Open(pin, who) => Opened(s, pin, who)
    case Copy(from, who) => s.(holders := s.holders[who := s.holders[from]])
    case Drop(who) => Dropped(s, who)
    case Close(key) => ClosedPin(s, key)
  }

  predicate Allowed(s: Pins, steps: seq<Step>)
    decreases |steps|
  {
    steps == [] || (Enabled(s, steps[0]) && Allowed(Next(s, steps[0]), steps[1..]))
  }

  function Run(s: Pins, steps: seq<Step>): Pins
    requires Allowed(s, steps)
    decreases |steps|
  {
    if steps == [] then s else Run(Next(s, steps[0]), steps[1..])
  }

  /** The weak map points to every helper somebody holds. */
  ghost predicate Inv(s: Pins) {
    (forall w :: w in s.holders ==>
       var h := s.holders[w]; h < |s.helpers| && s.helpers[h] in s.devices && s.devices[s.helpers[h]] == h) &&
    forall pin :: pin in s.devices ==> s.devices[pin] < |s.helpers| && s.helpers[s.devices[pin]] == pin
  }

  lemma StepKeepsInv(s: Pins, step: Step)
    requires Inv(s) && Enabled(s, step)
    ensures Inv(Next(s, step))
  {
    var s' := Next(s, step);
    forall w | w in s'.holders
      ensures var h := s'.holders[w]; h < |s'.helpers| && s'.helpers[h] in s'.devices && s'.devices[s'.helpers[h]] == h
    {
      if w in s.holders { assert s.Live(s.holders[w]); }
    }
  }

  lemma {:induction false} InvHolds(s: Pins, steps: seq<Step>)
    requires Inv(s) && Allowed(s, steps)
    ensures Inv(Run(s, steps))
    decreases |steps|
  {
    if steps != [] {
      StepKeepsInv(s, steps[0]);
      InvHolds(Next(s, steps[0]), steps[1..]);
    }
  }

  /**
    Main theorem: at every moment a pin has at most one live helper, and the
    weak map leads to it, whatever keys close_pin was called with.
    */
  lemma OneLiveHelper(steps: seq<Step>, g: nat, h: nat)
    requires Allowed(NO_PINS, steps)
    requires var s := Run(NO_PINS, steps);
             s.Live(g) && s.Live(h) && g < |s.helpers| && h < |s.helpers| && s.helpers[g] == s.helpers[h]
    ensures var s := Run(NO_PINS, steps);
            g == h && s.Locked(s.helpers[h]) == Some(h)
  {
    InvHolds(NO_PINS, steps);
    var s := Run(NO_PINS, steps);
    var v :| v in s.holders && s.holders[v] == g;
    var w :| w in s.holders && s.holders[w] == h;
  }

  /** Opening a pin that somebody holds shares the helper; the opener always gets a helper of that pin. */
  lemma OpenShares(steps: seq<Step>, pin: Pin, who: Holder, other: Holder)
    requires Allowed(NO_PINS, steps)
    requires var s := Run(NO_PINS, steps);
             who !in s.holders && other in s.holders &&
             (s.holders[other] < |s.helpers| ==> s.helpers[s.holders[other]] == pin)
    ensures var s := Run(NO_PINS, steps);
            Opened(s, pin, who).holders[who] == s.holders[other] && Opened(s, pin, who).helpers == s.helpers
  {
    InvHolds(NO_PINS, steps);
    var s := Run(NO_PINS, steps);
    assert s.Live(s.holders[other]);
  }

  /** open_pin gives a helper of the pin, in every reachable state, and every other holder keeps the one it has. */
  lemma OpenerGetsPin(steps: seq<Step>, pin: Pin, who: Holder, other: Holder)
    requires Allowed(NO_PINS, steps) && who !in Run(NO_PINS, steps).holders
    ensures var s := Run(NO_PINS, steps);
            var s' := Opened(s, pin, who);
            who in s'.holders && s'.holders[who] < |s'.helpers| && s'.helpers[s'.holders[who]] == pin &&
            s.helpers <= s'.helpers &&
            (other in s.holders ==> other in s'.holders && s'.holders[other] == s.holders[other])
  {
    InvHolds(NO_PINS, steps);
  }

  /** close never clears the entry of the pin it closes, whatever key it passes on. */
  lemma EntryOutlivesClose(steps: seq<Step>, hdl: Holder, key: Pin)
    requires Allowed(NO_PINS, steps) && hdl in Run(NO_PINS, steps).holders
    ensures var s := Run(NO_PINS, steps);
            s.holders[hdl] < |s.helpers| && s.helpers[s.holders[hdl]] in Dropped(ClosedPin(s, key), hdl).devices
  {
    InvHolds(NO_PINS, steps);
    var s := Run(NO_PINS, steps);
    assert s.Live(s.holders[hdl]);
  }
}
