/**
  The queue of agent/logger.cpp: any thread may put a record in it and post one
  do_write to a strand, and the strand runs the do_writes one at a time.
  drop_all empties the queue without the strand.
  */
module LoggerQueue {
  import opened Common

  /** What fill_record_info collects. */
  type Info = nat

  datatype Record = Record(info: Info, data: string, split: bool)

  /** What subscribers of on_write are given. */
  datatype Entry = Entry(info: Info, lines: seq<string>)

  // ---------------------------------------------------------------------
  // Lines
  // ---------------------------------------------------------------------

  /** data cut at every separator: one more piece than there are separators. */
  function Lines(data: string, separators: string): (r: seq<string>)
    ensures r != []
  {
    if data == "" then [""]
    else
      var rest := Lines(data[1..], separators);
      if data[0] in separators then [""] + rest else [[data[0]] + rest[0]] + rest[1..]
  }

  /** The separators of data, in order. */
  function Cuts(data: string, separators: string): string {
    if data == "" then ""
    else (if data[0] in separators then [data[0]] else "") + Cuts(data[1..], separators)
  }

  function Woven(lines: seq<string>, cuts: string): string
    requires |lines| == |cuts| + 1
  {
    if cuts == "" then lines[0] else lines[0] + [cuts[0]] + Woven(lines[1..], cuts[1..])
  }

  predicate Clean(line: string, separators: string) { forall i :: 0 <= i < |line| ==> line[i] !in separators }

  /** No line has a separator in it. */
  lemma {:induction false} LinesAreClean(data: string, separators: string)
    ensures forall i :: 0 <= i < |Lines(data, separators)| ==> Clean(Lines(data, separators)[i], separators)
  {
    if data != "" { LinesAreClean(data[1..], separators); }
  }

  /** Nothing is lost: lines and separators together are the data. */
  lemma {:induction false} LinesWeave(data: string, separators: string)
    ensures |Lines(data, separators)| == |Cuts(data, separators)| + 1
    ensures Woven(Lines(data, separators), Cuts(data, separators)) == data
  {
    if data != "" {
      var rest, cuts := Lines(data[1..], separators), Cuts(data[1..], separators);
      LinesWeave(data[1..], separators);
      if data[0] in separators {
        WovenCut(data[0], rest, cuts);
      } else {
        assert "" + cuts == cuts;
        WovenFirst(data[0], rest, cuts);
      }
      assert [data[0]] + data[1..] == data;
    }
  }

  lemma WovenCut(c: char, lines: seq<string>, cuts: string)
    requires |lines| == |cuts| + 1
    ensures Woven([""] + lines, [c] + cuts) == [c] + Woven(lines, cuts)
  {
    assert ([""] + lines)[1..] == lines && ([c] + cuts)[1..] == cuts;
    assert "" + [c] + Woven(lines, cuts) == [c] + Woven(lines, cuts);
  }

  lemma WovenFirst(c: char, lines: seq<string>, cuts: string)
    requires |lines| == |cuts| + 1
    ensures Woven([[c] + lines[0]] + lines[1..], cuts) == [c] + Woven(lines, cuts)
  {
    var longer := [[c] + lines[0]] + lines[1..];
    assert longer[1..] == lines[1..];
    if cuts != "" {
      var rest := Woven(lines[1..], cuts[1..]);
      assert [c] + lines[0] + [cuts[0]] + rest == [c] + (lines[0] + [cuts[0]] + rest);
    }
  }

  /** data is the lines with one separator between each two of them, and no line has another. */
  predicate IsCutAt(data: string, separators: string, lines: seq<string>, cuts: string) {
    (forall i :: 0 <= i < |lines| ==> Clean(lines[i], separators)) &&
    (forall c :: c in cuts ==> c in separators) &&
    |lines| == |cuts| + 1 && Woven(lines, cuts) == data
  }

  ghost predicate IsCutting(data: string, separators: string, lines: seq<string>) {
    exists cuts :: IsCutAt(data, separators, lines, cuts)
  }

  lemma LinesAreCutting(data: string, separators: string)
    ensures IsCutting(data, separators, Lines(data, separators))
  {
    LinesAreClean(data, separators);
    LinesWeave(data, separators);
    CutsSeparate(data, separators);
    assert IsCutAt(data, separators, Lines(data, separators), Cuts(data, separators));
  }

  lemma {:induction false} CutsSeparate(data: string, separators: string)
    ensures forall c :: c in Cuts(data, separators) ==> c in separators
  {
    if data != "" { CutsSeparate(data[1..], separators); }
  }

  /** There is no other way to cut the data into such lines. */
  lemma CuttingIsUnique(data: string, separators: string, lines: seq<string>)
    ensures IsCutting(data, separators, lines) <==> lines == Lines(data, separators)
  {
    LinesAreCutting(data, separators);
    if IsCutting(data, separators, lines) {
      var cuts :| IsCutAt(data, separators, lines, cuts);
      OnlyCutting(data, separators, lines, cuts);
    }
  }

  lemma {:induction false} OnlyCutting(data: string, separators: string, lines: seq<string>, cuts: string)
    requires IsCutAt(data, separators, lines, cuts)
    ensures lines == Lines(data, separators)
    decreases |data|
  {
    if data == "" {
      assert lines == [lines[0]];
    } else if data[0] in separators {
      assert lines[0] == "";
      assert data == [cuts[0]] + Woven(lines[1..], cuts[1..]);
      assert lines == [""] + lines[1..];
      OnlyCutting(data[1..], separators, lines[1..], cuts[1..]);
    } else {
      assert lines[0] != "";
      var shorter := [lines[0][1..]] + lines[1..];
      assert lines[0] == [data[0]] + shorter[0] by { assert lines[0][0] == data[0]; }
      assert lines == [[data[0]] + shorter[0]] + shorter[1..];
      WovenFirst(data[0], shorter, cuts);
      OnlyCutting(data[1..], separators, shorter, cuts);
    }
  }

  /** What becomes of a record: its info, with its data as it is, or cut. */
  ghost predicate WrittenAs(r: Record, separators: string, e: Entry) {
    e.info == r.info && if r.split then IsCutting(r.data, separators, e.lines) else e.lines == [r.data]
  }

  lemma EntryIsWritten(r: Record, separators: string)
    ensures WrittenAs(r, separators, EntryOf(r, separators))
  {
    LinesAreCutting(r.data, separators);
  }

  function EntryOf(r: Record, separators: string): Entry {
    Entry(r.info, if r.split then Lines(r.data, separators) else [r.data])
  }

  function EntriesOf(rs: seq<Record>, separators: string): (es: seq<Entry>)
    ensures |es| == |rs| && forall i :: 0 <= i < |rs| ==> es[i] == EntryOf(rs[i], separators)
  {
    seq(|rs|, i requires 0 <= i < |rs| => EntryOf(rs[i], separators))
  }

  // ---------------------------------------------------------------------
  // The methods
  // ---------------------------------------------------------------------

  class Logger {
    const separators: string
    var queue: seq<Record>
    var posted: nat
    var output: seq<Entry>

    constructor (separators: string)
      ensures this.separators == separators && queue == [] && posted == 0 && output == []
    {
      this.separators := separators;
      queue, posted, output := [], 0, [];
    }

    method EmplaceElement(info: Info, data: string, split: bool)
      modifies `queue
      ensures queue == old(queue) + [Record(info, data, split)]
    {
      queue := queue + [Record(info, data, split)];
    }

    method SendData(info: Info, data: string)
      modifies `queue, `posted
      ensures queue == old(queue) + [Record(info, data, true)] && posted == old(posted) + 1
    {
      EmplaceElement(info, data, true);
      posted := posted + 1;
    }

    method SendDataNosplit(info: Info, data: string)
      modifies `queue, `posted
      ensures queue == old(queue) + [Record(info, data, false)] && posted == old(posted) + 1
    {
      EmplaceElement(info, data, false);
      posted := posted + 1;
    }

    /** boost::split with is_any_of. */
    method SplitLines(data: string) returns (all: seq<string>)
      ensures all == Lines(data, separators)
    {
      var i := |data|;
      all := [""];
      while i > 0
        invariant 0 <= i <= |data| && all == Lines(data[i..], separators)
      {
        i := i - 1;
        assert data[i..][1..] == data[i + 1..];
        all := if data[i] in separators then [""] + all else [[data[i]] + all[0]] + all[1..];
      }
    }

    /** do_write. Taking the front of an empty queue has no meaning. */
    method DoWrite()
      requires queue != []
      modifies `queue, `output
      ensures queue == old(queue)[1..] && output == old(output) + [EntryOf(old(queue)[0], separators)]
      ensures WrittenAs(old(queue)[0], separators, output[|old(output)|])
    {
      EntryIsWritten(queue[0], separators);
      var ptr := queue[0];
      queue := queue[1..];
      var all;
      if ptr.split {
        all := SplitLines(ptr.data);
      } else {
        all := [ptr.data];
      }
      output := output + [Entry(ptr.info, all)];
    }

    /** drop_all: writes everything that is left, in order, and returns how much that was. */
    method DropAll() returns (res: nat)
      modifies `queue, `output
      ensures queue == [] && res == |old(queue)|
      ensures output == old(output) + EntriesOf(old(queue), separators)
      ensures forall i :: 0 <= i < res ==> WrittenAs(old(queue)[i], separators, output[|old(output)| + i])
    {
      res := 0;
      while queue != []
        invariant res <= |old(queue)| && queue == old(queue)[res..]
        invariant output == old(output) + EntriesOf(old(queue)[..res], separators)
        decreases |queue|
      {
        ghost var was := old(queue);
        assert EntriesOf(was[..res + 1], separators) ==
               EntriesOf(was[..res], separators) + [EntryOf(was[res], separators)];
        DoWrite();
        res := res + 1;
      }
      assert old(queue)[..res] == old(queue);
      forall i | 0 <= i < res ensures WrittenAs(old(queue)[i], separators, output[|old(output)| + i]) {
        EntryIsWritten(old(queue)[i], separators);
      }
    }
  }

  /** send_data and its do_write: one more entry, the data cut at every separator. */
  method SendDataThenWrite(logger: Logger, info: Info, data: string)
    requires logger.queue == []
    modifies logger
    ensures logger.queue == [] && |logger.output| == |old(logger.output)| + 1 && old(logger.output) <= logger.output
    ensures var e := logger.output[|old(logger.output)|];
            e.info == info && IsCutting(data, logger.separators, e.lines)
  {
    logger.SendData(info, data);
    logger.DoWrite();
  }

  /** send_data_nosplit and its do_write: one more entry, the data in one line with its separators. */
  method SendDataNosplitThenWrite(logger: Logger, info: Info, data: string)
    requires logger.queue == []
    modifies logger
    ensures logger.queue == [] && logger.output == old(logger.output) + [Entry(info, [data])]
  {
    logger.SendDataNosplit(info, data);
    logger.DoWrite();
  }

  // ---------------------------------------------------------------------
  // All interleavings
  // ---------------------------------------------------------------------

  type Thread = nat

  /** Where drop_all stands. */
  datatype Dropper = Out | SawRecords | Holds(r: Record)

  /**
    `emplaced` and `output` are all records ever put in and written; `producers`
    stand between their emplace and their post; `posted` do_writes have not
    begun; `strand` is the record the running do_write has taken. `broken`:
    somebody took the front of an empty queue.
    */
  datatype Log = Log(queue: seq<Record>, emplaced: seq<Record>, output: seq<Record>,
                     producers: set<Thread>, posted: nat, strand: Option<Record>, dropper: Dropper, broken: bool)

  const NO_LOG := Log([], [], [], {}, 0, None, Out, false)

  datatype Step =
    | Emplace(t: Thread, r: Record)
    | Post(t: Thread)
    | Take                    // do_write on the strand, up to the pop
    | Write                   // the rest of it
    | DropLook                // drop_all finds the queue not empty
    | DropTake
    | DropWrite

  predicate Enabled(s: Log, step: Step) {
    match step
    case Emplace(t, _) => t !in s.producers
    case Post(t) => t in s.producers
    case Take => s.strand.None? && s.posted > 0
    case Write => s.strand.Some?
    case DropLook => s.dropper.Out? && s.queue != []
    case DropTake => s.dropper.SawRecords?
    case DropWrite => s.dropper.Holds?
  }

  function Next(s: Log, step: Step): Log
    requires Enabled(s, step)
  {
    match step
    case Emplace(t, r) => s.(queue := s.queue + [r], emplaced := s.emplaced + [r], producers := s.producers + {t})
    case Post(t) => s.(producers := s.producers - {t}, posted := s.posted + 1)
    case Take =>
      if s.queue == [] then s.(posted := s.posted - 1, broken := true)
      else s.(posted := s.posted - 1, queue := s.queue[1..], strand := Some(s.queue[0]))
    case Write => s.(output := s.output + [s.strand.value], strand := None)
    case DropLook => s.(dropper := SawRecords)
    case DropTake =>
      if s.queue == [] then s.(dropper := Out, broken := true)
      else s.(queue := s.queue[1..], dropper := Holds(s.queue[0]))
    case DropWrite => s.(output := s.output + [s.dropper.r], dropper := Out)
  }

  predicate IsDrop(step: Step) { step.DropLook? || step.DropTake? || step.DropWrite? }

  predicate Allowed(s: Log, steps: seq<Step>)
    decreases |steps|
  {
    steps == [] || (Enabled(s, steps[0]) && Allowed(Next(s, steps[0]), steps[1..]))
  }

  function Run(s: Log, steps: seq<Step>): Log
    requires Allowed(s, steps)
    decreases |steps|
  {
    if steps == [] then s else Run(Next(s, steps[0]), steps[1..])
  }

  function InHand(s: Log): seq<Record> {
    match s.strand case Some(r) => [r] case None => []
  }

  predicate Inv(s: Log) {
    !s.broken && s.dropper.Out? &&
    |s.queue| == s.posted + |s.producers| &&
    s.output + InHand(s) + s.queue == s.emplaced
  }

  lemma StepKeepsInv(s: Log, step: Step)
    requires Inv(s) && Enabled(s, step) && !IsDrop(step)
    ensures Inv(Next(s, step))
  {
    match step
    case Emplace(t, r) => assert s.output + InHand(s) + (s.queue + [r]) == s.emplaced + [r];
    case Post(t) =>
    case Take => assert s.output + [] + s.queue == s.output + [s.queue[0]] + s.queue[1..];
    case Write => assert s.output + [s.strand.value] + s.queue == s.output + [s.strand.value] + [] + s.queue;
  }

  /**
    Main theorem, with any number of producers: the queue holds one record for
    every do_write posted and not begun and for every producer about to post,
    so do_write never takes from an empty queue; and what was written, what is
    being written and what is queued are the records in the order they came.
    */
  lemma {:induction false} QueueIsInOrder(s: Log, steps: seq<Step>)
    requires Inv(s) && Allowed(s, steps) && forall i :: 0 <= i < |steps| ==> !IsDrop(steps[i])
    ensures var e := Run(s, steps);
            !e.broken && e.dropper.Out? && |e.queue| == e.posted + |e.producers| &&
            e.output + InHand(e) + e.queue == e.emplaced
    decreases |steps|
  {
    if steps != [] {
      StepKeepsInv(s, steps[0]);
      QueueIsInOrder(Next(s, steps[0]), steps[1..]);
    }
  }

  /** The steps of a drop_all that nobody disturbs. */
  function DropSteps(n: nat): seq<Step> {
    if n == 0 then [] else [DropLook, DropTake, DropWrite] + DropSteps(n - 1)
  }

  lemma {:induction false} Drained(s: Log)
    requires s.dropper.Out?
    ensures Allowed(s, DropSteps(|s.queue|))
    ensures Run(s, DropSteps(|s.queue|)) == s.(queue := [], output := s.output + s.queue)
    decreases |s.queue|
  {
    var n := |s.queue|;
    if n > 0 {
      var s1 := Next(Next(Next(s, DropLook), DropTake), DropWrite);
      Drained(s1);
      assert s1.output + s1.queue == s.output + s.queue;
      FirstThree(s, DropLook, DropTake, DropWrite, DropSteps(n - 1));
    } else {
      assert s.output + s.queue == s.output;
    }
  }

  lemma FirstThree(s: Log, a: Step, b: Step, c: Step, rest: seq<Step>)
    requires Enabled(s, a) && Enabled(Next(s, a), b) && Enabled(Next(Next(s, a), b), c)
    requires Allowed(Next(Next(Next(s, a), b), c), rest)
    ensures Allowed(s, [a, b, c] + rest) && Run(s, [a, b, c] + rest) == Run(Next(Next(Next(s, a), b), c), rest)
  {
    var steps := [a, b, c] + rest;
    assert steps[1..] == [b, c] + rest;
    assert ([b, c] + rest)[1..] == [c] + rest;
    assert ([c] + rest)[1..] == rest;
    var s1, s2 := Next(s, a), Next(Next(s, a), b);
    assert Allowed(s2, [c] + rest) && Run(s2, [c] + rest) == Run(Next(s2, c), rest);
    assert Allowed(s1, [b, c] + rest) && Run(s1, [b, c] + rest) == Run(Next(s2, c), rest);
  }

  /**
    drop_all once producers and strand have stopped: everything ever logged has
    been written, in order, and nothing is left. It must be the end: a do_write
    that runs afterwards takes from an empty queue.
    */
  lemma DropAllAfterStop(steps: seq<Step>)
    requires Allowed(NO_LOG, steps) && forall i :: 0 <= i < |steps| ==> !IsDrop(steps[i])
    requires var s := Run(NO_LOG, steps); s.producers == {} && s.strand.None?
    ensures var s := Run(NO_LOG, steps);
            Allowed(s, DropSteps(|s.queue|)) &&
            var e := Run(s, DropSteps(|s.queue|));
            e.output == e.emplaced && e.queue == [] && !e.broken && |s.queue| == s.posted &&
            (Enabled(e, Take) <==> s.posted > 0) && (Enabled(e, Take) ==> Next(e, Take).broken)
  {
    QueueIsInOrder(NO_LOG, steps);
    var s := Run(NO_LOG, steps);
    Drained(s);
    assert s.output + [] + s.queue == s.output + s.queue;
  }

  function Held(s: Log): seq<Record> {
    match s.dropper case Holds(r) => [r] case _ => []
  }

  /** What holds while drop_all runs and no do_write does. */
  predicate DropInv(s: Log) {
    !s.broken && s.strand.None? && (s.dropper.SawRecords? ==> s.queue != []) &&
    s.output + Held(s) + s.queue == s.emplaced
  }

  lemma DropStep(s: Log, step: Step)
    requires DropInv(s) && Enabled(s, step) && !step.Take?
    ensures DropInv(Next(s, step))
  {
    match step
    case Emplace(t, r) => assert s.output + Held(s) + (s.queue + [r]) == s.emplaced + [r];
    case DropTake => assert s.output + [] + s.queue == s.output + [s.queue[0]] + s.queue[1..];
    case DropWrite => assert s.output + [s.dropper.r] + s.queue == s.output + [s.dropper.r] + [] + s.queue;
    case _ =>
  }

  /**
    drop_all in any interleaving with producers, as long as no do_write is
    running and none begins: it never finds the queue empty after it has looked,
    and output, record in hand and queue stay the records in the order they came.
    */
  lemma {:induction false} DropIsSafe(s: Log, steps: seq<Step>)
    requires DropInv(s) && Allowed(s, steps) && forall i :: 0 <= i < |steps| ==> !steps[i].Take?
    ensures DropInv(Run(s, steps))
    decreases |steps|
  {
    if steps != [] {
      DropStep(s, steps[0]);
      DropIsSafe(Next(s, steps[0]), steps[1..]);
    }
  }

  /**
    And from every state in which drop_all has looked, the do_writes that are
    posted or about to be can take the records away under it.
    */
  lemma {:induction false} LookedBreaks(s: Log) returns (steps: seq<Step>)
    requires s.dropper.SawRecords? && s.strand.None? && |s.queue| <= s.posted + |s.producers|
    ensures Allowed(s, steps) && Run(s, steps).broken
    ensures forall i :: 0 <= i < |steps| ==> !steps[i].Emplace? && !steps[i].DropLook?
    decreases |s.queue|, |s.producers|
  {
    if s.queue == [] {
      steps := [DropTake];
      RunCons(s, DropTake, []);
    } else if s.posted > 0 {
      var t := Next(s, Take);
      var rest := LookedBreaks(Next(t, Write));
      RunCons(t, Write, rest);
      RunCons(s, Take, [Write] + rest);
      steps := [Take] + ([Write] + rest);
    } else {
      assert s.producers != {};
      var t :| t in s.producers;
      var rest := LookedBreaks(Next(s, Post(t)));
      RunCons(s, Post(t), rest);
      steps := [Post(t)] + rest;
    }
  }

  lemma RunCons(s: Log, step: Step, rest: seq<Step>)
    requires Enabled(s, step) && Allowed(Next(s, step), rest)
    ensures Allowed(s, [step] + rest) && Run(s, [step] + rest) == Run(Next(s, step), rest)
  {
    assert ([step] + rest)[1..] == rest;
  }

  predicate WithoutTake(steps: seq<Step>) { forall i :: 0 <= i < |steps| ==> !steps[i].Take? }

  predicate WithoutEmplace(steps: seq<Step>) { forall i :: 0 <= i < |steps| ==> !steps[i].Emplace? }

  /** Nobody took from an empty queue, and once nobody has anything in hand and the queue is empty, all is in order. */
  predicate Orderly(s: Log) {
    !s.broken && (s.dropper.Out? && s.strand.None? && s.queue == [] ==> s.output == s.emplaced)
  }

  ghost predicate SafeWithoutTake(s: Log) {
    forall steps :: Allowed(s, steps) && WithoutTake(steps) ==> Orderly(Run(s, steps))
  }

  lemma {:induction false} FreshThread(ts: set<Thread>) returns (t: Thread)
    ensures forall u :: u in ts ==> u < t
    decreases ts
  {
    if ts == {} {
      t := 0;
    } else {
      var u :| u in ts;
      t := FreshThread(ts - {u});
      forall w | w in ts ensures w < t || w == u {
        assert w != u ==> w in ts - {u};
      }
      if t <= u { t := u + 1; }
    }
  }

  /** A record in the strand's hand is overtaken: drop_all writes a later one before it. */
  lemma HeldIsOvertaken(s: Log) returns (steps: seq<Step>)
    requires Inv(s) && s.strand.Some?
    ensures Allowed(s, steps) && WithoutTake(steps) && !Orderly(Run(s, steps))
  {
    var a := s.strand.value;
    var b := a.(info := a.info + 1);
    var t := FreshThread(s.producers);
    var s1 := Next(s, Emplace(t, b));
    Drained(s1);
    var s2 := Run(s1, DropSteps(|s1.queue|));
    RunSnoc(s1, DropSteps(|s1.queue|), Write);
    steps := [Emplace(t, b)] + (DropSteps(|s1.queue|) + [Write]);
    RunCons(s, Emplace(t, b), DropSteps(|s1.queue|) + [Write]);
    DropStepsTakeNothing(|s1.queue|);
    var e := Next(s2, Write);
    assert e.output[|e.output| - 1] == a && e.emplaced[|e.emplaced| - 1] == b;
  }

  lemma {:induction false} RunSnoc(s: Log, steps: seq<Step>, step: Step)
    requires Allowed(s, steps) && Enabled(Run(s, steps), step)
    ensures Allowed(s, steps + [step]) && Run(s, steps + [step]) == Next(Run(s, steps), step)
    decreases |steps|
  {
    if steps == [] {
      assert [] + [step] == [step] + [];
      RunCons(s, step, []);
    } else {
      RunSnoc(Next(s, steps[0]), steps[1..], step);
      assert (steps + [step])[1..] == steps[1..] + [step];
    }
  }

  lemma {:induction false} DropStepsTakeNothing(n: nat)
    ensures WithoutTake(DropSteps(n))
  {
    if n > 0 { DropStepsTakeNothing(n - 1); }
  }

  /**
    The exact condition, from every state in which drop_all has not begun. No
    do_write beginning, every interleaving with producers is orderly if and only
    if none is running either. And if drop_all can begin, some run in which
    do_writes begin breaks, even without new records.
    */
  lemma DropNeedsIdleStrand(s: Log)
    requires Inv(s)
    ensures SafeWithoutTake(s) <==> s.strand.None?
    ensures s.queue != [] ==> exists steps :: Allowed(s, steps) && WithoutEmplace(steps) && Run(s, steps).broken
  {
    if s.strand.Some? {
      var steps := HeldIsOvertaken(s);
    } else {
      forall steps | Allowed(s, steps) && WithoutTake(steps) ensures Orderly(Run(s, steps)) {
        DropIsSafe(s, steps);
        var e := Run(s, steps);
        if e.dropper.Out? && e.queue == [] { assert e.output + [] + [] == e.output; }
      }
    }
    if s.queue != [] { var steps := SomeRunBreaks(s); }
  }

  lemma SomeRunBreaks(s: Log) returns (steps: seq<Step>)
    requires Inv(s) && s.queue != []
    ensures Allowed(s, steps) && WithoutEmplace(steps) && Run(s, steps).broken
  {
    var idle := if s.strand.Some? then Next(s, Write) else s;
    var rest := LookedBreaks(Next(idle, DropLook));
    RunCons(idle, DropLook, rest);
    steps := [DropLook] + rest;
    if s.strand.Some? {
      RunCons(s, Write, steps);
      steps := [Write] + steps;
    }
  }

  /** drop_all and the strand at once: both see one record, and the second to take it finds nothing. */
  lemma DropWhileRunningBreaks(r: Record)
    ensures var steps := [Emplace(0, r), Post(0), DropLook] + [Take, DropTake];
            Allowed(NO_LOG, steps) && Run(NO_LOG, steps).broken
  {
    var s := Next(Next(Next(NO_LOG, Emplace(0, r)), Post(0)), DropLook);
    var t := Next(s, Take);
    assert s.queue == [r] && s.queue[1..] == [];
    assert [Take, DropTake][1..] == [DropTake] && [DropTake][1..] == [];
    assert Allowed(t, [DropTake]) && Run(t, [DropTake]) == Next(t, DropTake);
    assert Allowed(s, [Take, DropTake]);
    FirstThree(NO_LOG, Emplace(0, r), Post(0), DropLook, [Take, DropTake]);
  }
}
