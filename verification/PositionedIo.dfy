/**
  What reading and writing through a handle with a cached offset should mean:
  one pread or pwrite on the remote file. The outcome of a call says how far a
  failing one got; over any run of calls, failing or not, the exact place where
  each call lands is determined.
  */
module PositionedIo {
  import opened Common

  type Bytes = seq<byte>

  /** pread: what lies at [off, off + len), cut at the end of the file. */
  function PRead(content: Bytes, off: nat, len: nat): (r: Bytes)
    ensures |r| == if off >= |content| then 0 else Min(len, |content| - off)
  {
    content[Min(off, |content|)..Min(off + len, |content|)]
  }

  /** pwrite: data at off, after zeros when off lies behind the end; writing nothing changes nothing. */
  function PWrite(content: Bytes, off: nat, data: Bytes): (r: Bytes)
    ensures |r| == if data == [] || off + |data| <= |content| then |content| else off + |data|
  {
    if data == [] then content
    else
      var front := if off <= |content| then content[..off] else content + Repeat(0, off - |content|);
      var back := if off + |data| < |content| then content[off + |data|..] else [];
      front + data + back
  }

  /** Every octet of the file after a pwrite. */
  lemma PWriteAt(content: Bytes, off: nat, data: Bytes, i: nat)
    requires i < |PWrite(content, off, data)|
    ensures PWrite(content, off, data)[i] ==
            if off <= i < off + |data| then data[i - off] else if i < |content| then content[i] else 0
  {
  }

  /** Two adjacent writes are one. */
  lemma PWriteSplit(content: Bytes, off: nat, a: Bytes, b: Bytes)
    ensures PWrite(PWrite(content, off, a), off + |a|, b) == PWrite(content, off, a + b)
  {
    if a == [] {
      assert a + b == b;
    } else if b == [] {
      assert a + b == a;
    } else {
      var once, twice := PWrite(content, off, a + b), PWrite(PWrite(content, off, a), off + |a|, b);
      forall i: nat | i < |once| ensures once[i] == twice[i] {
        PWriteAt(content, off, a + b, i);
        PWriteAt(PWrite(content, off, a), off + |a|, b, i);
        if i < |PWrite(content, off, a)| { PWriteAt(content, off, a, i); }
      }
    }
  }

  lemma PReadAt(content: Bytes, off: nat, len: nat, i: nat)
    requires i < |PRead(content, off, len)|
    ensures off + i < |content| && PRead(content, off, len)[i] == content[off + i]
  {
  }

  /** Two adjacent reads are one. */
  lemma PReadSplit(content: Bytes, off: nat, m: nat, n: nat)
    requires m <= |PRead(content, off, m)|
    ensures PRead(content, off, m) + PRead(content, off + m, n) == PRead(content, off, m + n)
  {
  }

  // ---------------------------------------------------------------------
  // One call on a handle
  // ---------------------------------------------------------------------

  /** The remote file and its position, and the offset the handle remembers. */
  datatype Handle = Handle(content: Bytes, pos: nat, offset: nat) {
    predicate InSync() { pos == offset }
  }

  /**
    How a call ends. SeekFailed: the seek was answered with an error; it may
    have arrived all the same. Failed: the caller was told of `done` octets
    before the error, and the remote file has moved by `moved`.
    */
  datatype Outcome = SeekFailed(arrived: bool) | Failed(done: nat, moved: nat) | Done

  predicate Possible(s: Handle, off: nat, len: nat, o: Outcome) {
    match o
    case SeekFailed(_) => s.offset != off
    case Failed(done, moved) => done <= moved <= len && done < len
    case Done => true
  }

  /** Where the call lands: a seek is skipped when the remembered offset is the wanted one. */
  function Landing(s: Handle, off: nat): nat { if s.offset == off then s.pos else off }

  function AfterWrite(s: Handle, off: nat, data: Bytes, o: Outcome): Handle
    requires Possible(s, off, |data|, o)
  {
    var at := Landing(s, off);
    match o
    case SeekFailed(arrived) => if arrived then s.(pos := off) else s
    case Failed(done, moved) => Handle(PWrite(s.content, at, data[..moved]), at + moved, off + done)
    case Done => Handle(PWrite(s.content, at, data), at + |data|, off + |data|)
  }

  function AfterRead(s: Handle, off: nat, len: nat, o: Outcome): Handle
    requires Possible(s, off, len, o)
  {
    var at := Landing(s, off);
    match o
    case SeekFailed(arrived) => if arrived then s.(pos := off) else s
    case Failed(done, moved) => s.(pos := at + moved, offset := off + done)
    case Done => var n := |PRead(s.content, at, len)|; s.(pos := at + n, offset := off + n)
  }

  /** An answered write and an answered read of the same place, wherever the handle stood: what was written is read. */
  lemma ReadAfterWrite(s: Handle, off: nat, data: Bytes)
    requires Landing(s, off) == off
    ensures var t := AfterWrite(s, off, data, Done);
            Landing(t, off) == off && PRead(t.content, Landing(t, off), |data|) == data
  {
    if data != [] {
      var w := PWrite(s.content, off, data);
      assert w[off..off + |data|] == data;
    }
  }

  // ---------------------------------------------------------------------
  // Any run of calls
  // ---------------------------------------------------------------------

  datatype Call = Write(off: nat, data: Bytes) | Read(off: nat, len: nat) {
    function Length(): nat { match this case Write(_, data) => |data| case Read(_, len) => len }
  }

  datatype Event = Event(c: Call, o: Outcome)

  function After(s: Handle, e: Event): Handle
    requires Possible(s, e.c.off, e.c.Length(), e.o)
  {
    match e.c
    case Write(off, data) => AfterWrite(s, off, data, e.o)
    case Read(off, len) => AfterRead(s, off, len, e.o)
  }

  /** The call failed with octets moved that its caller was not told of, or with a seek that arrived. */
  predicate Unnoticed(e: Event) {
    match e.o
    case SeekFailed(arrived) => arrived
    case Failed(done, moved) => done != moved
    case Done => false
  }

  /** A call in sync leaves the handle in sync exactly when nothing happened unnoticed. */
  lemma StaysInSync(s: Handle, e: Event)
    requires s.InSync() && Possible(s, e.c.off, e.c.Length(), e.o)
    ensures After(s, e).InSync() <==> !Unnoticed(e)
  {
  }

  /** What the call does to the file when it acts at the wanted offset. */
  function Wanted(content: Bytes, e: Event): Bytes {
    match e.c
    case Read(_, _) => content
    case Write(off, data) =>
      match e.o
      case SeekFailed(_) => content
      case Failed(_, moved) => PWrite(content, off, data[..Min(moved, |data|)])
      case Done => PWrite(content, off, data)
  }

  predicate PossibleRun(s: Handle, es: seq<Event>)
    decreases |es|
  {
    es == [] || (Possible(s, es[0].c.off, es[0].c.Length(), es[0].o) && PossibleRun(After(s, es[0]), es[1..]))
  }

  function Run(s: Handle, es: seq<Event>): Handle
    requires PossibleRun(s, es)
    decreases |es|
  {
    if es == [] then s else Run(After(s, es[0]), es[1..])
  }

  /** What a successful read at the given place of the file returns. */
  function Returned(content: Bytes, at: nat, e: Event): seq<Bytes> {
    if e.c.Read? && e.o.Done? then [PRead(content, at, e.c.len)] else []
  }

  function Reads(s: Handle, es: seq<Event>): seq<Bytes>
    requires PossibleRun(s, es)
    decreases |es|
  {
    if es == [] then []
    else Returned(s.content, Landing(s, es[0].c.off), es[0]) + Reads(After(s, es[0]), es[1..])
  }

  function WantedRun(content: Bytes, es: seq<Event>): Bytes
    decreases |es|
  {
    if es == [] then content else WantedRun(Wanted(content, es[0]), es[1..])
  }

  function WantedReads(content: Bytes, es: seq<Event>): seq<Bytes>
    decreases |es|
  {
    if es == [] then [] else Returned(content, es[0].c.off, es[0]) + WantedReads(Wanted(content, es[0]), es[1..])
  }

  /**
    Main theorem: as long as no call failed with something unnoticed, the
    remembered offset is the remote position, the file is the result of plain
    positioned writes, and every read returned what a plain one would.
    */
  lemma {:induction false} RunIsPositionedIo(s: Handle, es: seq<Event>)
    requires s.InSync() && PossibleRun(s, es) && forall i :: 0 <= i < |es| ==> !Unnoticed(es[i])
    ensures Run(s, es).InSync() && Run(s, es).content == WantedRun(s.content, es)
    ensures Reads(s, es) == WantedReads(s.content, es)
    decreases |es|
  {
    if es != [] {
      StaysInSync(s, es[0]);
      assert After(s, es[0]).content == Wanted(s.content, es[0]);
      RunIsPositionedIo(After(s, es[0]), es[1..]);
    }
  }

  // ---------------------------------------------------------------------
  // What a caller can know
  // ---------------------------------------------------------------------

  /** Whatever happened unseen, a call that ended so leaves the handle in sync. */
  ghost predicate SureOfSync(s: Handle, c: Call, answered: bool) {
    forall o :: Possible(s, c.off, c.Length(), o) && o.Done? == answered ==> After(s, Event(c, o)).InSync()
  }

  /** After a call in sync, an answer is enough to know that the handle still is; an error, if one can occur, is not. */
  lemma AnswerDecides(s: Handle, c: Call)
    requires s.InSync()
    ensures SureOfSync(s, c, true)
    ensures SureOfSync(s, c, false) <==> c.Length() == 0 && c.off == s.offset
  {
    if c.off != s.offset {
      assert !After(s, Event(c, SeekFailed(true))).InSync();
    } else if c.Length() > 0 {
      assert Possible(s, c.off, c.Length(), Failed(0, 1));
      assert !After(s, Event(c, Failed(0, 1))).InSync();
    }
  }

  /** Which calls act at their own offset. */
  lemma LandsExactly(s: Handle, off: nat)
    ensures Landing(s, off) == off <==> s.InSync() || off != s.offset
  {
  }

  /**
    Every call is made when the handle is known to be in sync, or at an offset
    other than the remembered one; it is known to be after an answered call.
    */
  predicate Careful(s: Handle, es: seq<Event>, known: bool)
    requires PossibleRun(s, es)
    decreases |es|
  {
    es == [] || ((known || es[0].c.off != s.offset) && Careful(After(s, es[0]), es[1..], es[0].o.Done?))
  }

  /**
    A caller that never calls at the remembered offset right after an error
    gets plain positioned reads and writes throughout, whatever fails.
    */
  lemma {:induction false} CarefulRunIsPositionedIo(s: Handle, es: seq<Event>, known: bool)
    requires PossibleRun(s, es) && Careful(s, es, known) && (known ==> s.InSync())
    ensures Run(s, es).content == WantedRun(s.content, es) && Reads(s, es) == WantedReads(s.content, es)
    ensures es != [] && es[|es| - 1].o.Done? ==> Run(s, es).InSync()
    decreases |es|
  {
    if es != [] {
      var e, next := es[0], After(s, es[0]);
      LandsExactly(s, e.c.off);
      if e.o.Done? {
        if s.InSync() { StaysInSync(s, e); } else { OtherOffsetResyncs(s, e); }
      }
      assert next.content == Wanted(s.content, e);
      CarefulRunIsPositionedIo(next, es[1..], e.o.Done?);
      assert |es| > 1 ==> es[1..][|es| - 2] == es[|es| - 1];
    }
  }

  /**
    The care is needed: any call that can fail, on any handle in sync, can fail
    so that a write at the remembered offset right after it is misplaced.
    */
  lemma CarelessWriteMisplaces(s: Handle, c: Call) returns (o: Outcome, b: byte)
    requires s.InSync() && (c.Length() > 0 || c.off != s.offset)
    ensures Possible(s, c.off, c.Length(), o) && !o.Done?
    ensures var next := After(s, Event(c, o));
            AfterWrite(next, next.offset, [b], Done).content != PWrite(next.content, next.offset, [b])
  {
    o := if c.off != s.offset then SeekFailed(true) else Failed(0, 1);
    var next := After(s, Event(c, o));
    b := if PRead(next.content, next.offset, 1) == [1] then 2 else 1;
    UnnoticedMisplaces(s, Event(c, o), b);
  }

  /** In terms of what happened: after an unnoticed failure a write at the remembered offset is misplaced. */
  lemma UnnoticedMisplaces(s: Handle, e: Event, b: byte)
    requires s.InSync() && Possible(s, e.c.off, e.c.Length(), e.o) && Unnoticed(e)
    requires var next := After(s, e); b != 0 && PRead(next.content, next.offset, 1) != [b]
    ensures var next := After(s, e);
            Landing(next, next.offset) != next.offset &&
            AfterWrite(next, next.offset, [b], Done).content != PWrite(next.content, next.offset, [b])
  {
    var next := After(s, e);
    var wrong, right := PWrite(next.content, next.pos, [b]), PWrite(next.content, next.offset, [b]);
    if wrong == right {
      PWriteAt(next.content, next.offset, [b], next.offset);
      PWriteAt(next.content, next.pos, [b], next.offset);
    }
  }

  /** A call at any other offset seeks, and so puts the handle back in sync. */
  lemma OtherOffsetResyncs(s: Handle, e: Event)
    requires Possible(s, e.c.off, e.c.Length(), e.o) && e.c.off != s.offset && !e.o.SeekFailed? && !Unnoticed(e)
    ensures After(s, e).InSync() && After(s, e).content == Wanted(s.content, e)
  {
  }
}
