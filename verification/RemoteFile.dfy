/**
  Positioned file access through three layers: the agent's file service
  (agent/subsys-fs.cpp over agent/files.cpp), the client's file object
  (client-core/impl/impl-file.cpp) and the file system's read and write
  (fuse-client/application.cpp). The operating system may transfer less than
  it is asked for, and any call may fail on the way there or back.
  */
module RemoteFile {
  import opened Common
  import opened PositionedIo

  type Errno = e: int | e > 0 witness 5

  /** How an error number is returned. */
  function Negative(e: Errno): (r: int)
    ensures r < 0
  {
    var code: int := e;
    -code
  }

  const BLOCK: nat := 44000

  // A 64-bit off_t.
  const OFFSET_LIMIT: int := 0x8000_0000_0000_0000

  /** The cust_pos part of a request: a position to seek to first, and whether to come back. */
  datatype CustomPosition = CustomPosition(position: nat, setBack: bool)

  // ---------------------------------------------------------------------
  // The agent
  // ---------------------------------------------------------------------

  class AgentFile {
    var content: Bytes
    var pos: nat

    constructor (content: Bytes)
      ensures this.content == content && pos == 0
    {
      this.content, pos := content, 0;
    }

    /** lseek to an absolute position. */
    method Seek(to: int) returns (r: Result<nat, Errno>)
      modifies this`pos
      ensures r.Ok? ==> 0 <= to < OFFSET_LIMIT && pos == to == r.value
      ensures r.Err? ==> pos == old(pos)
    {
      if * { return Err(5); }
      if to < 0 || to >= OFFSET_LIMIT { return Err(22); }
      pos := to;
      r := Ok(to);
    }

    method Tell() returns (r: Result<nat, Errno>)
      ensures r.Ok? ==> r.value == pos
    {
      if * { return Err(29); }
      r := Ok(pos);
    }

    /** read(2): anything up to the length, but nothing only at the end of the file. */
    method OsRead(length: nat) returns (r: Result<Bytes, Errno>)
      requires length > 0
      modifies this`pos
      ensures r.Err? ==> pos == old(pos)
      ensures r.Ok? ==> |r.value| <= length && r.value == PRead(content, old(pos), |r.value|)
      ensures r.Ok? ==> pos == old(pos) + |r.value|
      ensures r.Ok? && r.value == [] ==> pos >= |content|
    {
      if * { return Err(5); }
      var available := |PRead(content, pos, length)|;
      var n: nat :| n <= available && (n == 0 ==> available == 0);
      r := Ok(PRead(content, pos, n));
      pos := pos + n;
    }

    /** write(2): at least one octet, up to all of them. */
    method OsWrite(data: Bytes) returns (r: Result<nat, Errno>)
      requires data != []
      modifies this
      ensures r.Err? ==> pos == old(pos) && content == old(content)
      ensures r.Ok? ==> 0 < r.value <= |data| && pos == old(pos) + r.value
      ensures r.Ok? ==> content == PWrite(old(content), old(pos), data[..r.value])
    {
      if * { return Err(28); }
      var n: nat :| 0 < n <= |data|;
      content := PWrite(content, pos, data[..n]);
      pos := pos + n;
      r := Ok(n);
    }

    /** The file service's read; `moved` is how far the read itself got. */
    method Read(at: Option<CustomPosition>, length: nat) returns (r: Result<Bytes, Errno>, ghost moved: nat)
      modifies this`pos
      ensures moved <= Min(length, BLOCK)
      ensures r.Err? ==> pos == old(pos) || (at.Some? && pos == at.value.position + moved)
      ensures r.Ok? ==>
                var start := if at.Some? then at.value.position else old(pos);
                moved == |r.value| && r.value == PRead(content, start, |r.value|) &&
                (r.value == [] && length > 0 ==> start >= |content|) &&
                pos == if length > 0 && at.Some? && at.value.setBack then old(pos) else start + |r.value|
    {
      var maxBlock := length;
      var back := 0;
      moved := 0;
      if at.Some? {
        var told := Tell();
        if told.Err? { return Err(told.error), 0; }
        back := told.value;
        var sought := Seek(at.value.position);
        if sought.Err? { return Err(sought.error), 0; }
      }
      if maxBlock > BLOCK { maxBlock := BLOCK; }
      if maxBlock == 0 { return Ok([]), 0; }
      r := OsRead(maxBlock);
      if r.Ok? {
        moved := |r.value|;
        if at.Some? && at.value.setBack {
          var sought := Seek(back);
          if sought.Err? { return Err(sought.error), moved; }
        }
      }
    }

    /** The loop over short writes; `moved` is how far it got. */
    method WriteAll(data: Bytes) returns (failure: Option<Errno>, ghost moved: nat)
      modifies this
      ensures moved <= |data| && (failure.None? ==> moved == |data|)
      ensures content == PWrite(old(content), old(pos), data[..moved]) && pos == old(pos) + moved
    {
      var p := 0;
      while p != |data|
        invariant 0 <= p <= |data|
        invariant content == PWrite(old(content), old(pos), data[..p]) && pos == old(pos) + p
      {
        var r := OsWrite(data[p..]);
        if r.Err? { return Some(r.error), p; }
        PWriteSplit(old(content), old(pos), data[..p], data[p..][..r.value]);
        assert data[..p] + data[p..][..r.value] == data[..p + r.value];
        p := p + r.value;
      }
      failure, moved := None, p;
    }

    /** The file service's write. */
    method Write(at: Option<CustomPosition>, data: Bytes) returns (r: Result<nat, Errno>, ghost moved: nat)
      modifies this
      ensures r.Ok? ==> r.value == moved == |data|
      ensures moved <= |data|
      ensures content == PWrite(old(content), if at.Some? then at.value.position else old(pos), data[..moved])
      ensures at.None? ==> pos == old(pos) + moved
      ensures at.Some? ==> pos == old(pos) || pos == at.value.position + moved
      ensures r.Ok? && data != [] && at.Some? ==>
                pos == if at.value.setBack then old(pos) else at.value.position + |data|
    {
      moved := 0;
      if data == [] { return Ok(0), 0; }
      var back := 0;
      if at.Some? {
        var told := Tell();
        if told.Err? { return Err(told.error), 0; }
        back := told.value;
        var sought := Seek(at.value.position);
        if sought.Err? { return Err(sought.error), 0; }
      }
      var failure: Option<Errno>;
      failure, moved := WriteAll(data);
      assert data[..|data|] == data;
      if failure.Some? { return Err(failure.value), moved; }
      if at.Some? && at.value.setBack {
        var sought := Seek(back);
        if sought.Err? { return Err(sought.error), moved; }
      }
      r := Ok(|data|);
    }
  }

  // ---------------------------------------------------------------------
  // The client
  // ---------------------------------------------------------------------

  class ClientFile {
    const remote: AgentFile

    constructor (remote: AgentFile)
      ensures this.remote == remote
    {
      this.remote := remote;
    }

    /** seek; `arrived` says whether a failing one moved the file all the same. */
    method Seek(to: int) returns (failure: Option<Errno>, ghost arrived: bool)
      modifies remote`pos
      ensures failure.None? ==> 0 <= to && remote.pos == to
      ensures failure.Some? ==> if arrived then 0 <= to && remote.pos == to else remote.pos == old(remote.pos)
    {
      arrived := false;
      if * { return Some(5), false; }
      var r := remote.Seek(to);
      if r.Err? { return Some(r.error), false; }
      if * { return Some(5), true; }
      failure := None;
    }

    /** read_impl: fills data from index `start`. */
    method ReadImpl(data: array<byte>, start: nat, length: nat, at: Option<CustomPosition>)
      returns (r: Result<nat, Errno>, ghost moved: nat)
      requires start + length <= data.Length
      modifies data, remote`pos
      ensures forall i :: 0 <= i < data.Length && !(start <= i < start + length) ==> data[i] == old(data[i])
      ensures moved <= Min(length, BLOCK) && (at.None? ==> remote.pos == old(remote.pos) + moved)
      ensures r.Err? ==> data[..] == old(data[..])
      ensures r.Err? && at.Some? ==> remote.pos == old(remote.pos) || remote.pos == at.value.position + moved
      ensures r.Ok? ==>
                var from := if at.Some? then at.value.position else old(remote.pos);
                r.value <= Min(length, BLOCK) && data[start..start + r.value] == PRead(remote.content, from, r.value) &&
                (r.value == 0 && length > 0 ==> from >= |remote.content|) &&
                (length > 0 ==>
                  remote.pos == if at.Some? && at.value.setBack then old(remote.pos) else from + r.value)
      ensures r.Ok? && at.None? ==> r.value == moved
    {
      moved := 0;
      if length == 0 { return Ok(0), 0; }
      if * { return Err(5), 0; }
      var reply;
      reply, moved := remote.Read(at, length);
      if reply.Err? { return Err(reply.error), if at.Some? then moved else 0; }
      if * { return Err(5), moved; }
      if reply.value == [] { return Ok(0), 0; }
      var n := length;
      if n > |reply.value| { n := |reply.value|; }
      forall i | 0 <= i < n { data[start + i] := reply.value[i]; }
      assert data[start..start + n] == reply.value;
      r := Ok(n);
    }

    /** write_impl: at most one block. */
    method WriteImpl(data: Bytes, at: Option<CustomPosition>) returns (r: Result<nat, Errno>, ghost moved: nat)
      modifies remote
      ensures r.Ok? ==> r.value == Min(|data|, BLOCK) == moved
      ensures moved <= |data|
      ensures remote.content ==
              PWrite(old(remote.content), if at.Some? then at.value.position else old(remote.pos), data[..moved])
      ensures at.None? ==> remote.pos == old(remote.pos) + moved
      ensures at.Some? ==> remote.pos == old(remote.pos) || remote.pos == at.value.position + moved
      ensures r.Ok? && data != [] && at.Some? ==>
                remote.pos == if at.value.setBack then old(remote.pos) else at.value.position + r.value
    {
      moved := 0;
      if data == [] { return Ok(0), 0; }
      var length := |data|;
      if length > BLOCK { length := BLOCK; }
      if * { return Err(5), 0; }
      r, moved := remote.Write(at, data[..length]);
      assert moved <= length ==> data[..length][..moved] == data[..moved];
      if r.Ok? {
        assert data[..length][..length] == data[..length];
        if * { return Err(5), moved; }
      }
    }

    method Read(data: array<byte>, start: nat, length: nat) returns (r: Result<nat, Errno>, ghost moved: nat)
      requires start + length <= data.Length
      modifies data, remote`pos
      ensures forall i :: 0 <= i < data.Length && !(start <= i < start + length) ==> data[i] == old(data[i])
      ensures moved <= length && remote.pos == old(remote.pos) + moved
      ensures r.Ok? ==> r.value == moved
      ensures r.Ok? ==> data[start..start + moved] == PRead(remote.content, old(remote.pos), moved)
      ensures r.Ok? && moved == 0 && length > 0 ==> remote.pos >= |remote.content|
    {
      r, moved := ReadImpl(data, start, length, None);
    }

    method Write(data: Bytes) returns (r: Result<nat, Errno>, ghost moved: nat)
      modifies remote
      ensures moved <= |data| && remote.pos == old(remote.pos) + moved
      ensures remote.content == PWrite(old(remote.content), old(remote.pos), data[..moved])
      ensures r.Ok? ==> r.value == moved == Min(|data|, BLOCK)
    {
      r, moved := WriteImpl(data, None);
    }

    /**
      read_from: reads at a position; with seekBack the file position is as
      before. After an error the buffer is untouched and the file stands where it
      did, or behind the octets read.
      */
    method ReadFrom(data: array<byte>, length: nat, from: nat, seekBack: bool)
      returns (r: Result<nat, Errno>, ghost moved: nat)
      requires length <= data.Length
      modifies data, remote`pos
      ensures moved <= Min(length, BLOCK)
      ensures r.Ok? && length > 0 ==>
                r.value <= Min(length, BLOCK) && data[..r.value] == PRead(remote.content, from, r.value) &&
                (r.value == 0 ==> from >= |remote.content|) &&
                remote.pos == if seekBack then old(remote.pos) else from + r.value
      ensures r.Err? ==>
                data[..] == old(data[..]) && (remote.pos == old(remote.pos) || remote.pos == from + moved)
    {
      r, moved := ReadImpl(data, 0, length, Some(CustomPosition(from, seekBack)));
      assert r.Ok? ==> data[0..0 + r.value] == data[..r.value];
    }

    /**
      write_to: writes one block at a position; with seekBack the file position
      is as before. After an error a prefix has been written there.
      */
    method WriteTo(data: Bytes, to: nat, seekBack: bool) returns (r: Result<nat, Errno>, ghost moved: nat)
      modifies remote
      ensures moved <= |data| && remote.content == PWrite(old(remote.content), to, data[..moved])
      ensures remote.pos == old(remote.pos) || remote.pos == to + moved
      ensures r.Ok? && data != [] ==>
                r.value == moved == Min(|data|, BLOCK) &&
                remote.pos == if seekBack then old(remote.pos) else to + r.value
    {
      r, moved := WriteImpl(data, Some(CustomPosition(to, seekBack)));
    }
  }

  // ---------------------------------------------------------------------
  // The file system
  // ---------------------------------------------------------------------

  class FileWrapper {
    const file: ClientFile
    var offset: nat

    constructor (file: ClientFile)
      ensures this.file == file && offset == 0
    {
      this.file, offset := file, 0;
    }

    ghost function State(): Handle
      reads this, file.remote
    {
      Handle(file.remote.content, file.remote.pos, offset)
    }

    /** The seek at the start of read_write_impl, skipped when the cached offset is the wanted one. */
    method MoveTo(off: int) returns (failure: Option<Errno>, ghost arrived: bool)
      modifies `offset, file.remote`pos
      ensures failure.None? ==> off >= 0 && offset == off && file.remote.pos == Landing(old(State()), off)
      ensures failure.Some? ==> old(offset) != off && offset == old(offset) && (arrived ==> off >= 0) &&
                                file.remote.pos == if arrived then off else old(file.remote.pos)
    {
      failure, arrived := None, false;
      if offset != off {
        failure, arrived := file.Seek(off);
        if failure.Some? { return; }
        offset := off;
      }
    }

    /** read_write_impl for write: the number written, or an error number below zero. */
    method Write(buf: Bytes, off: int) returns (ret: int, ghost o: Outcome)
      modifies this, file.remote
      ensures off >= 0 ==> Possible(old(State()), off, |buf|, o) && State() == AfterWrite(old(State()), off, buf, o)
      ensures off < 0 ==> ret < 0 && State() == old(State())
      ensures if o.Done? then ret == |buf| else ret < 0
    {
      var failure, arrived := MoveTo(off);
      o := SeekFailed(arrived);
      if failure.Some? { return Negative(failure.value), o; }
      ghost var moved := State();
      ret, o := WriteOn(buf);
      LandedWrite(old(State()), moved, off, buf, o);
    }

    /** The loop, from where the file stands. The client never reports a write of nothing. */
    method WriteOn(buf: Bytes) returns (ret: int, ghost o: Outcome)
      modifies this, file.remote
      ensures !o.SeekFailed? && (if o.Done? then ret == |buf| else ret < 0)
      ensures Possible(old(State()), old(offset), |buf|, o) && State() == AfterWrite(old(State()), old(offset), buf, o)
    {
      var cur := 0;
      while cur < |buf|
        invariant 0 <= cur <= |buf|
        invariant State() == Handle(PWrite(old(file.remote.content), old(file.remote.pos), buf[..cur]),
                                    old(file.remote.pos) + cur, old(offset) + cur)
      {
        var next, moved := WriteNext(buf, cur, old(file.remote.content), old(file.remote.pos));
        if next.Err? { return Negative(next.error), Failed(cur, cur + moved); }
        cur := cur + next.value;
        offset := offset + next.value;
      }
      assert buf[..cur] == buf;
      ret, o := cur, Done;
    }

    /** One turn of the loop, which adds to what has been written so far. */
    method WriteNext(buf: Bytes, cur: nat, ghost content: Bytes, ghost at: nat)
      returns (next: Result<nat, Errno>, ghost moved: nat)
      requires cur < |buf|
      requires file.remote.content == PWrite(content, at, buf[..cur]) && file.remote.pos == at + cur
      modifies file.remote
      ensures cur + moved <= |buf| && file.remote.pos == at + cur + moved
      ensures file.remote.content == PWrite(content, at, buf[..cur + moved])
      ensures next.Ok? ==> next.value == moved > 0
    {
      next, moved := file.Write(buf[cur..]);
      PWriteSplit(content, at, buf[..cur], buf[cur..][..moved]);
      assert buf[..cur] + buf[cur..][..moved] == buf[..cur + moved];
    }

    /** read_write_impl for read: fills buf and returns the number read, or an error number below zero. */
    method Read(buf: array<byte>, off: int) returns (ret: int, ghost o: Outcome)
      modifies this, file.remote`pos, buf
      ensures off >= 0 ==>
                Possible(old(State()), off, buf.Length, o) && State() == AfterRead(old(State()), off, buf.Length, o)
      ensures off < 0 ==> ret < 0 && State() == old(State())
      ensures if o.Done? then 0 <= ret <= buf.Length else ret < 0
      ensures o.Done? ==> buf[..ret] == PRead(old(file.remote.content), Landing(old(State()), off), buf.Length)
    {
      var failure, arrived := MoveTo(off);
      o := SeekFailed(arrived);
      if failure.Some? { return Negative(failure.value), o; }
      ghost var moved := State();
      ret, o := ReadOn(buf);
      LandedRead(old(State()), moved, off, buf.Length, o);
    }

    method ReadOn(buf: array<byte>) returns (ret: int, ghost o: Outcome)
      modifies this, file.remote`pos, buf
      ensures !o.SeekFailed? && (if o.Done? then 0 <= ret <= buf.Length else ret < 0)
      ensures Possible(old(State()), old(offset), buf.Length, o)
      ensures State() == AfterRead(old(State()), old(offset), buf.Length, o)
      ensures o.Done? ==> buf[..ret] == PRead(file.remote.content, old(file.remote.pos), buf.Length)
    {
      var cur := 0;
      while cur < buf.Length
        invariant 0 <= cur <= buf.Length
        invariant State() == Handle(old(file.remote.content), old(file.remote.pos) + cur, old(offset) + cur)
        invariant buf[..cur] == PRead(file.remote.content, old(file.remote.pos), cur)
      {
        var next, moved := ReadNext(buf, cur, old(file.remote.pos));
        if next.Err? { return Negative(next.error), Failed(cur, cur + moved); }
        if next.value == 0 {
          EndOfFile(file.remote.content, old(file.remote.pos), cur, buf.Length);
          return cur, Done;
        }
        cur := cur + next.value;
        offset := offset + next.value;
      }
      ret, o := cur, Done;
    }

    method ReadNext(buf: array<byte>, cur: nat, ghost at: nat) returns (next: Result<nat, Errno>, ghost moved: nat)
      requires cur < buf.Length && file.remote.pos == at + cur
      requires buf[..cur] == PRead(file.remote.content, at, cur)
      modifies file.remote`pos, buf
      ensures cur + moved <= buf.Length && file.remote.pos == at + cur + moved
      ensures next.Ok? ==> next.value == moved && buf[..cur + moved] == PRead(file.remote.content, at, cur + moved)
      ensures next.Ok? && moved == 0 ==> at + cur >= |file.remote.content|
    {
      ghost var sofar := buf[..cur];
      next, moved := file.Read(buf, cur, buf.Length - cur);
      if next.Ok? {
        assert buf[..cur] == sofar;
        PReadSplit(file.remote.content, at, cur, moved);
        assert buf[..cur + moved] == sofar + buf[cur..cur + moved];
      }
    }
  }

  /** The files that are open, by the handle given to the kernel. */
  class FileMap {
    var store: map<nat, FileWrapper>

    constructor ()
      ensures store == map[]
    {
      store := map[];
    }

    method Write(fh: nat, buf: Bytes, off: int) returns (ret: int, ghost o: Outcome)
      modifies if fh in store then {store[fh], store[fh].file.remote} else {}
      ensures fh !in store ==> ret == -1
      ensures fh in store ==>
                var f := store[fh];
                (if o.Done? then ret == |buf| else ret < 0) &&
                if off < 0 then ret < 0 && f.State() == old(f.State())
                else Possible(old(f.State()), off, |buf|, o) && f.State() == AfterWrite(old(f.State()), off, buf, o)
    {
      if fh !in store { return -1, Done; }
      var f := store[fh];
      ret, o := f.Write(buf, off);
    }

    method Read(fh: nat, buf: array<byte>, off: int) returns (ret: int, ghost o: Outcome)
      modifies buf, if fh in store then {store[fh], store[fh].file.remote} else {}
      ensures fh !in store ==> ret == -1
      ensures fh in store ==>
                var f := store[fh];
                (if o.Done? then 0 <= ret <= buf.Length else ret < 0) &&
                (off >= 0 && o.Done? ==>
                  buf[..ret] == PRead(f.State().content, Landing(old(f.State()), off), buf.Length)) &&
                if off < 0 then ret < 0 && f.State() == old(f.State())
                else Possible(old(f.State()), off, buf.Length, o) &&
                     f.State() == AfterRead(old(f.State()), off, buf.Length, o)
    {
      if fh !in store { return -1, Done; }
      var f := store[fh];
      ret, o := f.Read(buf, off);
    }
  }

  lemma EndOfFile(content: Bytes, at: nat, cur: nat, len: nat)
    requires at + cur >= |content| && cur <= len
    ensures PRead(content, at, cur) == PRead(content, at, len)
  {
  }

  /** Once the file stands where the call lands, a skipped seek and a done one are the same. */
  lemma LandedWrite(s: Handle, moved: Handle, off: nat, data: Bytes, o: Outcome)
    requires moved == Handle(s.content, Landing(s, off), off) && !o.SeekFailed? && Possible(moved, off, |data|, o)
    ensures Possible(s, off, |data|, o) && AfterWrite(moved, off, data, o) == AfterWrite(s, off, data, o)
  {
  }

  lemma LandedRead(s: Handle, moved: Handle, off: nat, len: nat, o: Outcome)
    requires moved == Handle(s.content, Landing(s, off), off) && !o.SeekFailed? && Possible(moved, off, len, o)
    ensures Possible(s, off, len, o) && AfterRead(moved, off, len, o) == AfterRead(s, off, len, o)
  {
  }
}
