/** The message store of one queue: a deque and its append-only file, updated in place. */
module QueueMessage {
  import opened Bytes
  import opened WireCodec
  import opened LogFile
  import opened LogRefinement
  import LogTheorems
  import Deque

  /** A std::fstream: the file's bytes, one position for reading and writing, and its state flags. */
  datatype Stream = Stream(bytes: Str, pos: nat, good: bool, isOpen: bool)
  {
    /** seekg and seekp do nothing on a failed stream. */
    function Seek(p: nat): Stream {
      if good then this.(pos := p) else this
    }

    /** tellg and tellp as a uint64: -1 on a failed stream. */
    function Tell(): nat {
      if good then pos else NOWHERE
    }

    function Write(data: Str): Stream {
      if good then this.(bytes := WriteAt(bytes, pos, data), pos := pos + |data|) else this
    }

    /** read fails, and sets the flags, when fewer than n bytes are left. */
    function Read(n: nat): (Stream, Option<Str>) {
      if good && pos + n <= |bytes| then (this.(pos := pos + n), Some(bytes[pos..pos + n]))
      else (this.(good := false), None)
    }
  }

  class QueueMessage {
    var msgs: seq<Message>
    var file: Stream

    function State(): Log
      reads this
    {
      Log(msgs, file.bytes, file.good, file.isOpen)
    }

    /** disk is what the file holds; a file that does not exist is created empty. */
    constructor (disk: Str)
      ensures State() == Log([], disk, true, true)
    {
      msgs := [];
      file := Stream(disk, 0, true, true);
    }

    method WritePersistent(m: Message) returns (m': Message, ok: bool)
      modifies this`file
      ensures m'.payload == if file.isOpen then m.payload.(valid := VALID) else m.payload
      ensures ok <==> file.isOpen && file.good
      ensures file.isOpen == old(file.isOpen) && file.good == old(file.good)
      ensures file.bytes == if ok then old(file.bytes) + Frame(m'.payload) else old(file.bytes)
      ensures file.isOpen ==> m'.length == FrameLength(m'.payload)
      ensures file.isOpen ==> m'.offset == if file.good then |old(file.bytes)| else NOWHERE
      ensures !file.isOpen ==> m' == m
    {
      hide Serialize, Le32;
      if !file.isOpen { return m, false; }
      m' := m.(payload := m.payload.(valid := VALID));
      var data := Serialize(m'.payload);
      file := file.Seek(|file.bytes|);
      var pos := file.Tell();
      file := file.Write(Le32(|data|));
      file := file.Write(data);
      m' := m'.(offset := pos, length := 4 + Low32(|data|));
      ok := file.good;
    }

    method Insert(bp: Option<Properties>, body: Str, durable: bool) returns (ok: bool)
      modifies this
      ensures ok && State() == LogFile.Insert(old(State()), bp, body, durable)
    {
      hide Frame, FrameLength;
      var m := Message(Payload(bp, body, []), 0, 0);
      if durable {
        var written;
        m, written := WritePersistent(m);
      }
      msgs := msgs + [m];
      ok := true;
    }

    method InvalidatePersistent(m: Message)
      modifies this`file
      ensures State() == Invalidate(old(State()), m)
    {
      hide Serialize;
      if m.length == 0 || !file.isOpen { return; }
      var data := Serialize(m.payload.(valid := INVALID));
      var len := Low32(|data|);
      file := file.Seek((m.offset + 4) % TWO64);
      file := file.Write(data[..len]);
    }

    method Remove(id: Str)
      modifies this
      ensures State() == LogFile.Remove(old(State()), id)
    {
      hide Tombstone, WriteAt;
      ghost var s := State();
      if msgs == [] { return; }
      if id == [] {
        var m := msgs[0];
        InvalidatePersistent(m);
        msgs := msgs[1..];
        return;
      }
      var i := 0;
      while i < |msgs|
        invariant 0 <= i <= |msgs|
        invariant State() == s
        invariant forall j :: 0 <= j < i ==> msgs[j].payload.Id() != id
      {
        if msgs[i].payload.Id() == id {
          InvalidatePersistent(msgs[i]);
          msgs := msgs[..i] + msgs[i + 1..];
          assert Deque.FirstWithId(Payloads(s.msgs), id) == i;
          return;
        }
        i := i + 1;
      }
    }

    method Front() returns (m: Option<Message>)
      ensures m == if msgs == [] then None else Some(msgs[0])
    {
      m := if msgs == [] then None else Some(msgs[0]);
    }

    method Recovery()
      modifies this
      ensures State() == LogFile.Recovery(old(State()))
    {
      hide Parse, FromLe32, ReadFrame, Scan, OnlyValid, EndsInGarbage;
      if !file.isOpen { return; }
      ghost var bytes := file.bytes;
      file := file.Seek(0);
      var pos := file.Tell();
      if !file.good { return; }
      assert bytes[0..] == bytes;
      while true
        invariant file == Stream(bytes, pos, true, true) && pos <= |bytes|
        invariant old(msgs) + Recovered(bytes) == msgs + OnlyValid(Scan(bytes[pos..], pos))
        invariant EndsInGarbage(bytes) == EndsInGarbage(bytes[pos..])
        decreases |bytes| - pos
      {
        ghost var rest, before := bytes[pos..], msgs;
        ReadFrameAt(bytes, pos);
        ScanEnds(rest, pos);
        var (afterHeader, header) := file.Read(4);
        file := afterHeader;
        if header.None? { break; }
        var len := FromLe32(header.value);
        var (afterData, data) := file.Read(len);
        file := afterData;
        if data.None? { break; }
        var payload := Parse(data.value);
        if payload.None? { break; }
        var m := Message(payload.value, pos, 4 + len);
        if payload.value.valid == VALID { msgs := msgs + [m]; }
        ScanTakes(rest, pos, before, msgs, m);
        pos := file.Tell();
      }
    }

    method GetStats() returns (depth: nat, fileSize: nat, total: nat, invalid: nat)
      modifies this
      ensures State() == LogFile.GetStats(old(State()))
      ensures depth == |msgs| && fileSize == |file.bytes|
      ensures total == if file.isOpen then |Scan(file.bytes, 0)| else 0
      ensures invalid == if file.isOpen then LogTheorems.CountInvalid(Scan(file.bytes, 0)) else 0
    {
      hide Parse, FromLe32, ReadFrame, Scan, LogTheorems.CountInvalid;
      depth, fileSize, total, invalid := |msgs|, |file.bytes|, 0, 0;
      if !file.isOpen { return; }
      ghost var bytes := file.bytes;
      file := file.(good := true);
      file := file.Seek(0);
      ghost var pos := 0;
      assert bytes[0..] == bytes;
      while true
        invariant file == Stream(bytes, pos, true, true) && pos <= |bytes|
        invariant msgs == old(msgs)
        invariant total + |Scan(bytes[pos..], pos)| == |Scan(bytes, 0)|
        invariant invalid + LogTheorems.CountInvalid(Scan(bytes[pos..], pos)) ==
                  LogTheorems.CountInvalid(Scan(bytes, 0))
        decreases |bytes| - pos
      {
        ghost var rest := bytes[pos..];
        ReadFrameAt(bytes, pos);
        ScanEnds(rest, pos);
        var (afterHeader, header) := file.Read(4);
        file := afterHeader;
        if header.None? { break; }
        var len := FromLe32(header.value);
        var (afterData, data) := file.Read(len);
        file := afterData;
        if data.None? { break; }
        var payload := Parse(data.value);
        if payload.None? { break; }
        CountTakes(rest, pos);
        total := total + 1;
        if payload.value.valid != VALID { invalid := invalid + 1; }
        pos := pos + 4 + len;
      }
      file := file.(good := true);
      file := file.Seek(|file.bytes|);
    }

    /** tmpOpens: whether the temporary file could be created. */
    method Compact(tmpOpens: bool)
      modifies this
      ensures State() == LogFile.Compact(old(State()), tmpOpens)
    {
      hide Frames, Located, Serialize, Le32, Low32;
      if !file.isOpen || !tmpOpens { return; }
      ghost var was, ps := msgs, Payloads(msgs);
      var tmp: Str := [];
      var pos, i := 0, 0;
      StartOfCompaction(ps);
      while i < |msgs|
        invariant 0 <= i <= |msgs| == |ps|
        invariant file == old(file)
        invariant msgs == Located(ps[..i], 0) + was[i..] && |Located(ps[..i], 0)| == i
        invariant tmp == Frames(ps[..i]) && pos == |tmp|
      {
        var data := Serialize(msgs[i].payload);
        assert msgs[i] == was[i] && data == Serialize(ps[i]);
        tmp := tmp + Le32(|data|) + data;
        NextOfCompaction(ps, i);
        Overwrite(Located(ps[..i], 0), was[i..], msgs[i].(offset := pos, length := 4 + Low32(|data|)));
        msgs := msgs[i := msgs[i].(offset := pos, length := 4 + Low32(|data|))];
        assert was[i..][1..] == was[i + 1..];
        pos := |tmp|;
        i := i + 1;
      }
      assert ps[..i] == ps;
      file := Stream(tmp, 0, true, true);
    }
  }

  /** The two reads and the parse of one loop turn, as the first frame of what is left. */
  lemma ReadFrameAt(bytes: Str, pos: nat)
    requires pos <= |bytes|
    ensures pos + 4 > |bytes| ==> ReadFrame(bytes[pos..]) == Torn
    ensures pos + 4 <= |bytes| ==>
              var len := FromLe32(bytes[pos..pos + 4]);
              if pos + 4 + len > |bytes| then ReadFrame(bytes[pos..]) == Torn
              else match Parse(bytes[pos + 4..pos + 4 + len])
                case None => ReadFrame(bytes[pos..]) == Garbage
                case Some(p) => && ReadFrame(bytes[pos..]) == Entry(p, 4 + len)
                                && bytes[pos..][4 + len..] == bytes[pos + 4 + len..]
  {
    hide Parse, FromLe32;
    var rest := bytes[pos..];
    if |rest| >= 4 {
      assert rest[..4] == bytes[pos..pos + 4];
      var len := FromLe32(rest[..4]);
      if pos + 4 + len <= |bytes| { assert rest[4..4 + len] == bytes[pos + 4..pos + 4 + len]; }
    }
  }

  lemma ScanEnds(rest: Str, pos: nat)
    ensures !ReadFrame(rest).Entry? ==>
              && Scan(rest, pos) == [] && OnlyValid(Scan(rest, pos)) == []
              && LogTheorems.CountInvalid(Scan(rest, pos)) == 0
              && EndsInGarbage(rest) == ReadFrame(rest).Garbage?
  {
    hide ReadFrame;
  }

  /** One turn of the recovery loop: the message moves from the unread to the read side. */
  lemma ScanTakes(rest: Str, pos: nat, before: seq<Message>, now: seq<Message>, m: Message)
    requires ReadFrame(rest) == Entry(m.payload, m.length) && m.offset == pos
    requires now == if m.payload.valid == VALID then before + [m] else before
    ensures before + OnlyValid(Scan(rest, pos)) == now + OnlyValid(Scan(rest[m.length..], pos + m.length))
    ensures EndsInGarbage(rest) == EndsInGarbage(rest[m.length..])
  {
    hide ReadFrame;
    var next := Scan(rest[m.length..], pos + m.length);
    assert Scan(rest, pos) == [m] + next && ([m] + next)[1..] == next;
    Regroup(before, m, OnlyValid(next));
  }

  lemma Regroup<T>(a: seq<T>, x: T, b: seq<T>)
    ensures a + ([x] + b) == (a + [x]) + b
  {
  }

  lemma CountTakes(rest: Str, pos: nat)
    requires ReadFrame(rest).Entry?
    ensures var Entry(p, size) := ReadFrame(rest);
            var next := Scan(rest[size..], pos + size);
            && |Scan(rest, pos)| == 1 + |next|
            && LogTheorems.CountInvalid(Scan(rest, pos)) ==
               (if p.valid != VALID then 1 else 0) + LogTheorems.CountInvalid(next)
  {
    hide ReadFrame;
    var Entry(p, size) := ReadFrame(rest);
    assert Scan(rest, pos)[1..] == Scan(rest[size..], pos + size);
  }

  lemma Overwrite<T>(a: seq<T>, b: seq<T>, x: T)
    requires b != []
    ensures (a + b)[|a| := x] == a + [x] + b[1..]
  {
  }

  lemma StartOfCompaction(ps: seq<Payload>)
    ensures Located(ps[..0], 0) == [] && Frames(ps[..0]) == []
  {
  }

  lemma NextOfCompaction(ps: seq<Payload>, i: nat)
    requires i < |ps|
    ensures Frames(ps[..i + 1]) == Frames(ps[..i]) + Frame(ps[i])
    ensures Located(ps[..i + 1], 0) == Located(ps[..i], 0) + [Message(ps[i], |Frames(ps[..i])|, FrameLength(ps[i]))]
  {
    hide Frame, FrameLength;
    assert ps[..i + 1] == ps[..i] + [ps[i]];
    FramesConcat(ps[..i], [ps[i]]);
    LocatedConcat(ps[..i], [ps[i]], 0);
    var at := |Frames(ps[..i])|;
    assert [ps[i]][1..] == [];
    assert Frames([ps[i]]) == Frame(ps[i]) + [];
    assert Located([ps[i]], at) == [Message(ps[i], at, FrameLength(ps[i]))] + [];
  }
}
