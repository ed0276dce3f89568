/**
 The log is a faithful image of the queue: over every run on a working stream, scanning the
 file gives exactly the stored messages of the deque, and a crash in the middle of a write
 loses nothing but that write.
 */
module LogRefinement {
  import opened Bytes
  import opened WireCodec
  import opened LogFile
  import Deque

  // ---------- frames and scanning ----------

  lemma FrameReads(p: Payload, rest: Str)
    requires Fits(p)
    ensures ReadFrame(Frame(p) + rest) == Entry(p, |Frame(p)|)
    ensures FrameLength(p) == |Frame(p)|
  {
    hide Serialize, Parse, Le32, FromLe32;
    var s, data := Frame(p) + rest, Serialize(p);
    assert s[..4] == Le32(|data|);
    Le32RoundTrip(|data|);
    assert s[4..4 + |data|] == data;
    PayloadRoundTrip(p);
  }

  lemma ScanFrame(p: Payload, rest: Str, pos: nat)
    requires Fits(p)
    ensures Scan(Frame(p) + rest, pos) == [Message(p, pos, FrameLength(p))] + Scan(rest, pos + |Frame(p)|)
    ensures EndsInGarbage(Frame(p) + rest) == EndsInGarbage(rest)
  {
    hide ReadFrame, Frame, FrameLength;
    FrameReads(p, rest);
    assert (Frame(p) + rest)[|Frame(p)|..] == rest;
  }

  /** Scanning whole frames and then a tail. */
  lemma {:induction false} ScanFrames(ps: seq<Payload>, tail: Str, pos: nat)
    requires forall p <- ps :: Fits(p)
    ensures Scan(Frames(ps) + tail, pos) == Located(ps, pos) + Scan(tail, pos + |Frames(ps)|)
    ensures EndsInGarbage(Frames(ps) + tail) == EndsInGarbage(tail)
  {
    hide Frame, FrameLength, Scan, EndsInGarbage, Fits;
    if ps == [] {
      assert Frames(ps) + tail == tail;
    } else {
      var next := pos + |Frame(ps[0])|;
      assert Frames(ps) + tail == Frame(ps[0]) + (Frames(ps[1..]) + tail);
      ScanFrame(ps[0], Frames(ps[1..]) + tail, pos);
      ScanFrames(ps[1..], tail, next);
      assert Located(ps, pos) == [Message(ps[0], pos, FrameLength(ps[0]))] + Located(ps[1..], next);
    }
  }

  lemma {:induction false} FramesConcat(a: seq<Payload>, b: seq<Payload>)
    ensures Frames(a + b) == Frames(a) + Frames(b)
  {
    hide Frame;
    if a == [] {
      assert a + b == b;
    } else {
      assert (a + b)[1..] == a[1..] + b;
      FramesConcat(a[1..], b);
    }
  }

  lemma {:induction false} LocatedConcat(a: seq<Payload>, b: seq<Payload>, pos: nat)
    ensures Located(a + b, pos) == Located(a, pos) + Located(b, pos + |Frames(a)|)
  {
    hide Frame, FrameLength;
    if a == [] {
      assert a + b == b;
    } else {
      assert (a + b)[1..] == a[1..] + b;
      LocatedConcat(a[1..], b, pos + |Frame(a[0])|);
    }
  }

  lemma {:induction false} OnlyValidConcat(a: seq<Message>, b: seq<Message>)
    ensures OnlyValid(a + b) == OnlyValid(a) + OnlyValid(b)
  {
    if a == [] {
      assert a + b == b;
    } else {
      assert (a + b)[1..] == a[1..] + b;
      OnlyValidConcat(a[1..], b);
    }
  }

  /** The i-th message of a gap-free file starts where the frames before it end. */
  lemma {:induction false} LocatedAt(ps: seq<Payload>, pos: nat, i: nat)
    requires i < |ps|
    ensures |Located(ps, pos)| == |ps|
    ensures Located(ps, pos)[i] == Message(ps[i], pos + |Frames(ps[..i])|, FrameLength(ps[i]))
  {
    hide Frame, FrameLength;
    assert ps == ps[..i] + ps[i..] && ps[i..][0] == ps[i];
    LocatedConcat(ps[..i], ps[i..], pos);
    LocatedLength(ps, pos);
    LocatedLength(ps[..i], pos);
  }

  lemma {:induction false} LocatedLength(ps: seq<Payload>, pos: nat)
    ensures |Located(ps, pos)| == |ps|
  {
    hide Frame, FrameLength;
    if ps != [] { LocatedLength(ps[1..], pos + |Frame(ps[0])|); }
  }

  // ---------- the invariant ----------

  /** The messages of the deque that have a frame. */
  function Stored(msgs: seq<Message>): seq<Message> {
    if msgs == [] then []
    else if msgs[0].length != 0 then [msgs[0]] + Stored(msgs[1..])
    else Stored(msgs[1..])
  }

  lemma {:induction false} StoredConcat(a: seq<Message>, b: seq<Message>)
    ensures Stored(a + b) == Stored(a) + Stored(b)
  {
    if a == [] {
      assert a + b == b;
    } else {
      assert (a + b)[1..] == a[1..] + b;
      StoredConcat(a[1..], b);
    }
  }

  /** Stream positions are signed 64-bit numbers, so no file is longer. */
  const MAX_FILE: nat := 0x7FFF_FFFF_FFFF_FFFF

  /**
   The file is the gap-free sequence of the frames of ps, live and removed alike, and the live
   ones are the stored messages of the deque: same payloads, same order, same places.
   */
  ghost predicate Mirrors(s: Log, ps: seq<Payload>) {
    && s.bytes == Frames(ps)
    && |s.bytes| <= MAX_FILE
    && (forall p <- ps :: Fits(p))
    && OnlyValid(Located(ps, 0)) == Stored(s.msgs)
    && (forall m <- s.msgs :: m.payload.valid == VALID ==> m.length != 0)
  }

  ghost predicate Consistent(s: Log) {
    s.isOpen && s.good && exists ps :: Mirrors(s, ps)
  }

  /** What the invariant means to a reader of the file. */
  lemma RecoveryFindsTheStored(s: Log, ps: seq<Payload>)
    requires Mirrors(s, ps)
    ensures Recovered(s.bytes) == Stored(s.msgs)
    ensures !EndsInGarbage(s.bytes)
  {
    hide Frames, Located, OnlyValid;
    ScanFrames(ps, [], 0);
    assert Frames(ps) + [] == Frames(ps);
    assert Located(ps, 0) + [] == Located(ps, 0);
  }

  // ---------- finding the frame of a message ----------

  /** The frame of a live message splits the file's frames as the message splits the live ones. */
  lemma {:induction false} FrameOf(ps: seq<Payload>, pos: nat, a: seq<Message>, m: Message, b: seq<Message>)
    returns (before: seq<Payload>, after: seq<Payload>)
    requires OnlyValid(Located(ps, pos)) == a + [m] + b
    ensures ps == before + [m.payload] + after
    ensures OnlyValid(Located(before, pos)) == a
    ensures m == Message(m.payload, pos + |Frames(before)|, FrameLength(m.payload)) && m.payload.valid == VALID
    ensures OnlyValid(Located(after, pos + |Frames(before)| + |Frame(m.payload)|)) == b
  {
    hide Frame, FrameLength;
    var first := Located(ps, pos)[0];
    var next := pos + |Frame(ps[0])|;
    assert Located(ps, pos)[1..] == Located(ps[1..], next);
    if ps[0].valid == VALID && a == [] {
      assert (a + [m] + b)[0] == m && (a + [m] + b)[1..] == b;
      before, after := [], ps[1..];
    } else {
      var a' := if ps[0].valid == VALID then a[1..] else a;
      assert OnlyValid(Located(ps[1..], next)) == a' + [m] + b by {
        if ps[0].valid == VALID { assert (a + [m] + b)[1..] == a' + [m] + b; }
      }
      before, after := FrameOf(ps[1..], next, a', m, b);
      before := [ps[0]] + before;
      assert before[1..] == ps[1..][..|before| - 1];
      assert ps == [ps[0]] + ps[1..];
      if ps[0].valid == VALID { assert a == [(a + [m] + b)[0]] + a'; }
    }
  }

  /** Every stored message's offset and length delimit its own frame. */
  lemma OffsetsNameFrames(s: Log, ps: seq<Payload>, k: nat)
    requires Mirrors(s, ps) && k < |s.msgs| && s.msgs[k].length != 0
    ensures var m := s.msgs[k];
            m.offset + m.length <= |s.bytes| && s.bytes[m.offset..m.offset + m.length] == Frame(m.payload)
  {
    hide Frame, FrameLength, Frames, Located, OnlyValid, Stored, ReadFrame;
    var m := s.msgs[k];
    SplitStored(s.msgs, k);
    var before, after := FrameOf(ps, 0, Stored(s.msgs[..k]), m, Stored(s.msgs[k + 1..]));
    SplitFrames(before, m.payload, after);
    assert m.payload in ps;
    FrameReads(m.payload, []);
  }

  lemma StoredOne(m: Message)
    ensures Stored([m]) == if m.length != 0 then [m] else []
  {
    assert [m][1..] == [];
  }

  lemma SplitStored(msgs: seq<Message>, k: nat)
    requires k < |msgs|
    ensures Stored(msgs) == Stored(msgs[..k]) + (if msgs[k].length != 0 then [msgs[k]] else []) + Stored(msgs[k + 1..])
  {
    hide Stored;
    StoredOne(msgs[k]);
    StoredConcat(msgs[..k], [msgs[k]]);
    Deque.Around(msgs, k);
    StoredConcat(msgs[..k] + [msgs[k]], msgs[k + 1..]);
  }

  lemma SplitFrames(before: seq<Payload>, p: Payload, after: seq<Payload>)
    ensures Frames(before + [p] + after) == Frames(before) + Frame(p) + Frames(after)
  {
    hide Frame;
    FramesConcat(before + [p], after);
    FramesConcat(before, [p]);
    assert Frames([p]) == Frame(p) + [];
  }

  // ---------- each operation keeps the invariant ----------

  /** The sizes the formats allow, and compaction only of fully stored queues. */
  predicate Admissible(s: Log, op: Op) {
    && |Step(s, op).bytes| <= MAX_FILE
    && (op.OpInsert? ==> Fits(Deque.NewPayload(op.bp, op.body, true)))
    && (op.OpCompact? && op.tmpOpens ==> forall m <- s.msgs :: m.payload.valid == VALID)
  }

  lemma InsertKeeps(s: Log, ps: seq<Payload>, bp: Option<Properties>, body: Str, durable: bool)
    requires s.isOpen && s.good && Mirrors(s, ps) && Admissible(s, OpInsert(bp, body, durable))
    ensures var p := Deque.NewPayload(bp, body, true);
            Mirrors(Insert(s, bp, body, durable), if durable then ps + [p] else ps)
    ensures Insert(s, bp, body, durable).isOpen && Insert(s, bp, body, durable).good
  {
    hide Serialize, Frame, Stored;
    var s' := Insert(s, bp, body, durable);
    var m := s'.msgs[|s.msgs|];
    StoredConcat(s.msgs, [m]);
    StoredOne(m);
    if durable {
      var p := m.payload;
      FramesConcat(ps, [p]);
      assert Frames([p]) == Frame(p) + [];
      LocatedConcat(ps, [p], 0);
      assert Located([p], |s.bytes|) == [m] + [];
      OnlyValidConcat(Located(ps, 0), [m]);
      assert OnlyValid([m]) == [m];
    }
  }

  /** Overwriting in place turns one frame's valid from "1" to "0" and keeps its length. */
  lemma OverwriteInPlace(before: seq<Payload>, p: Payload, after: seq<Payload>)
    requires p.valid == VALID && Fits(p)
    ensures var q := p.(valid := INVALID);
            && Fits(q) && |Frame(q)| == |Frame(p)| && Tombstone(p) == Serialize(q)
            && WriteAt(Frames(before + [p] + after), |Frames(before)| + 4, Tombstone(p)) == Frames(before + [q] + after)
  {
    hide Serialize, Le32, Frames;
    var q := p.(valid := INVALID);
    ValidIsTheLastByte(p);
    SplitFrames(before, p, after);
    SplitFrames(before, q, after);
    var file, at := Frames(before + [p] + after), |Frames(before)| + 4;
    assert file[..at] == Frames(before) + Le32(|Serialize(p)|);
    assert file[at + |Serialize(q)|..] == Frames(after);
  }

  lemma InvalidateKeeps(s: Log, ps: seq<Payload>, k: nat) returns (ps': seq<Payload>)
    requires s.isOpen && s.good && Mirrors(s, ps)
    requires k < |s.msgs| && s.msgs[k].length != 0
    ensures Mirrors(Invalidate(s, s.msgs[k]).(msgs := Deque.Without(s.msgs, k)), ps')
  {
    hide Frame, FrameLength, Frames, Located, OnlyValid, Stored, WriteAt, Tombstone, Fits;
    var m, a, b := s.msgs[k], s.msgs[..k], s.msgs[k + 1..];
    SplitStored(s.msgs, k);
    StoredConcat(a, b);
    var before, after := FrameOf(ps, 0, Stored(a), m, Stored(b));
    var q := m.payload.(valid := INVALID);
    assert m.payload in ps;
    SplitFrames(before, m.payload, after);
    OverwriteInPlace(before, m.payload, after);
    ps' := before + [q] + after;
    LiveWithout(before, q, after);
    SplitFrames(before, q, after);
    FrameIsNotEmpty(m.payload);
  }

  lemma FrameIsNotEmpty(p: Payload)
    ensures |Frame(p)| >= 4 && FrameLength(p) >= 4
  {
    hide Serialize;
  }

  lemma EraseKeeps(s: Log, ps: seq<Payload>, k: nat)
    requires Mirrors(s, ps) && k < |s.msgs| && s.msgs[k].length == 0
    ensures Mirrors(s.(msgs := Deque.Without(s.msgs, k)), ps)
  {
    hide Frame, Frames, Located, OnlyValid, Stored, Fits;
    SplitStored(s.msgs, k);
    StoredConcat(s.msgs[..k], s.msgs[k + 1..]);
  }

  lemma RemoveKeeps(s: Log, ps: seq<Payload>, id: Str) returns (ps': seq<Payload>)
    requires s.isOpen && s.good && Mirrors(s, ps)
    ensures Mirrors(Remove(s, id), ps') && Remove(s, id).isOpen && Remove(s, id).good
  {
    hide Mirrors, Deque.Victim;
    var k := Deque.Victim(Payloads(s.msgs), id);
    if k == |s.msgs| {
      ps' := ps;
    } else if s.msgs[k].length == 0 {
      EraseKeeps(s, ps, k);
      ps' := ps;
    } else {
      ps' := InvalidateKeeps(s, ps, k);
    }
  }

  lemma LiveWithout(before: seq<Payload>, q: Payload, after: seq<Payload>)
    requires q.valid != VALID
    ensures OnlyValid(Located(before + [q] + after, 0)) ==
            OnlyValid(Located(before, 0)) + OnlyValid(Located(after, |Frames(before)| + |Frame(q)|))
  {
    hide Frame, FrameLength;
    var at := |Frames(before)|;
    assert before + [q] + after == before + ([q] + after);
    LocatedConcat(before, [q] + after, 0);
    assert ([q] + after)[1..] == after;
    OnlyValidConcat(Located(before, 0), Located([q] + after, at));
    assert Located([q] + after, at)[1..] == Located(after, at + |Frame(q)|);
  }

  /** When every message of the list is valid, all of its frames are live. */
  lemma {:induction false} AllLive(ps: seq<Payload>, pos: nat)
    requires forall p <- ps :: p.valid == VALID
    ensures OnlyValid(Located(ps, pos)) == Located(ps, pos) == Stored(Located(ps, pos))
  {
    hide Frame, Serialize;
    if ps != [] {
      AllLive(ps[1..], pos + |Frame(ps[0])|);
      assert Located(ps, pos)[1..] == Located(ps[1..], pos + |Frame(ps[0])|);
    }
  }

  /** A compacted file mirrors the deque, whatever the file and the offsets were before. */
  lemma CompactMirrors(s: Log)
    requires s.isOpen && |Frames(Payloads(s.msgs))| <= MAX_FILE
    requires forall m <- s.msgs :: m.payload.valid == VALID && Fits(m.payload)
    ensures Mirrors(Compact(s, true), Payloads(s.msgs))
  {
    var ps := Payloads(s.msgs);
    AllLive(ps, 0);
    forall m | m in Located(ps, 0) ensures m.length != 0 {
      var i :| 0 <= i < |Located(ps, 0)| && Located(ps, 0)[i] == m;
      LocatedLength(ps, 0);
      LocatedAt(ps, 0, i);
    }
  }

  lemma {:induction false} LivePayloads(ps: seq<Payload>, pos: nat)
    ensures forall m <- OnlyValid(Located(ps, pos)) :: m.payload in ps
  {
    hide Frame, FrameLength;
    if ps != [] {
      LivePayloads(ps[1..], pos + |Frame(ps[0])|);
      assert Located(ps, pos)[1..] == Located(ps[1..], pos + |Frame(ps[0])|);
    }
  }

  lemma {:induction false} AllStored(msgs: seq<Message>)
    requires forall m <- msgs :: m.length != 0
    ensures Stored(msgs) == msgs
  {
    if msgs != [] { AllStored(msgs[1..]); }
  }

  lemma StepKeeps(s: Log, op: Op)
    requires Consistent(s) && Admissible(s, op)
    ensures Consistent(Step(s, op))
  {
    hide Frame, Frames, Located, OnlyValid, Stored, Insert, Remove;
    var ps :| Mirrors(s, ps);
    match op
    case OpInsert(bp, body, durable) =>
      InsertKeeps(s, ps, bp, body, durable);
    case OpRemove(id) =>
      var _ := RemoveKeeps(s, ps, id);
    case OpStats =>
      assert Step(s, op) == s;
    case OpCompact(tmpOpens) =>
      if tmpOpens {
        AllStored(s.msgs);
        LivePayloads(ps, 0);
        assert forall m <- s.msgs :: m.payload in ps;
        CompactMirrors(s);
      }
  }

  /** Each operation of the run is admissible when it is reached. */
  predicate AdmissibleRun(s: Log, ops: seq<Op>)
    decreases |ops|
  {
    ops == [] || (Admissible(s, ops[0]) && AdmissibleRun(Step(s, ops[0]), ops[1..]))
  }

  lemma {:induction false} RunKeeps(s: Log, ops: seq<Op>)
    requires Consistent(s) && AdmissibleRun(s, ops)
    ensures Consistent(Run(s, ops))
    decreases |ops|
  {
    if ops != [] {
      StepKeeps(s, ops[0]);
      RunKeeps(Step(s, ops[0]), ops[1..]);
    }
  }
}
