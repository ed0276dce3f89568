/** When a removal takes one message out of the file and keeps all others: the exact conditions. */
module LogRemovals {
  import opened Bytes
  import opened WireCodec
  import opened LogFile
  import opened LogRefinement
  import opened LogTheorems
  import opened LogLimits
  import Deque

  // ---------- whole files beside stale messages ----------

  /**
   The file is gap-free frames. A message of the queue has a length if and only if it is marked, and
   then it stands where the file has it, or its offset is stale. No two stand in one place.
   */
  ghost predicate Whole(s: Log, ps: seq<Payload>) {
    && s.isOpen && s.bytes == Frames(ps) && |s.bytes| <= MAX_FILE
    && (forall p <- ps :: Fits(p))
    && (forall m <- s.msgs :: Placed(m, ps))
    && Apart(s.msgs)
  }

  predicate Placed(m: Message, ps: seq<Payload>) {
    && (m.length != 0 <==> m.payload.valid == VALID)
    && (m.length != 0 ==> Fits(m.payload) && (m.offset == NOWHERE || m in OnlyValid(Located(ps, 0))))
  }

  predicate Apart(msgs: seq<Message>) {
    forall i, j :: 0 <= i < j < |msgs| && msgs[i].length != 0 && msgs[j].length != 0 && msgs[i].offset == msgs[j].offset
                   ==> msgs[i].offset == NOWHERE
  }

  lemma WholeFileRecovers(ps: seq<Payload>)
    requires forall p <- ps :: Fits(p)
    ensures Recovered(Frames(ps)) == OnlyValid(Located(ps, 0))
  {
    hide Fits, Frames, Located, OnlyValid, Scan;
    ScanFrames(ps, [], 0);
    ScanNothing(|Frames(ps)|);
    assert Frames(ps) + [] == Frames(ps) && Located(ps, 0) + [] == Located(ps, 0);
  }

  /** The live messages of a stretch of frames lie inside it, in order. */
  lemma {:induction false} LiveOffsets(ps: seq<Payload>, pos: nat)
    ensures forall m <- OnlyValid(Located(ps, pos)) :: pos <= m.offset < pos + |Frames(ps)| && m.length != 0
    ensures forall m <- OnlyValid(Located(ps, pos)) :: m.payload.valid == VALID && m.payload in ps
    ensures Apart(OnlyValid(Located(ps, pos)))
  {
    hide Frame, FrameLength;
    if ps != [] {
      var next := pos + |Frame(ps[0])|;
      var rest := OnlyValid(Located(ps[1..], next));
      FrameIsNotEmpty(ps[0]);
      LiveOffsets(ps[1..], next);
      assert Located(ps, pos)[1..] == Located(ps[1..], next);
      if ps[0].valid == VALID {
        assert OnlyValid(Located(ps, pos)) == [Message(ps[0], pos, FrameLength(ps[0]))] + rest;
      }
    }
  }

  /** The list without this message. */
  function Minus(msgs: seq<Message>, m: Message): seq<Message> {
    if msgs == [] then [] else (if msgs[0] == m then [] else [msgs[0]]) + Minus(msgs[1..], m)
  }

  lemma {:induction false} MinusNothing(msgs: seq<Message>, m: Message)
    requires m !in msgs
    ensures Minus(msgs, m) == msgs
  {
    if msgs != [] { MinusNothing(msgs[1..], m); }
  }

  lemma {:induction false} MinusOne(a: seq<Message>, m: Message, b: seq<Message>)
    requires m !in a && m !in b
    ensures Minus(a + [m] + b, m) == a + b
  {
    var all := a + [m] + b;
    if a == [] {
      assert all[1..] == b;
      MinusNothing(b, m);
    } else {
      assert all[1..] == a[1..] + [m] + b && all[0] == a[0];
      MinusOne(a[1..], m, b);
    }
  }

  lemma {:induction false} MinusKeeps(msgs: seq<Message>, m: Message, other: Message)
    requires other in msgs && other != m
    ensures other in Minus(msgs, m)
  {
    if msgs[0] != other { MinusKeeps(msgs[1..], m, other); }
  }

  /** A live message's frame, and the live messages before and behind it. */
  lemma LiveFrame(ps: seq<Payload>, m: Message) returns (before: seq<Payload>, after: seq<Payload>)
    requires m in OnlyValid(Located(ps, 0))
    ensures ps == before + [m.payload] + after && m.payload.valid == VALID
    ensures m.offset == |Frames(before)| && m.length == FrameLength(m.payload)
    ensures Minus(OnlyValid(Located(ps, 0)), m) ==
            OnlyValid(Located(before, 0)) + OnlyValid(Located(after, |Frames(before)| + |Frame(m.payload)|))
  {
    hide Frame, FrameLength, Frames, Located, OnlyValid, Minus, Apart;
    var live := OnlyValid(Located(ps, 0));
    var i :| 0 <= i < |live| && live[i] == m;
    var a, b := live[..i], live[i + 1..];
    assert live == a + [m] + b;
    before, after := FrameOf(ps, 0, a, m, b);
    FrameIsNotEmpty(m.payload);
    LiveOffsets(before, 0);
    LiveOffsets(after, |Frames(before)| + |Frame(m.payload)|);
    MinusOne(a, m, b);
  }

  lemma FitsAround(before: seq<Payload>, p: Payload, q: Payload, after: seq<Payload>)
    requires (forall r <- before + [p] + after :: Fits(r)) && Fits(q)
    ensures forall r <- before + [q] + after :: Fits(r)
  {
    hide Fits;
    forall r <- before + [q] + after ensures Fits(r) { assert r == q || r in before + [p] + after; }
  }

  /** Overwriting a live message's frame leaves whole frames, in which recovery finds all others. */
  lemma PlacedInvalidation(s: Log, ps: seq<Payload>, m: Message) returns (ps': seq<Payload>)
    requires Whole(s, ps) && s.good && m in OnlyValid(Located(ps, 0))
    ensures Invalidate(s, m).bytes == Frames(ps') && |Frames(ps')| == |s.bytes|
    ensures forall p <- ps' :: Fits(p)
    ensures OnlyValid(Located(ps', 0)) == Minus(OnlyValid(Located(ps, 0)), m)
  {
    hide Frame, FrameLength, Frames, Located, OnlyValid, WriteAt, Tombstone, Fits, Minus, Placed, Apart;
    var before, after := LiveFrame(ps, m);
    var q := m.payload.(valid := INVALID);
    assert m.payload in ps;
    OverwriteInPlace(before, m.payload, after);
    ps' := before + [q] + after;
    SplitFrames(before, m.payload, after);
    SplitFrames(before, q, after);
    LiveWithout(before, q, after);
    FrameIsNotEmpty(m.payload);
    FitsAround(before, m.payload, q, after);
  }

  /**
   What a removal on a good stream does to the other messages. Recovery afterwards is recovery before
   without the message removed exactly when the message's offset is not stale, or there was nothing to
   recover; files under 160 MiB in the stale case.
   */
  lemma RemovalKeepsOthersIff(s: Log, ps: seq<Payload>, id: Str)
    requires Whole(s, ps) && s.good
    requires var k := Deque.Victim(Payloads(s.msgs), id);
             k < |s.msgs| && s.msgs[k].length != 0 &&
             (s.msgs[k].offset == NOWHERE ==> |Remove(s, id).bytes| < 0x0A00_0000)
    ensures var m := s.msgs[Deque.Victim(Payloads(s.msgs), id)];
            Recovered(Remove(s, id).bytes) == Minus(Recovered(s.bytes), m) <==>
            m.offset != NOWHERE || Recovered(s.bytes) == []
  {
    hide Frames, Located, OnlyValid, Recovered, Deque.Victim, Invalidate, Fits, Minus, Apart;
    var m := s.msgs[Deque.Victim(Payloads(s.msgs), id)];
    assert Placed(m, ps);
    WholeFileRecovers(ps);
    LiveOffsets(ps, 0);
    if m.offset == NOWHERE {
      StaleRemovalLosesTheFile(s, id);
      MinusNothing(Recovered(s.bytes), m);
    } else {
      var ps' := PlacedInvalidation(s, ps, m);
      WholeFileRecovers(ps');
    }
  }

  // ---------- which frame ----------

  /** Message number k leaves the queue, and in the file its frame turns invalid and no other byte changes. */
  lemma RemovalRewritesOneFrame(s: Log, ps: seq<Payload>, id: Str, k: nat)
    requires s.isOpen && s.good && Mirrors(s, ps) && k < |s.msgs| && s.msgs[k].length != 0
    requires if id == [] then k == 0
             else s.msgs[k].payload.Id() == id && forall i :: 0 <= i < k ==> s.msgs[i].payload.Id() != id
    ensures var m, t := s.msgs[k], Remove(s, id);
            && t.msgs == s.msgs[..k] + s.msgs[k + 1..]
            && m.offset + m.length <= |s.bytes|
            && t.bytes == s.bytes[..m.offset] + Frame(m.payload.(valid := INVALID)) + s.bytes[m.offset + m.length..]
            && Recovered(t.bytes) == Stored(s.msgs[..k] + s.msgs[k + 1..])
  {
    hide Frame, FrameLength, Frames, Located, OnlyValid, Stored, Tombstone, WriteAt, Fits, Recovered, Mirrors;
    var ps' := RemoveKeeps(s, ps, id);
    var t := Remove(s, id);
    RecoveryFindsTheStored(t, ps');
    VictimAt(s, id, k);
    OverwrittenFrame(s, ps, k);
  }

  lemma VictimAt(s: Log, id: Str, k: nat)
    requires k < |s.msgs|
    requires if id == [] then k == 0
             else s.msgs[k].payload.Id() == id && forall i :: 0 <= i < k ==> s.msgs[i].payload.Id() != id
    ensures Remove(s, id).msgs == s.msgs[..k] + s.msgs[k + 1..]
    ensures Remove(s, id).bytes == Invalidate(s, s.msgs[k]).bytes
  {
    hide Tombstone, WriteAt;
    var ps := Payloads(s.msgs);
    if id != [] { assert Deque.FirstWithId(ps, id) == k; }
    assert Deque.Victim(ps, id) == k;
  }

  /** The frame of a stored message, between the frames before and behind it. */
  lemma StoredFrame(s: Log, ps: seq<Payload>, k: nat) returns (before: seq<Payload>, after: seq<Payload>)
    requires Mirrors(s, ps) && k < |s.msgs| && s.msgs[k].length != 0
    ensures var m := s.msgs[k];
            && m.payload.valid == VALID && Fits(m.payload)
            && m.offset == |Frames(before)| && m.length == |Frame(m.payload)|
            && s.bytes == Frames(before + [m.payload] + after) && |s.bytes| <= MAX_FILE
  {
    hide Frame, FrameLength, Frames, Located, OnlyValid, Stored, Fits;
    var m := s.msgs[k];
    SplitStored(s.msgs, k);
    before, after := FrameOf(ps, 0, Stored(s.msgs[..k]), m, Stored(s.msgs[k + 1..]));
    assert m.payload in ps;
    FrameReads(m.payload, []);
  }

  lemma OverwrittenFrame(s: Log, ps: seq<Payload>, k: nat)
    requires s.isOpen && s.good && Mirrors(s, ps) && k < |s.msgs| && s.msgs[k].length != 0
    ensures var m := s.msgs[k];
            && m.offset + m.length <= |s.bytes|
            && Invalidate(s, m).bytes ==
               s.bytes[..m.offset] + Frame(m.payload.(valid := INVALID)) + s.bytes[m.offset + m.length..]
  {
    hide Frame, Frames, Tombstone, WriteAt, Fits, Mirrors;
    var m := s.msgs[k];
    var before, after := StoredFrame(s, ps, k);
    var q := m.payload.(valid := INVALID);
    OverwriteInPlace(before, m.payload, after);
    SplitFrames(before, m.payload, after);
    SplitFrames(before, q, after);
    Slices(Frames(before), Frame(m.payload), Frames(after));
    FrameIsNotEmpty(m.payload);
  }

  lemma Slices(a: Str, b: Str, c: Str)
    ensures var s := a + b + c; s[..|a|] == a && s[|a| + |b|..] == c
  {
  }

  /**
   The empty id takes the front of any queue, whatever the ids, and invalidates the front's frame; on a
   mirrored file recovery then finds the stored messages of the rest.
   */
  lemma EmptyIdRemovesTheFront(s: Log, ps: seq<Payload>)
    requires s.msgs != []
    ensures var t := Remove(s, []);
            && t.msgs == s.msgs[1..] && t.bytes == Invalidate(s, s.msgs[0]).bytes
            && (s.isOpen && s.good && Mirrors(s, ps) ==> Recovered(t.bytes) == Stored(s.msgs[1..]))
  {
    hide Mirrors, Recovered, Stored, Tombstone, WriteAt;
    VictimAt(s, [], 0);
    assert s.msgs[..0] + s.msgs[1..] == s.msgs[1..];
    if s.isOpen && s.good && Mirrors(s, ps) {
      var ps' := RemoveKeeps(s, ps, []);
      RecoveryFindsTheStored(Remove(s, []), ps');
    }
  }

  // ---------- damage and closed files ----------

  /**
   A frame whose payload does not parse ends recovery: the live messages before it are found, none
   behind it, and the stream stays usable, unlike at the end of the file.
   */
  lemma GarbageEndsRecovery(ps: seq<Payload>, data: Str, rest: Str)
    requires (forall p <- ps :: Fits(p)) && |data| < TWO32 && Parse(data) == None
    ensures var t := Restart(Frames(ps) + (Le32(|data|) + data + rest));
            t.msgs == OnlyValid(Located(ps, 0)) && t.good
    ensures !Restart(Frames(ps)).good
  {
    hide Fits, Frames, Located, OnlyValid, Scan, EndsInGarbage, ReadFrame, Recovered;
    var tail := Le32(|data|) + data + rest;
    var bytes := Frames(ps) + tail;
    GarbageReads(data, rest);
    StoppedScan(tail, |Frames(ps)|);
    StoppedScan([], |Frames(ps)|);
    ScanFrames(ps, tail, 0);
    ScanFrames(ps, [], 0);
    assert Frames(ps) + [] == Frames(ps) && Located(ps, 0) + [] == Located(ps, 0);
    RestartReadsTheFile(bytes);
    RecoveredIs(bytes);
    EmptyIsTorn();
  }

  lemma RecoveredIs(bytes: Str)
    ensures Recovered(bytes) == OnlyValid(Scan(bytes, 0))
  {
  }

  lemma EmptyIsTorn()
    ensures ReadFrame([]) == Torn
  {
  }

  lemma GarbageReads(data: Str, rest: Str)
    requires |data| < TWO32 && Parse(data) == None
    ensures ReadFrame(Le32(|data|) + data + rest) == Garbage
  {
    hide Parse, Le32, FromLe32;
    var s := Le32(|data|) + data + rest;
    assert s[..4] == Le32(|data|);
    Le32RoundTrip(|data|);
    assert s[4..4 + |data|] == data;
  }

  lemma StoppedScan(s: Str, pos: nat)
    ensures !ReadFrame(s).Entry? ==> Scan(s, pos) == [] && EndsInGarbage(s) == ReadFrame(s).Garbage?
    ensures ReadFrame([]) == Torn
  {
    EmptyIsTorn();
    hide ReadFrame;
  }

  /** A store without a file keeps the queue in memory, unmarked, and never touches the bytes. */
  lemma ClosedFileIsMemoryOnly(s: Log, op: Op)
    requires !s.isOpen
    ensures var t := Step(s, op);
            && t.bytes == s.bytes && !t.isOpen
            && Payloads(t.msgs) == QueueStep(Payloads(s.msgs), if op.OpInsert? then op.(durable := false) else op)
  {
    hide Frame, FrameLength, Deque.Victim, Tombstone;
  }

  /** An insert adds the message it is given behind the others, marked exactly if it is for the file. */
  lemma InsertAppends(s: Log, bp: Option<Properties>, body: Str, durable: bool)
    ensures Payloads(Insert(s, bp, body, durable).msgs) ==
            Payloads(s.msgs) + [Payload(bp, body, if durable && s.isOpen then [49] else [])]
  {
    hide Frame, FrameLength;
  }

  // ---------- whole files over runs ----------

  /** Everything but removing a stale message on a good stream, and compacting unmarked messages. */
  predicate Allowed(s: Log, op: Op) {
    && |Step(s, op).bytes| <= MAX_FILE
    && (op.OpInsert? ==> Fits(Deque.NewPayload(op.bp, op.body, true)))
    && (op.OpCompact? && op.tmpOpens ==> forall m <- s.msgs :: m.payload.valid == VALID)
    && (op.OpRemove? ==> MayRemove(s, op.id))
  }

  predicate MayRemove(s: Log, id: Str) {
    var k := Deque.Victim(Payloads(s.msgs), id);
    k < |s.msgs| && s.msgs[k].length != 0 && s.good ==> s.msgs[k].offset != NOWHERE
  }

  lemma WholeInsert(s: Log, ps: seq<Payload>, bp: Option<Properties>, body: Str, durable: bool)
    requires Whole(s, ps) && Allowed(s, OpInsert(bp, body, durable))
    ensures var p := Deque.NewPayload(bp, body, true);
            Whole(Insert(s, bp, body, durable), if durable && s.good then ps + [p] else ps)
  {
    hide Frame, FrameLength, Frames, Located, OnlyValid, Fits, MayRemove;
    var s', p := Insert(s, bp, body, durable), Deque.NewPayload(bp, body, true);
    var m := s'.msgs[|s.msgs|];
    var ps' := if durable && s.good then ps + [p] else ps;
    FrameIsNotEmpty(p);
    LiveOffsets(ps, 0);
    if durable && s.good {
      OneMoreFrame(ps, p);
      assert m == Message(p, |s.bytes|, FrameLength(p));
      forall o <- s.msgs ensures Placed(o, ps') { assert Placed(o, ps); }
      assert Placed(m, ps');
    }
    forall o <- s'.msgs ensures Placed(o, ps') { assert o in s.msgs || o == m; }
    forall i | 0 <= i < |s.msgs| ensures Placed(s.msgs[i], ps) {}
    assert Apart(s'.msgs);
  }

  lemma OneMoreFrame(ps: seq<Payload>, p: Payload)
    ensures Frames(ps + [p]) == Frames(ps) + Frame(p)
    ensures OnlyValid(Located(ps + [p], 0)) ==
            OnlyValid(Located(ps, 0)) + (if p.valid == VALID then [Message(p, |Frames(ps)|, FrameLength(p))] else [])
  {
    hide Frame, FrameLength;
    FramesConcat(ps, [p]);
    assert [p][1..] == [] && Frames([p]) == Frame(p) + [];
    LocatedConcat(ps, [p], 0);
    var m := Message(p, |Frames(ps)|, FrameLength(p));
    assert Located([p], |Frames(ps)|) == [m] + [] == [m];
    OnlyValidConcat(Located(ps, 0), [m]);
    OneMessage(m);
  }

  lemma OneMessage(m: Message)
    ensures OnlyValid([m]) == if m.payload.valid == VALID then [m] else []
  {
    assert [m][1..] == [];
  }

  lemma WithoutKeepsApart(msgs: seq<Message>, k: nat)
    requires Apart(msgs) && k < |msgs|
    ensures Apart(Deque.Without(msgs, k))
    ensures forall m <- Deque.Without(msgs, k) ::
              m in msgs && (m.length != 0 && m.offset != NOWHERE && msgs[k].length != 0 ==> m.offset != msgs[k].offset)
  {
    var less := Deque.Without(msgs, k);
    forall i | 0 <= i < |less| ensures less[i] == msgs[if i < k then i else i + 1] {}
  }

  lemma WholeRemove(s: Log, ps: seq<Payload>, id: Str) returns (ps': seq<Payload>)
    requires Whole(s, ps) && MayRemove(s, id)
    ensures Whole(Remove(s, id), ps')
  {
    hide Frames, Located, OnlyValid, Fits, Deque.Victim, Deque.Without, Apart, Minus;
    var k := Deque.Victim(Payloads(s.msgs), id);
    ps' := ps;
    if k < |s.msgs| {
      var m := s.msgs[k];
      assert Placed(m, ps);
      WithoutKeepsApart(s.msgs, k);
      if m.length != 0 && s.good {
        hide Invalidate;
        ps' := PlacedInvalidation(s, ps, m);
        forall o <- Remove(s, id).msgs ensures Placed(o, ps') {
          assert Placed(o, ps);
          if o.length != 0 && o.offset != NOWHERE { MinusKeeps(OnlyValid(Located(ps, 0)), m, o); }
        }
        InvalidateKeepsOpen(s, m);
      }
    }
  }

  lemma InvalidateKeepsOpen(s: Log, m: Message)
    ensures Invalidate(s, m).isOpen == s.isOpen && Invalidate(s, m).msgs == s.msgs
  {
    hide WriteAt, Tombstone;
  }

  lemma WholeCompact(s: Log, ps: seq<Payload>)
    requires Whole(s, ps) && Allowed(s, OpCompact(true))
    ensures Whole(Compact(s, true), Payloads(s.msgs))
  {
    hide Frame, FrameLength, Frames, Located, OnlyValid, Fits, Apart;
    var all := Payloads(s.msgs);
    forall p <- all ensures p.valid == VALID && Fits(p) {
      var i :| 0 <= i < |s.msgs| && all[i] == p;
      assert Placed(s.msgs[i], ps) && s.msgs[i] in s.msgs;
    }
    AllLive(all, 0);
    LiveOffsets(all, 0);
    assert Compact(s, true).msgs == OnlyValid(Located(all, 0));
  }

  lemma WholeStep(s: Log, ps: seq<Payload>, op: Op) returns (ps': seq<Payload>)
    requires Whole(s, ps) && Allowed(s, op)
    ensures Whole(Step(s, op), ps')
  {
    hide Insert, Remove, Frames, Located, OnlyValid, Placed, Apart, Fits, MayRemove;
    ps' := ps;
    match op
    case OpInsert(bp, body, durable) =>
      WholeInsert(s, ps, bp, body, durable);
      ps' := if durable && s.good then ps + [Deque.NewPayload(bp, body, true)] else ps;
    case OpRemove(id) => ps' := WholeRemove(s, ps, id);
    case OpStats =>
    case OpCompact(tmpOpens) =>
      if tmpOpens {
        WholeCompact(s, ps);
        ps' := Payloads(s.msgs);
      }
  }

  predicate AllowedRun(s: Log, ops: seq<Op>)
    decreases |ops|
  {
    ops == [] || (Allowed(s, ops[0]) && AllowedRun(Step(s, ops[0]), ops[1..]))
  }

  lemma {:induction false} WholeRun(s: Log, ps: seq<Payload>, ops: seq<Op>) returns (ps': seq<Payload>)
    requires Whole(s, ps) && AllowedRun(s, ops)
    ensures Whole(Run(s, ops), ps')
    decreases |ops|
  {
    hide Whole, Step, Allowed;
    ps' := ps;
    if ops != [] {
      ps' := WholeStep(s, ps, ops[0]);
      ps' := WholeRun(Step(s, ops[0]), ps', ops[1..]);
    }
  }

  /** A restart from a file of whole frames is such a state. */
  lemma RestartIsWhole(ps: seq<Payload>)
    requires (forall p <- ps :: Fits(p)) && |Frames(ps)| <= MAX_FILE
    ensures Whole(Restart(Frames(ps)), ps)
  {
    hide Frames, Located, OnlyValid, Fits, Recovered, EndsInGarbage, Apart;
    WholeFileRecovers(ps);
    RestartReadsTheFile(Frames(ps));
    LiveOffsets(ps, 0);
  }

  lemma ConsistentIsWholeOnDisk(s: Log)
    requires Consistent(s)
    ensures exists ps :: Whole(Restart(s.bytes), ps)
  {
    hide Frames, Located, OnlyValid, Fits, Stored, Restart, Whole;
    var ps :| Mirrors(s, ps);
    RestartIsWhole(ps);
  }

  /**
   From the restart of a consistent log, over every run of inserts, statistics, compactions of marked
   messages and allowed removals, stream failed or not: each marked message of the queue without a
   stale offset is found by recovery at its recorded place.
   */
  lemma PlacedMessagesAreFound(s: Log, ops: seq<Op>)
    requires Consistent(s) && AllowedRun(Restart(s.bytes), ops)
    ensures var t := Run(Restart(s.bytes), ops);
            forall m <- t.msgs :: m.payload.valid == VALID && m.offset != NOWHERE ==> m in Recovered(t.bytes)
  {
    hide Frames, Located, OnlyValid, Fits, Recovered, Restart, Consistent, AllowedRun, Run, Apart;
    ConsistentIsWholeOnDisk(s);
    var ps :| Whole(Restart(s.bytes), ps);
    var ps' := WholeRun(Restart(s.bytes), ps, ops);
    WholeFileRecovers(ps');
    forall m <- Run(Restart(s.bytes), ops).msgs ensures Placed(m, ps') {}
  }

  // ---------- compacted files ----------

  lemma {:induction false} NoneLiveIff(ps: seq<Payload>, pos: nat)
    ensures OnlyValid(Located(ps, pos)) == [] <==> forall p <- ps :: p.valid != VALID
  {
    hide Frame, FrameLength;
    if ps != [] {
      NoneLiveIff(ps[1..], pos + |Frame(ps[0])|);
      assert Located(ps, pos)[1..] == Located(ps[1..], pos + |Frame(ps[0])|);
      assert forall p :: p in ps <==> p == ps[0] || p in ps[1..];
    }
  }

  /** The live messages before and behind number k of a compacted queue. */
  function LiveAround(ps: seq<Payload>, k: nat): seq<Message>
    requires k < |ps|
  {
    OnlyValid(Located(ps[..k], 0)) + OnlyValid(Located(ps[k + 1..], |Frames(ps[..k + 1])|))
  }

  /** Invalidating one frame of a whole file keeps the live messages on both sides of it. */
  lemma RecoveredAround(before: seq<Payload>, p: Payload, after: seq<Payload>)
    requires p.valid == VALID && forall r <- before + [p] + after :: Fits(r)
    ensures Recovered(WriteAt(Frames(before + [p] + after), |Frames(before)| + 4, Tombstone(p))) ==
            OnlyValid(Located(before, 0)) + OnlyValid(Located(after, |Frames(before + [p])|))
  {
    hide Fits, Frames, Located, OnlyValid, WriteAt, Tombstone, Frame, FrameLength, Recovered;
    var q := p.(valid := INVALID);
    assert p in before + [p] + after;
    OverwriteInPlace(before, p, after);
    FitsAround(before, p, q, after);
    WholeFileRecovers(before + [q] + after);
    LiveWithout(before, q, after);
    OneMoreFrame(before, p);
  }

  lemma MarkedRemovalKeepsTheRest(s: Log, id: Str)
    requires s.isOpen && (forall m <- s.msgs :: |Serialize(m.payload)| + 3 < TWO32)
    requires |Frames(Payloads(s.msgs))| <= MAX_FILE
    requires var ps := Payloads(s.msgs); var k := Deque.Victim(ps, id); k < |ps| && ps[k].valid == VALID
    ensures var ps := Payloads(s.msgs);
            Recovered(Remove(Compact(s, true), id).bytes) == LiveAround(ps, Deque.Victim(ps, id))
  {
    hide Serialize, Deque.Victim, Frames, Located, OnlyValid, WriteAt, Tombstone, Frame, FrameLength, Recovered, Fits;
    var ps := Payloads(s.msgs);
    var k := Deque.Victim(ps, id);
    var before, p, after := ps[..k], ps[k], ps[k + 1..];
    LocatedPayloads(ps, 0);
    LocatedAt(ps, 0, k);
    Deque.Around(ps, k);
    FrameIsNotEmpty(p);
    SplitFrames(before, p, after);
    assert ps[..k + 1] == before + [p];
    forall r <- before + [p] + after ensures Fits(r) { FitsInTheQueue(s, r); }
    RecoveredAround(before, p, after);
  }

  /**
   Removing a message after a compaction keeps exactly the others if and only if it was marked or no
   marked one is behind it; with less than three megabytes behind an unmarked one.
   */
  lemma CompactedRemovalIff(s: Log, id: Str)
    requires s.isOpen && (forall m <- s.msgs :: |Serialize(m.payload)| + 3 < TWO32)
    requires |Frames(Payloads(s.msgs))| <= MAX_FILE
    requires var ps := Payloads(s.msgs);
             var k := Deque.Victim(ps, id);
             k < |ps| && (ps[k].valid == VALID || ps[k].valid == []) &&
             (ps[k].valid == [] ==> |Frames(ps[k + 1..])| < 4 + PHANTOM_LENGTH)
    ensures var ps := Payloads(s.msgs);
            var k := Deque.Victim(ps, id);
            Recovered(Remove(Compact(s, true), id).bytes) == LiveAround(ps, k) <==>
            ps[k].valid == VALID || forall p <- ps[k + 1..] :: p.valid != VALID
  {
    hide Serialize, Deque.Victim, Frames, Located, OnlyValid, Recovered, Remove, Compact;
    var ps := Payloads(s.msgs);
    var k := Deque.Victim(ps, id);
    if ps[k].valid == VALID {
      MarkedRemovalKeepsTheRest(s, id);
    } else {
      UnmarkedRemovalLosesTheRest(s, id);
      NoneLiveIff(ps[k + 1..], |Frames(ps[..k + 1])|);
      AddsNothingIff(OnlyValid(Located(ps[..k], 0)), OnlyValid(Located(ps[k + 1..], |Frames(ps[..k + 1])|)));
    }
  }

  lemma AddsNothingIff<T>(a: seq<T>, b: seq<T>)
    ensures a == a + b <==> b == []
  {
    if b == [] { assert a + b == a; } else { assert |a + b| > |a|; }
  }
}
