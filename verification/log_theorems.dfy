/** What the message log guarantees, over whole runs, crashes and restarts, and where it stops. */
module LogTheorems {
  import opened Bytes
  import opened WireCodec
  import opened LogFile
  import opened LogRefinement
  import Deque

  // ---------- the log refines the queue ----------

  /** The same run on a plain queue of payloads. */
  function QueueStep(ps: seq<Payload>, op: Op): seq<Payload> {
    match op
    case OpInsert(bp, body, durable) => ps + [Deque.NewPayload(bp, body, durable)]
    case OpRemove(id) => Deque.Remove(ps, id)
    case _ => ps
  }

  function QueueRun(ps: seq<Payload>, ops: seq<Op>): seq<Payload>
    decreases |ops|
  {
    if ops == [] then ps else QueueRun(QueueStep(ps, ops[0]), ops[1..])
  }

  /** Failed or not, the file never influences what is in the queue. */
  lemma StepRefines(s: Log, op: Op)
    requires s.isOpen
    ensures Step(s, op).isOpen && Payloads(Step(s, op).msgs) == QueueStep(Payloads(s.msgs), op)
  {
    hide Frame, FrameLength, Deque.Victim, Tombstone, Frames, WriteAt;
    if op.OpCompact? && op.tmpOpens { LocatedPayloads(Payloads(s.msgs), 0); }
  }

  lemma {:induction false} LocatedPayloads(ps: seq<Payload>, pos: nat)
    ensures Payloads(Located(ps, pos)) == ps
  {
    hide Frame, FrameLength;
    if ps != [] { LocatedPayloads(ps[1..], pos + |Frame(ps[0])|); }
  }

  lemma {:induction false} RunRefines(s: Log, ops: seq<Op>)
    requires s.isOpen
    ensures Run(s, ops).isOpen && Payloads(Run(s, ops).msgs) == QueueRun(Payloads(s.msgs), ops)
    decreases |ops|
  {
    hide Step, QueueStep;
    if ops != [] {
      StepRefines(s, ops[0]);
      RunRefines(Step(s, ops[0]), ops[1..]);
    }
  }

  /**
   After any admissible run from a consistent log, a scan of the file finds exactly the stored
   messages of the queue, in order, each at its recorded place.
   */
  lemma LogRefinesQueue(s: Log, ops: seq<Op>)
    requires Consistent(s) && AdmissibleRun(s, ops)
    ensures var t := Run(s, ops);
            && Payloads(t.msgs) == QueueRun(Payloads(s.msgs), ops)
            && Recovered(t.bytes) == Stored(t.msgs)
            && forall m <- t.msgs :: m.length != 0 ==>
                 m.offset + m.length <= |t.bytes| && t.bytes[m.offset..m.offset + m.length] == Frame(m.payload)
  {
    hide Recovered, Frame, Stored, Step, QueueStep, AdmissibleRun;
    RunRefines(s, ops);
    RunKeeps(s, ops);
    var t := Run(s, ops);
    hide Mirrors;
    var ps :| Mirrors(t, ps);
    RecoveryFindsTheStored(t, ps);
    PlacesNameFrames(t, ps);
  }

  lemma PlacesNameFrames(t: Log, ps: seq<Payload>)
    requires Mirrors(t, ps)
    ensures forall m <- t.msgs :: m.length != 0 ==>
              m.offset + m.length <= |t.bytes| && t.bytes[m.offset..m.offset + m.length] == Frame(m.payload)
  {
    hide Mirrors, Frame;
    forall m <- t.msgs | m.length != 0
      ensures m.offset + m.length <= |t.bytes| && t.bytes[m.offset..m.offset + m.length] == Frame(m.payload)
    {
      var k :| 0 <= k < |t.msgs| && t.msgs[k] == m;
      OffsetsNameFrames(t, ps, k);
    }
  }

  // ---------- durable queues ----------

  /** The size limits alone. */
  predicate SizedRun(s: Log, ops: seq<Op>)
    decreases |ops|
  {
    ops == [] ||
    (&& |Step(s, ops[0]).bytes| <= MAX_FILE
     && (ops[0].OpInsert? ==> Fits(Deque.NewPayload(ops[0].bp, ops[0].body, true)))
     && SizedRun(Step(s, ops[0]), ops[1..]))
  }

  predicate DurableOnly(ops: seq<Op>) {
    forall op <- ops :: op.OpInsert? ==> op.durable
  }

  ghost predicate FullyStored(s: Log) {
    Consistent(s) && forall m <- s.msgs :: m.payload.valid == VALID
  }

  lemma {:induction false} DurableRunKeeps(s: Log, ops: seq<Op>)
    requires FullyStored(s) && SizedRun(s, ops) && DurableOnly(ops)
    ensures FullyStored(Run(s, ops))
    decreases |ops|
  {
    hide Mirrors, Step;
    if ops != [] {
      assert Admissible(s, ops[0]);
      StepKeeps(s, ops[0]);
      DurableStepKeeps(s, ops[0]);
      DurableRunKeeps(Step(s, ops[0]), ops[1..]);
    }
  }

  lemma DurableStepKeeps(s: Log, op: Op)
    requires s.isOpen && (forall m <- s.msgs :: m.payload.valid == VALID)
    requires op.OpInsert? ==> op.durable
    ensures forall m <- Step(s, op).msgs :: m.payload.valid == VALID
  {
    hide Step;
    StepRefines(s, op);
    var ps, ps' := Payloads(s.msgs), Payloads(Step(s, op).msgs);
    forall m <- Step(s, op).msgs ensures m.payload.valid == VALID {
      var i :| 0 <= i < |Step(s, op).msgs| && Step(s, op).msgs[i] == m;
      assert ps'[i] == m.payload;
    }
  }

  /**
   On a queue whose inserts are all durable every run, compactions included, keeps file and
   queue the same list of messages.
   */
  lemma DurableQueueIsItsFile(s: Log, ops: seq<Op>)
    requires FullyStored(s) && SizedRun(s, ops) && DurableOnly(ops)
    ensures Recovered(Run(s, ops).bytes) == Run(s, ops).msgs
  {
    hide Recovered;
    DurableRunKeeps(s, ops);
    var t := Run(s, ops);
    var ps :| Mirrors(t, ps);
    RecoveryFindsTheStored(t, ps);
    AllStored(t.msgs);
  }

  // ---------- crashes ----------

  /** The write an operation does to the open file: where, and which bytes. Compaction renames a new file instead. */
  function PendingWrite(s: Log, op: Op): (nat, Str) {
    match op
    case OpInsert(bp, body, true) => (|s.bytes|, Frame(Deque.NewPayload(bp, body, true)))
    case OpRemove(id) =>
      var k := Deque.Victim(Payloads(s.msgs), id);
      if k < |s.msgs| && s.msgs[k].length != 0
      then ((s.msgs[k].offset + 4) % TWO64, Tombstone(s.msgs[k].payload)) else (0, [])
    case _ => (0, [])
  }

  lemma PendingWriteIsTheStep(s: Log, op: Op)
    requires s.isOpen && s.good && !op.OpCompact?
    ensures var (at, data) := PendingWrite(s, op);
            Step(s, op).bytes == WriteAt(s.bytes, at, data)
  {
    hide Frame, Tombstone, Deque.Victim;
    if op.OpInsert? { FrameIsNotEmpty(Deque.NewPayload(op.bp, op.body, true)); }
  }

  lemma TornFrame(p: Payload, k: nat)
    requires Fits(p) && k < |Frame(p)|
    ensures ReadFrame(Frame(p)[..k]) == Torn
  {
    hide Serialize, Le32, FromLe32, Parse;
    if k >= 4 {
      assert Frame(p)[..k][..4] == Le32(|Serialize(p)|);
      Le32RoundTrip(|Serialize(p)|);
    }
  }

  lemma TornAppend(ps: seq<Payload>, p: Payload, k: nat)
    requires (forall q <- ps :: Fits(q)) && Fits(p) && k < |Frame(p)|
    ensures Recovered(Frames(ps) + Frame(p)[..k]) == OnlyValid(Located(ps, 0))
  {
    hide Frame, Frames, Located, OnlyValid, ReadFrame, Fits;
    var tail := Frame(p)[..k];
    ScanFrames(ps, tail, 0);
    TornFrame(p, k);
    assert Scan(tail, |Frames(ps)|) == [];
    assert Located(ps, 0) + [] == Located(ps, 0);
  }

  /** All but the last byte of the overwriting bytes are already in the file. */
  lemma TornOverwrite(s: Log, ps: seq<Payload>, k: nat, n: nat)
    requires Mirrors(s, ps) && k < |s.msgs| && s.msgs[k].length != 0
    requires n < |Tombstone(s.msgs[k].payload)|
    ensures WriteAt(s.bytes, (s.msgs[k].offset + 4) % TWO64, Tombstone(s.msgs[k].payload)[..n]) == s.bytes
  {
    hide Frame, FrameLength, Frames, Located, OnlyValid, Stored, Tombstone, Serialize, Le32, WriteAt, Fits;
    var m := s.msgs[k];
    SplitStored(s.msgs, k);
    var before, after := FrameOf(ps, 0, Stored(s.msgs[..k]), m, Stored(s.msgs[k + 1..]));
    assert m.payload in ps;
    SplitFrames(before, m.payload, after);
    OverwriteInPlace(before, m.payload, after);
    FrameOnDisk(before, m.payload, after, n);
  }

  lemma FrameOnDisk(before: seq<Payload>, p: Payload, after: seq<Payload>, n: nat)
    requires p.valid == VALID && Fits(p) && n < |Serialize(p.(valid := INVALID))|
    ensures var bytes, at := Frames(before) + Frame(p) + Frames(after), |Frames(before)| + 4;
            WriteAt(bytes, at, Serialize(p.(valid := INVALID))[..n]) == bytes
  {
    hide Serialize, Le32, Frames;
    ValidIsTheLastByte(p);
    var bytes, at := Frames(before) + Frame(p) + Frames(after), |Frames(before)| + 4;
    var data := Serialize(p.(valid := INVALID))[..n];
    assert data == Serialize(p)[..n];
    assert bytes[at..at + n] == data;
    assert bytes == bytes[..at] + bytes[at..at + n] + bytes[at + n..];
  }

  /**
   Stopping after any number of bytes of an operation's write leaves a file that recovers to
   the queue before the operation, or, once the last byte is there, to the queue after it.
   */
  lemma CrashAtomicity(s: Log, op: Op, n: nat)
    requires Consistent(s) && Admissible(s, op) && !op.OpCompact?
    requires n <= |PendingWrite(s, op).1|
    ensures var (at, data) := PendingWrite(s, op);
            Recovered(WriteAt(s.bytes, at, data[..n])) == Stored(if n < |data| then s.msgs else Step(s, op).msgs)
  {
    hide Frame, Tombstone, Deque.Victim, Step, Recovered, Stored, Mirrors;
    var ps :| Mirrors(s, ps);
    var (at, data) := PendingWrite(s, op);
    RecoveryFindsTheStored(s, ps);
    if n == |data| {
      assert data[..n] == data;
      PendingWriteIsTheStep(s, op);
      StepKeeps(s, op);
      var ps' :| Mirrors(Step(s, op), ps');
      RecoveryFindsTheStored(Step(s, op), ps');
    } else if op.OpInsert? {
      TornInsert(s, ps, Deque.NewPayload(op.bp, op.body, true), n);
    } else {
      TornOverwrite(s, ps, Deque.Victim(Payloads(s.msgs), op.id), n);
    }
  }

  lemma TornInsert(s: Log, ps: seq<Payload>, p: Payload, n: nat)
    requires Mirrors(s, ps) && Fits(p) && n < |Frame(p)|
    ensures Recovered(WriteAt(s.bytes, |s.bytes|, Frame(p)[..n])) == Stored(s.msgs)
  {
    hide Frame, Frames, Located, OnlyValid, Recovered, Stored, Fits;
    TornAppend(ps, p, n);
    assert WriteAt(s.bytes, |s.bytes|, Frame(p)[..n]) == s.bytes + Frame(p)[..n];
  }

  // ---------- restarts ----------

  /** A new process opens the file and recovers from it. */
  function Restart(bytes: Str): Log {
    Recovery(Log([], bytes, true, true))
  }

  lemma RestartReadsTheFile(bytes: Str)
    ensures Restart(bytes).msgs == Recovered(bytes)
  {
    hide Recovered;
    assert [] + Recovered(bytes) == Recovered(bytes);
  }

  lemma {:induction false} StoredHaveFrames(msgs: seq<Message>)
    ensures forall m <- Stored(msgs) :: m.length != 0 && m in msgs
  {
    if msgs != [] { StoredHaveFrames(msgs[1..]); }
  }

  /**
   A restart gives back exactly the stored messages, but leaves the stream failed; a get_stats
   or a compaction before the next insert makes the log whole again.
   */
  lemma RestartResumes(s: Log)
    requires Consistent(s)
    ensures var r := Restart(s.bytes);
            && r.msgs == Stored(s.msgs) && !r.good && r.bytes == s.bytes
            && FullyStored(GetStats(r))
            && FullyStored(Compact(r, true))
  {
    hide Recovered, EndsInGarbage, Stored, Frames, Located, OnlyValid, Fits;
    var ps :| Mirrors(s, ps);
    RecoveryFindsTheStored(s, ps);
    StoredHaveFrames(s.msgs);
    AllStored(Stored(s.msgs));
    var t := GetStats(Restart(s.bytes));
    assert t.msgs == Stored(s.msgs);
    assert Mirrors(t, ps);
    LiveIsValid(ps, 0);
    StoredCompacts(s, Restart(s.bytes));
  }

  /** A queue without messages and without a file starts whole. */
  lemma EmptyFileIsFullyStored()
    ensures FullyStored(Log([], [], true, true))
  {
    assert Mirrors(Log([], [], true, true), []);
  }

  lemma {:induction false} LiveIsValid(ps: seq<Payload>, pos: nat)
    ensures forall m <- OnlyValid(Located(ps, pos)) :: m.payload.valid == VALID
  {
    hide Frame, FrameLength;
    if ps != [] {
      LiveIsValid(ps[1..], pos + |Frame(ps[0])|);
      assert Located(ps, pos)[1..] == Located(ps[1..], pos + |Frame(ps[0])|);
    }
  }

  /** Compaction drops the removed frames, so a fully stored queue's file does not grow. */
  lemma CompactedIsNoLonger(s: Log, ps: seq<Payload>)
    requires Mirrors(s, ps) && Stored(s.msgs) == s.msgs
    ensures |Frames(Payloads(s.msgs))| <= |s.bytes|
  {
    hide Frames, Located, OnlyValid, Stored, Fits;
    LiveFramesFit(ps, 0);
  }

  lemma {:induction false} LiveFramesFit(ps: seq<Payload>, pos: nat)
    ensures |Frames(Payloads(OnlyValid(Located(ps, pos))))| <= |Frames(ps)|
  {
    hide Frame, FrameLength;
    if ps != [] {
      var rest := OnlyValid(Located(ps[1..], pos + |Frame(ps[0])|));
      LiveFramesFit(ps[1..], pos + |Frame(ps[0])|);
      assert Located(ps, pos)[1..] == Located(ps[1..], pos + |Frame(ps[0])|);
      if ps[0].valid == VALID {
        assert Payloads(OnlyValid(Located(ps, pos)))[1..] == Payloads(rest);
      } else {
        assert OnlyValid(Located(ps, pos)) == rest;
      }
    }
  }

  /**
   The documentation promises that a durable message is on disk once inserted. That holds
   exactly when the stream is good, and recovery leaves it failed.
   */
  lemma DurableInsertNeedsAGoodStream(s: Log, ps: seq<Payload>, bp: Option<Properties>, body: Str)
    requires s.isOpen && Mirrors(s, ps) && Admissible(s.(good := true), OpInsert(bp, body, true))
    ensures var t := Insert(s, bp, body, true);
            Recovered(t.bytes) == Recovered(s.bytes) + [t.msgs[|s.msgs|]] <==> s.good
  {
    hide Recovered, Frame, FrameLength, Stored, Fits;
    RecoveryFindsTheStored(s, ps);
    if s.good {
      var t := Insert(s, bp, body, true);
      InsertKeeps(s, ps, bp, body, true);
      RecoveryFindsTheStored(t, ps + [Deque.NewPayload(bp, body, true)]);
      StoredConcat(s.msgs, [t.msgs[|s.msgs|]]);
      StoredOne(t.msgs[|s.msgs|]);
      FrameIsNotEmpty(t.msgs[|s.msgs|].payload);
    }
  }

  predicate LeavesStreamFailed(op: Op) {
    op.OpInsert? || op.OpRemove? || (op.OpCompact? && !op.tmpOpens)
  }

  lemma FailedStep(s: Log, op: Op)
    requires s.isOpen && !s.good && LeavesStreamFailed(op)
    ensures Step(s, op).bytes == s.bytes && !Step(s, op).good && Step(s, op).isOpen
  {
    hide Frame, FrameLength, Deque.Victim, Tombstone, WriteAt;
  }

  lemma {:induction false} ValidHaveLengths(s: Log, ops: seq<Op>)
    requires forall op <- ops :: LeavesStreamFailed(op)
    requires forall m <- s.msgs :: m.payload.valid == VALID ==> m.length != 0
    ensures forall m <- Run(s, ops).msgs :: m.payload.valid == VALID ==> m.length != 0
    decreases |ops|
  {
    hide Step;
    if ops != [] {
      ValidHaveLength(s, ops[0]);
      ValidHaveLengths(Step(s, ops[0]), ops[1..]);
    }
  }

  lemma ValidHaveLength(s: Log, op: Op)
    requires LeavesStreamFailed(op)
    requires forall m <- s.msgs :: m.payload.valid == VALID ==> m.length != 0
    ensures forall m <- Step(s, op).msgs :: m.payload.valid == VALID ==> m.length != 0
  {
    hide Frame, FrameLength, Deque.Victim, Tombstone, WriteAt;
    if op.OpInsert? { FrameIsNotEmpty(Deque.NewPayload(op.bp, op.body, true)); }
  }

  /** On a failed stream no insert and no remove reaches the file. */
  lemma {:induction false} FailedStreamFreezesTheFile(s: Log, ops: seq<Op>)
    requires s.isOpen && !s.good && forall op <- ops :: LeavesStreamFailed(op)
    ensures Run(s, ops).bytes == s.bytes && !Run(s, ops).good && Run(s, ops).isOpen
    decreases |ops|
  {
    hide Step;
    if ops != [] {
      FailedStep(s, ops[0]);
      FailedStreamFreezesTheFile(Step(s, ops[0]), ops[1..]);
    }
  }

  /**
   get_stats makes the log usable again after a restart exactly when the stored messages are
   still the recovered ones; otherwise file and queue have parted.
   */
  lemma StatsHealsUntouchedQueues(s: Log, ops: seq<Op>)
    requires Consistent(s) && forall op <- ops :: LeavesStreamFailed(op)
    ensures var t := Run(Restart(s.bytes), ops);
            Consistent(GetStats(t)) <==> Stored(t.msgs) == Stored(s.msgs)
  {
    hide Recovered, Stored, Frames, Located, OnlyValid, Fits, Step, Restart;
    RestartResumes(s);
    var r := Restart(s.bytes);
    var t := Run(r, ops);
    FailedStreamFreezesTheFile(r, ops);
    ValidHaveLengths(r, ops);
    var ps :| Mirrors(s, ps);
    RecoveryFindsTheStored(s, ps);
    if Stored(t.msgs) == Stored(s.msgs) {
      assert Mirrors(GetStats(t), ps);
    }
    if Consistent(GetStats(t)) {
      var ps' :| Mirrors(GetStats(t), ps');
      RecoveryFindsTheStored(GetStats(t), ps');
    }
  }

  // ---------- compaction ----------

  lemma {:induction false} OnlyValidIsValid(msgs: seq<Message>)
    ensures forall m <- OnlyValid(msgs) :: m.payload.valid == VALID
  {
    if msgs != [] { OnlyValidIsValid(msgs[1..]); }
  }

  /**
   From any file and any offsets, compaction makes the file the gap-free image of the queue.
   Recovery then returns the queue, and the log is consistent, exactly when every message is marked
   valid.
   */
  lemma CompactionHeals(s: Log)
    requires s.isOpen && |Frames(Payloads(s.msgs))| <= MAX_FILE
    requires forall m <- s.msgs :: Fits(m.payload)
    ensures var t := Compact(s, true);
            && Payloads(t.msgs) == Payloads(s.msgs)
            && t.bytes == Frames(Payloads(s.msgs))
            && (forall i :: 0 <= i < |t.msgs| ==> t.msgs[i].offset == |Frames(Payloads(s.msgs)[..i])|)
            && (Recovered(t.bytes) == t.msgs <==> forall m <- s.msgs :: m.payload.valid == VALID)
            && (Consistent(t) <==> forall m <- s.msgs :: m.payload.valid == VALID)
  {
    hide Frame, FrameLength, Frames, Located, OnlyValid, Scan, Stored, Fits;
    var ps, t := Payloads(s.msgs), Compact(s, true);
    LocatedPayloads(ps, 0);
    LocatedLength(ps, 0);
    forall i | 0 <= i < |t.msgs| ensures t.msgs[i].offset == |Frames(ps[..i])| { LocatedAt(ps, 0, i); }
    ScanFrames(ps, [], 0);
    ScanNothing(|Frames(ps)|);
    assert Frames(ps) + [] == Frames(ps) && Located(ps, 0) + [] == Located(ps, 0);
    LiveIffValid(ps);
    SameMarks(s.msgs);
    if forall m <- s.msgs :: m.payload.valid == VALID { CompactMirrors(s); }
    if Consistent(t) { ConsistentWholeFile(t); }
  }

  lemma SameMarks(msgs: seq<Message>)
    ensures (forall m <- msgs :: m.payload.valid == VALID) <==> forall p <- Payloads(msgs) :: p.valid == VALID
  {
    var ps := Payloads(msgs);
    forall i | 0 <= i < |msgs| ensures msgs[i] in msgs && ps[i] in ps && ps[i] == msgs[i].payload {}
  }

  /** All frames of a list are live exactly when all of it is marked valid. */
  lemma LiveIffValid(ps: seq<Payload>)
    ensures OnlyValid(Located(ps, 0)) == Located(ps, 0) <==> forall p <- ps :: p.valid == VALID
  {
    hide Located, OnlyValid, FrameLength, Frames;
    OnlyValidIsValid(Located(ps, 0));
    LocatedLength(ps, 0);
    if forall p <- ps :: p.valid == VALID { AllLive(ps, 0); }
    if OnlyValid(Located(ps, 0)) == Located(ps, 0) {
      forall p <- ps ensures p.valid == VALID {
        var i :| 0 <= i < |ps| && ps[i] == p;
        LocatedAt(ps, 0, i);
        assert Located(ps, 0)[i] in OnlyValid(Located(ps, 0));
      }
    }
  }

  /** In a consistent log whose messages all have frames, recovery returns all of them. */
  lemma ConsistentWholeFile(t: Log)
    requires Consistent(t) && t.msgs == Located(Payloads(t.msgs), 0)
    ensures Recovered(t.bytes) == t.msgs
  {
    hide Recovered, Stored, Located;
    var ps :| Mirrors(t, ps);
    RecoveryFindsTheStored(t, ps);
    LocatedHaveFrames(Payloads(t.msgs), 0);
    AllStored(t.msgs);
  }

  lemma {:induction false} LocatedHaveFrames(ps: seq<Payload>, pos: nat)
    ensures forall m <- Located(ps, pos) :: m.length != 0
  {
    hide Frame, FrameLength;
    if ps != [] {
      FrameIsNotEmpty(ps[0]);
      LocatedHaveFrames(ps[1..], pos + |Frame(ps[0])|);
    }
  }

  lemma ScanNothing(pos: nat)
    ensures Scan([], pos) == []
  {
  }

  /**
   Crash in the middle of a write, restart, compact: the log is consistent again and holds
   exactly the stored messages from before the operation, or from after it.
   */
  lemma CrashRestartCompact(s: Log, op: Op, n: nat)
    requires Consistent(s) && Admissible(s, op) && !op.OpCompact?
    requires n <= |PendingWrite(s, op).1|
    ensures var (at, data) := PendingWrite(s, op);
            var survivor := if n < |data| then s else Step(s, op);
            var t := Compact(Restart(WriteAt(s.bytes, at, data[..n])), true);
            FullyStored(t) && Payloads(t.msgs) == Payloads(Stored(survivor.msgs))
  {
    hide Recovered, EndsInGarbage, Stored, Frames, Located, OnlyValid, PendingWrite, WriteAt, Step, Mirrors;
    var (at, data) := PendingWrite(s, op);
    StepKeeps(s, op);
    CrashAtomicity(s, op, n);
    var survivor := if n < |data| then s else Step(s, op);
    StoredCompacts(survivor, Restart(WriteAt(s.bytes, at, data[..n])));
  }

  lemma StoredCompacts(s: Log, r: Log)
    requires Consistent(s) && r.isOpen && r.msgs == Stored(s.msgs)
    ensures FullyStored(Compact(r, true)) && Payloads(Compact(r, true).msgs) == Payloads(Stored(s.msgs))
  {
    hide Stored, Frames, Located, OnlyValid, Fits;
    var ps :| Mirrors(s, ps);
    StoredHaveFrames(s.msgs);
    AllStored(Stored(s.msgs));
    assert Mirrors(s.(msgs := r.msgs), ps);
    LiveIsValid(ps, 0);
    LivePayloads(ps, 0);
    CompactedIsNoLonger(s.(msgs := r.msgs), ps);
    CompactionHeals(r);
    var t := Compact(r, true);
    forall m <- t.msgs ensures m.payload.valid == VALID {
      var i :| 0 <= i < |t.msgs| && t.msgs[i] == m;
      assert Payloads(t.msgs)[i] == Payloads(r.msgs)[i];
    }
  }

  /** Every message is marked valid and fits a frame: all that durable inserts and recovery put in a queue. */
  predicate Storable(s: Log) {
    forall m <- s.msgs :: m.payload.valid == VALID && Fits(m.payload)
  }

  lemma StorableStep(s: Log, op: Op)
    requires s.isOpen && Storable(s) && SizedRun(s, [op]) && DurableOnly([op])
    ensures Step(s, op).isOpen && Storable(Step(s, op))
  {
    hide Step, Fits;
    assert op in [op] && [op][0] == op;
    StepRefines(s, op);
    var ps, ps' := Payloads(s.msgs), Payloads(Step(s, op).msgs);
    forall m <- Step(s, op).msgs ensures m.payload.valid == VALID && Fits(m.payload) {
      var i :| 0 <= i < |Step(s, op).msgs| && Step(s, op).msgs[i] == m;
      assert ps'[i] == m.payload;
    }
  }

  /** A fully stored log is one, whatever else it is. */
  lemma FullyStoredIsStorable(s: Log)
    requires FullyStored(s)
    ensures Storable(s)
  {
    hide Fits, Frames, Located, OnlyValid, Stored, Recovered;
    var ps :| Mirrors(s, ps);
    RecoveryFindsTheStored(s, ps);
    AllStored(s.msgs);
    LivePayloads(ps, 0);
  }

  /** The run compacts somewhere, or asks for statistics before anything is inserted or removed. */
  predicate Heals(ops: seq<Op>) {
    OpCompact(true) in ops || StatsFirst(ops)
  }

  predicate StatsFirst(ops: seq<Op>) {
    ops != [] && (ops[0] == OpStats || (ops[0] == OpCompact(false) && StatsFirst(ops[1..])))
  }

  lemma CompactedIsFullyStored(s: Log)
    requires s.isOpen && Storable(s) && |Compact(s, true).bytes| <= MAX_FILE
    ensures FullyStored(Compact(s, true))
  {
    hide Fits, Frames, Located, OnlyValid, Stored, Recovered, Consistent;
    CompactionHeals(s);
    var t := Compact(s, true);
    forall m <- t.msgs ensures m.payload.valid == VALID {
      var i :| 0 <= i < |t.msgs| && t.msgs[i] == m;
      assert Payloads(t.msgs)[i] == Payloads(s.msgs)[i];
    }
  }

  /**
   From any file and offsets, stream failed or not, one compaction anywhere in a durable run is
   enough: however the file looked before, file and queue are the same list at the end.
   */
  lemma {:induction false} CompactionHealsTheRun(s: Log, ops: seq<Op>)
    requires s.isOpen && Storable(s) && SizedRun(s, ops) && DurableOnly(ops) && OpCompact(true) in ops
    ensures FullyStored(Run(s, ops)) && Recovered(Run(s, ops).bytes) == Run(s, ops).msgs
    decreases |ops|
  {
    hide Fits, Storable, FullyStored, Recovered, Step;
    var next := Step(s, ops[0]);
    if ops[0] == OpCompact(true) {
      assert next == Compact(s, true) by { CompactionIsAStep(s); }
      CompactedIsFullyStored(s);
      DurableRunKeeps(next, ops[1..]);
      DurableQueueIsItsFile(next, ops[1..]);
    } else {
      assert SizedRun(s, [ops[0]]);
      StorableStep(s, ops[0]);
      CompactionHealsTheRun(next, ops[1..]);
    }
  }

  lemma CompactionIsAStep(s: Log)
    ensures Step(s, OpCompact(true)) == Compact(s, true)
  {
  }

  lemma {:induction false} StatsHealTheRun(s: Log, ops: seq<Op>)
    requires s.isOpen && FullyStored(GetStats(s)) && SizedRun(s, ops) && DurableOnly(ops) && StatsFirst(ops)
    ensures FullyStored(Run(s, ops)) && Recovered(Run(s, ops).bytes) == Run(s, ops).msgs
    decreases |ops|
  {
    hide FullyStored, Recovered;
    if ops[0] == OpStats {
      DurableRunKeeps(GetStats(s), ops[1..]);
      DurableQueueIsItsFile(GetStats(s), ops[1..]);
    } else {
      StatsHealTheRun(s, ops[1..]);
    }
  }

  // ---------- statistics ----------

  function CountInvalid(msgs: seq<Message>): nat {
    if msgs == [] then 0 else (if msgs[0].payload.valid != VALID then 1 else 0) + CountInvalid(msgs[1..])
  }

  lemma {:induction false} LiveCount(msgs: seq<Message>)
    ensures |OnlyValid(msgs)| + CountInvalid(msgs) == |msgs|
  {
    if msgs != [] { LiveCount(msgs[1..]); }
  }

  /** total - invalid, as get_stats counts frames, is the number of stored messages. */
  lemma StatsCountTheStored(s: Log)
    requires Consistent(s)
    ensures |Scan(s.bytes, 0)| - CountInvalid(Scan(s.bytes, 0)) == |Stored(s.msgs)|
  {
    var ps :| Mirrors(s, ps);
    RecoveryFindsTheStored(s, ps);
    LiveCount(Scan(s.bytes, 0));
  }
}
