/** How a removal destroys other messages: what the conditions of the theorems shut out, each with a run. */
module LogLimits {
  import opened Bytes
  import opened WireCodec
  import opened LogFile
  import opened LogRefinement
  import opened LogTheorems
  import Deque

  // ---------- a stale offset ----------

  lemma TombstoneStart(p: Payload)
    requires Fits(p) && p.valid == VALID
    ensures Tombstone(p) == Serialize(p.(valid := INVALID)) && |Tombstone(p)| >= 3 && Tombstone(p)[0] >= 10
  {
    hide Serialize;
    ValidIsTheLastByte(p);
    FirstFieldTag(p.(valid := INVALID));
  }

  /** A serialised payload starts with the tag of field 1, 2 or 3. */
  lemma FirstFieldTag(p: Payload)
    requires p.valid == INVALID
    ensures |Serialize(p)| >= 3 && Serialize(p)[0] >= 10
  {
    hide Varint;
    var fs := PayloadFields(p);
    var f := fs[0];
    assert f.Len? && 1 <= f.num <= 3;
    assert Varint(f.num * 8 + 2) == [(f.num * 8 + 2) as Byte] by { SmallVarint(f.num * 8 + 2); }
    var front := PayloadFields(p.(valid := []));
    assert fs == front + [Len(3, INVALID)];
    FieldsBytesConcat(front, [Len(3, INVALID)]);
    LastFieldBytes(INVALID);
  }

  lemma SmallVarint(n: nat)
    requires n < 128
    ensures Varint(n) == [n as Byte]
  {
  }

  /** Headers with a high last byte announce more than a short file holds. */
  lemma HeaderTooLong(bytes: Str)
    requires 4 <= |bytes| < 0x0A00_0000 && bytes[3] >= 10
    ensures ReadFrame(bytes) == Torn && Recovered(bytes) == []
  {
    hide Parse;
    assert bytes[..4][3] == bytes[3];
    assert FromLe32(bytes[..4]) >= 0x0A00_0000;
  }

  /** Bytes written from byte 3 on start with the last byte of the first header. */
  lemma WrittenFromThree(bytes: Str, data: Str)
    requires data != []
    ensures var t := WriteAt(bytes, 3, data);
            |t| >= 3 + |data| && |t| >= |bytes| && t[3] == data[0]
  {
  }

  /**
   A message inserted while the stream was failed keeps the offset 2^64 - 1, and removing it on a good
   stream writes from byte 3 of the file. Whatever the file held, as long as it stays under 160 MiB
   recovery finds nothing in it any more.
   */
  lemma StaleRemovalLosesTheFile(s: Log, id: Str)
    requires s.isOpen && s.good
    requires var k := Deque.Victim(Payloads(s.msgs), id);
             k < |s.msgs| && s.msgs[k].offset == NOWHERE && s.msgs[k].length != 0 &&
             s.msgs[k].payload.valid == VALID && Fits(s.msgs[k].payload)
    requires |Remove(s, id).bytes| < 0x0A00_0000
    ensures Recovered(Remove(s, id).bytes) == []
  {
    hide Tombstone, Recovered, Deque.Victim, WriteAt, Fits;
    var m := s.msgs[Deque.Victim(Payloads(s.msgs), id)];
    TombstoneStart(m.payload);
    WrittenFromThree(s.bytes, Tombstone(m.payload));
    HeaderTooLong(WriteAt(s.bytes, 3, Tombstone(m.payload)));
  }

  // ---------- a compacted message without a valid field ----------

  /** Marking a payload that had no valid field adds three bytes. */
  lemma MarkAddsThreeBytes(p: Payload)
    requires p.valid == []
    ensures Serialize(p.(valid := INVALID)) == Serialize(p) + [26, 1, 48]
  {
    var q := p.(valid := INVALID);
    assert PayloadFields(q) == PayloadFields(p) + [Len(3, INVALID)];
    FieldsBytesConcat(PayloadFields(p), [Len(3, INVALID)]);
    LastFieldBytes(INVALID);
  }

  /** The length those bytes announce as the start of a header: 26 + 256 + 48 * 65536. */
  const PHANTOM_LENGTH: nat := 3146010

  lemma PhantomFrameIsTorn(rest: Str)
    requires |rest| >= 3 && rest[..3] == [26, 1, 48] && |rest| < 4 + PHANTOM_LENGTH
    ensures ReadFrame(rest) == Torn
  {
    hide Parse;
    if |rest| >= 4 {
      assert rest[..4][0] == rest[..3][0] && rest[..4][1] == rest[..3][1] && rest[..4][2] == rest[..3][2];
      assert FromLe32(rest[..4]) >= PHANTOM_LENGTH;
    }
  }

  /** The file after the overwrite: the frame has kept its header and the next one has lost three bytes. */
  lemma OverwriteSpills(before: seq<Payload>, p: Payload, after: seq<Payload>)
    requires p.valid == [] && |Serialize(p)| + 3 < TWO32
    ensures var rest := Frames(after);
            && Tombstone(p) == Serialize(p) + [26, 1, 48]
            && WriteAt(Frames(before + [p] + after), |Frames(before)| + 4, Tombstone(p)) ==
               Frames(before + [p]) + ([26, 1, 48] + (if |rest| > 3 then rest[3..] else []))
  {
    hide Serialize, Le32, Frames;
    MarkAddsThreeBytes(p);
    SplitFrames(before, p, after);
    SplitFrames(before, p, []);
    assert Frames([]) == [] by { NoFrames(); }
    assert before + [p] + [] == before + [p];
    SpillAt(Frames(before), Le32(|Serialize(p)|), Serialize(p), Frames(after), [26, 1, 48]);
  }

  lemma NoFrames()
    ensures Frames([]) == []
  {
  }

  lemma SpillAt(a: Str, header: Str, data: Str, rest: Str, extra: Str)
    requires |header| == 4 && |extra| == 3
    ensures WriteAt(a + (header + data) + rest, |a| + 4, data + extra) ==
            a + (header + data) + [] + (extra + (if |rest| > 3 then rest[3..] else []))
  {
    var bytes, at := a + (header + data) + rest, |a| + 4;
    assert bytes[..at] == a + header;
    if |rest| > 3 { assert bytes[at + |data| + 3..] == rest[3..]; }
  }

  /**
   A compaction gives an unmarked message a frame; removing it then overwrites the start of the next
   header. Recovery finds the live messages in front of it and, with less than three megabytes behind
   it, none of those.
   */
  lemma UnmarkedRemovalLosesTheRest(s: Log, id: Str)
    requires s.isOpen
    requires forall m <- s.msgs :: |Serialize(m.payload)| + 3 < TWO32
    requires |Frames(Payloads(s.msgs))| <= MAX_FILE
    requires var ps := Payloads(s.msgs);
             var k := Deque.Victim(ps, id);
             k < |ps| && ps[k].valid == [] && |Frames(ps[k + 1..])| < 4 + PHANTOM_LENGTH
    ensures var ps := Payloads(s.msgs);
            Recovered(Remove(Compact(s, true), id).bytes) == OnlyValid(Located(ps[..Deque.Victim(ps, id)], 0))
  {
    hide Serialize, Deque.Victim, Frames, Located, OnlyValid, Scan, WriteAt, Tombstone, ReadFrame, Frame, FrameLength;
    var ps := Payloads(s.msgs);
    var k := Deque.Victim(ps, id);
    var before, p, after := ps[..k], ps[k], ps[k + 1..];
    var c := Compact(s, true);
    LocatedPayloads(ps, 0);
    LocatedAt(ps, 0, k);
    Deque.Around(ps, k);
    FrameIsNotEmpty(p);
    SplitFrames(before, p, after);
    OverwriteSpills(before, p, after);
    var rest := [26, 1, 48] + (if |Frames(after)| > 3 then Frames(after)[3..] else []);
    assert Remove(c, id).bytes == Frames(before + [p]) + rest;
    forall q <- before + [p] ensures Fits(q) { FitsInTheQueue(s, q); }
    ScanFrames(before + [p], rest, 0);
    assert rest[..3] == [26, 1, 48];
    PhantomFrameIsTorn(rest);
    TornScan(rest, |Frames(before + [p])|);
    LocatedConcat(before, [p], 0);
    OnlyUnmarked(p, |Frames(before)|);
    OnlyValidConcat(Located(before, 0), Located([p], |Frames(before)|));
    assert Located(before + [p], 0) + [] == Located(before + [p], 0);
  }

  lemma FitsInTheQueue(s: Log, q: Payload)
    requires q in Payloads(s.msgs) && forall m <- s.msgs :: |Serialize(m.payload)| + 3 < TWO32
    ensures Fits(q)
  {
    hide Serialize;
    var i :| 0 <= i < |s.msgs| && Payloads(s.msgs)[i] == q;
    assert s.msgs[i] in s.msgs;
  }

  lemma TornScan(rest: Str, pos: nat)
    requires ReadFrame(rest) == Torn
    ensures Scan(rest, pos) == []
  {
    hide ReadFrame;
  }

  lemma OnlyUnmarked(p: Payload, pos: nat)
    requires p.valid != VALID
    ensures OnlyValid(Located([p], pos)) == []
  {
    hide Frame, FrameLength;
    assert [p][1..] == [];
    assert Located([p], pos) == [Message(p, pos, FrameLength(p))];
  }

  // ---------- the runs ----------

  lemma SmallSerialize(body: Str, valid: Str)
    requires |body| <= 1 && |valid| <= 1
    ensures Serialize(Payload(None, body, valid)) ==
            (if body == [] then [] else [18, 1] + body) + (if valid == [] then [] else [26, 1] + valid)
  {
    SmallField(2, body);
    SmallField(3, valid);
    FieldsBytesConcat(LenField(2, body), LenField(3, valid));
    assert PayloadFields(Payload(None, body, valid)) == LenField(2, body) + LenField(3, valid);
  }

  lemma SmallField(num: nat, data: Str)
    requires num < 4 && |data| <= 1
    ensures FieldsBytes(LenField(num, data)) == if data == [] then [] else [(num * 8 + 2) as Byte, 1] + data
  {
    if data != [] {
      assert LenField(num, data)[1..] == [];
      assert Varint(num * 8 + 2) == [(num * 8 + 2) as Byte];
      assert Varint(1) == [1];
    }
  }

  /**
   A message inserted while the stream was failed keeps the offset 2^64 - 1. Removing it after
   a get_stats writes from byte 3 of the file, and a later durable insert on the good stream is
   lost: here on an empty file.
   */
  lemma StaleOffsetLosesALaterInsert()
    ensures var ops := [OpInsert(None, [], true), OpStats, OpRemove([]), OpInsert(None, [], true)];
            var t := Run(Restart([]), ops);
            t.good && |Stored(t.msgs)| == 1 && Recovered(t.bytes) == []
  {
    var m := Message(Payload(None, [], VALID), NOWHERE, 7);
    var s0, s1 := Log([], [], false, true), Log([m], [], false, true);
    assert Restart([]) == s0;
    assert Step(s0, OpInsert(None, [], true)) == s1 by { SmallSerialize([], VALID); }
    assert Step(s1, OpStats) == s1.(good := true);
    StaleRemoval(s1.(good := true));
    LateInsert();
    RunFour(s0, OpInsert(None, [], true), OpStats, OpRemove([]), OpInsert(None, [], true));
  }

  lemma StaleRemoval(s: Log)
    requires s == Log([Message(Payload(None, [], VALID), NOWHERE, 7)], [], true, true)
    ensures Step(s, OpRemove([])) == Log([], [0, 0, 0, 26, 1, 48], true, true)
  {
    hide Le32, Serialize;
    SmallSerialize([], INVALID);
    assert Tombstone(s.msgs[0].payload) == [26, 1, 48];
    assert WriteAt([], 3, [26, 1, 48]) == [0, 0, 0, 26, 1, 48];
  }

  lemma LateInsert()
    ensures var t := Step(Log([], [0, 0, 0, 26, 1, 48], true, true), OpInsert(None, [], true));
            t.good && |Stored(t.msgs)| == 1 && Recovered(t.bytes) == []
  {
    hide Serialize, Parse;
    SmallSerialize([], VALID);
    var t := Step(Log([], [0, 0, 0, 26, 1, 48], true, true), OpInsert(None, [], true));
    assert t.msgs == [Message(Payload(None, [], VALID), 6, 7)];
    StoredOne(t.msgs[0]);
    assert t.bytes[..4] == [0, 0, 0, 26] && |t.bytes| == 13;
    assert ReadFrame(t.bytes) == Torn;
  }

  lemma RunFour(s: Log, a: Op, b: Op, c: Op, d: Op)
    ensures Run(s, [a, b, c, d]) == Step(Step(Step(Step(s, a), b), c), d)
  {
    hide Step;
    assert [a, b, c, d][1..] == [b, c, d] && [b, c, d][1..] == [c, d] && [c, d][1..] == [d] && [d][1..] == [];
    var s1, s2, s3 := Step(s, a), Step(Step(s, a), b), Step(Step(Step(s, a), b), c);
    assert Run(s3, [d]) == Run(Step(s3, d), []);
    assert Run(s2, [c, d]) == Run(s3, [d]);
    assert Run(s1, [b, c, d]) == Run(s2, [c, d]);
  }

  /**
   Compacting a queue that holds a non-durable message gives that message a frame without a
   valid field; removing it writes three bytes too many, over the header of the next frame.
   */
  lemma MixedCompactionLosesTheNextMessage()
    ensures var s := Log([], [], true, true);
            var ops := [OpInsert(None, [65], false), OpInsert(None, [66], true), OpCompact(true), OpRemove([])];
            var t := Run(s, ops);
            t.good && |Stored(t.msgs)| == 1 && Recovered(t.bytes) == []
  {
    var a, b := Payload(None, [65], []), Payload(None, [66], VALID);
    var s2 := Log([Message(a, 0, 0), Message(b, 0, 10)], Frame(b), true, true);
    var s0 := Log([], [], true, true);
    assert Step(Step(s0, OpInsert(None, [65], false)), OpInsert(None, [66], true)) == s2 by { MixedFrames(); }
    MixedRemoval(s2);
    RunFour(s0, OpInsert(None, [65], false), OpInsert(None, [66], true), OpCompact(true), OpRemove([]));
  }

  lemma MixedFrames()
    ensures Frame(Payload(None, [65], [])) == [3, 0, 0, 0, 18, 1, 65]
    ensures Frame(Payload(None, [66], VALID)) == [6, 0, 0, 0, 18, 1, 66, 26, 1, 49]
  {
    SmallSerialize([65], []);
    SmallSerialize([66], VALID);
  }

  lemma MixedLocated()
    ensures var a, b := Payload(None, [65], []), Payload(None, [66], VALID);
            Located([a, b], 0) == [Message(a, 0, 7), Message(b, 7, 10)] && Frames([a, b]) == Frame(a) + Frame(b)
  {
    MixedFrames();
    SmallSerialize([65], []);
    SmallSerialize([66], VALID);
    var a, b := Payload(None, [65], []), Payload(None, [66], VALID);
    assert [a, b][1..] == [b] && [b][1..] == [];
    assert Located([b], 7) == [Message(b, 7, 10)] + [];
    assert Frames([b]) == Frame(b) + [];
  }

  lemma MixedRemoval(s: Log)
    requires var a, b := Payload(None, [65], []), Payload(None, [66], VALID);
             s == Log([Message(a, 0, 0), Message(b, 0, 10)], Frame(b), true, true)
    ensures var t := Step(Step(s, OpCompact(true)), OpRemove([]));
            t.good && |Stored(t.msgs)| == 1 && Recovered(t.bytes) == []
  {
    hide Serialize, Scan, Stored, Tombstone, WriteAt;
    var a, b := Payload(None, [65], []), Payload(None, [66], VALID);
    assert Payloads(s.msgs) == [a, b];
    MixedFrames();
    MixedLocated();
    SmallSerialize([65], []);
    SmallSerialize([66], VALID);
    assert [a, b][1..] == [b];
    SplitFrames([], b, []);
    assert [] + [b] + [] == [b] && Frames([]) == [];
    UnmarkedRemovalLosesTheRest(s, []);
    assert OnlyValid(Located([a, b][..0], 0)) == [];
    var t := Step(Step(s, OpCompact(true)), OpRemove([]));
    assert t.msgs == [Message(b, 7, 10)];
    StoredOne(t.msgs[0]);
  }
}
