/**
 The message log of one queue as values: the bytes of the .mqd file, what scanning them
 yields, and the effect of each queue_message operation on the deque and on the bytes.
 */
module LogFile {
  import opened Bytes
  import opened WireCodec
  import Deque

  /** A queued message with the place of its frame in the file; length 0 means it has none. */
  datatype Message = Message(payload: Payload, offset: nat, length: nat)

  function Payloads(msgs: seq<Message>): (ps: seq<Payload>)
    ensures |ps| == |msgs|
    ensures forall i :: 0 <= i < |msgs| ==> ps[i] == msgs[i].payload
  {
    seq(|msgs|, i requires 0 <= i < |msgs| => msgs[i].payload)
  }

  // ---------- frames ----------

  /** [uint32 length][payload] */
  function Frame(p: Payload): Str {
    Le32(|Serialize(p)|) + Serialize(p)
  }

  /** The length field of a message: sizeof(len) + len, with len cut to 32 bits. */
  function FrameLength(p: Payload): nat {
    4 + Low32(|Serialize(p)|)
  }

  predicate Fits(p: Payload) {
    |Serialize(p)| < TWO32
  }

  /** Frames one after the other. */
  function Frames(ps: seq<Payload>): Str {
    if ps == [] then [] else Frame(ps[0]) + Frames(ps[1..])
  }

  /** The messages of these frames when the first one starts at pos. */
  function Located(ps: seq<Payload>, pos: nat): seq<Message> {
    if ps == [] then []
    else [Message(ps[0], pos, FrameLength(ps[0]))] + Located(ps[1..], pos + |Frame(ps[0])|)
  }

  // ---------- scanning ----------

  /** What stops the scan of s at its front: a torn frame, a payload that does not parse, or a frame to take. */
  datatype Next = Torn | Garbage | Entry(payload: Payload, size: nat)

  function ReadFrame(s: Str): (r: Next)
    ensures r.Entry? ==> 4 <= r.size <= |s|
  {
    if |s| < 4 then Torn
    else
      var len := FromLe32(s[..4]);
      if |s| - 4 < len then Torn
      else match Parse(s[4..4 + len])
        case None => Garbage
        case Some(p) => Entry(p, 4 + len)
  }

  /** Every frame the loops of recovery and get_stats read from s, which starts at file position pos. */
  function Scan(s: Str, pos: nat): seq<Message>
    decreases |s|
  {
    match ReadFrame(s)
    case Entry(p, size) => [Message(p, pos, size)] + Scan(s[size..], pos + size)
    case _ => []
  }

  /** Whether the scan ends at a payload that does not parse, the one ending without end-of-file. */
  predicate EndsInGarbage(s: Str)
    decreases |s|
  {
    match ReadFrame(s)
    case Entry(p, size) => EndsInGarbage(s[size..])
    case Garbage => true
    case Torn => false
  }

  /** The messages recovery keeps. */
  function OnlyValid(msgs: seq<Message>): seq<Message> {
    if msgs == [] then []
    else if msgs[0].payload.valid == VALID then [msgs[0]] + OnlyValid(msgs[1..])
    else OnlyValid(msgs[1..])
  }

  function Recovered(bytes: Str): seq<Message> {
    OnlyValid(Scan(bytes, 0))
  }

  // ---------- the stream ----------

  /** The bytes after writing data at p; a gap past the end fills with zeros. */
  function WriteAt(bytes: Str, p: nat, data: Str): Str {
    if data == [] then bytes
    else if p > |bytes| then bytes + seq(p - |bytes|, i => 0 as Byte) + data
    else bytes[..p] + data + (if p + |data| < |bytes| then bytes[p + |data|..] else [])
  }

  // ---------- the operations ----------

  datatype Log = Log(msgs: seq<Message>, bytes: Str, good: bool, isOpen: bool)

  /** What tellp returns on a failed stream, stored as a uint64. */
  const NOWHERE: nat := TWO64 - 1

  function Insert(s: Log, bp: Option<Properties>, body: Str, durable: bool): Log {
    var toFile := durable && s.isOpen;
    var p := Deque.NewPayload(bp, body, toFile);
    if !toFile then s.(msgs := s.msgs + [Message(p, 0, 0)])
    else if !s.good then s.(msgs := s.msgs + [Message(p, NOWHERE, FrameLength(p))])
    else s.(msgs := s.msgs + [Message(p, |s.bytes|, FrameLength(p))], bytes := s.bytes + Frame(p))
  }

  /** The payload bytes that overwrite a frame when its message is removed. */
  function Tombstone(p: Payload): Str {
    var data := Serialize(p.(valid := INVALID));
    data[..Low32(|data|)]
  }

  function Invalidate(s: Log, m: Message): Log {
    if m.length == 0 || !s.isOpen || !s.good then s
    else s.(bytes := WriteAt(s.bytes, (m.offset + 4) % TWO64, Tombstone(m.payload)))
  }

  function Remove(s: Log, id: Str): Log {
    var k := Deque.Victim(Payloads(s.msgs), id);
    if k == |s.msgs| then s
    else Invalidate(s, s.msgs[k]).(msgs := Deque.Without(s.msgs, k))
  }

  function Recovery(s: Log): Log {
    if s.isOpen && s.good then s.(msgs := s.msgs + Recovered(s.bytes), good := EndsInGarbage(s.bytes)) else s
  }

  function GetStats(s: Log): Log {
    if s.isOpen then s.(good := true) else s
  }

  function Compact(s: Log, tmpOpens: bool): Log {
    if s.isOpen && tmpOpens
    then s.(msgs := Located(Payloads(s.msgs), 0), bytes := Frames(Payloads(s.msgs)), good := true)
    else s
  }

  datatype Op =
    | OpInsert(bp: Option<Properties>, body: Str, durable: bool)
    | OpRemove(id: Str)
    | OpStats
    | OpCompact(tmpOpens: bool)

  function Step(s: Log, op: Op): Log {
    match op
    case OpInsert(bp, body, durable) => Insert(s, bp, body, durable)
    case OpRemove(id) => Remove(s, id)
    case OpStats => GetStats(s)
    case OpCompact(tmpOpens) => Compact(s, tmpOpens)
  }

  function Run(s: Log, ops: seq<Op>): Log
    decreases |ops|
  {
    if ops == [] then s else Run(Step(s, ops[0]), ops[1..])
  }
}
