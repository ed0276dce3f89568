/** Delivery order and conservation: every queue of the broker, over whole runs, is a FIFO with removals. */
module Delivery {
  import opened Bytes
  import opened WireCodec
  import opened Host
  import opened Broker
  import Deque

  // ---------- one queue ----------

  datatype QueueOp = Put(p: Payload) | Take | Drop(id: Str)

  function QueueStep(ps: seq<Payload>, op: QueueOp): seq<Payload> {
    match op
    case Put(p) => ps + [p]
    case Take => if ps == [] then ps else ps[1..]
    case Drop(id) => Deque.Remove(ps, id)
  }

  function QueueRun(ps: seq<Payload>, ops: seq<QueueOp>): seq<Payload>
    decreases |ops|
  {
    if ops == [] then ps else QueueRun(QueueStep(ps, ops[0]), ops[1..])
  }

  /** The messages handed out by the takes of a run, in the order of the takes. */
  function Delivered(ps: seq<Payload>, ops: seq<QueueOp>): seq<Payload>
    decreases |ops|
  {
    if ops == [] then []
    else
      var rest := Delivered(QueueStep(ps, ops[0]), ops[1..]);
      if ops[0].Take? && ps != [] then [ps[0]] + rest else rest
  }

  lemma {:induction false} QueueRunConcat(ps: seq<Payload>, a: seq<QueueOp>, b: seq<QueueOp>)
    ensures QueueRun(ps, a + b) == QueueRun(QueueRun(ps, a), b)
    decreases |a|
  {
    if a == [] {
      assert a + b == b;
    } else {
      assert (a + b)[1..] == a[1..] + b;
      QueueRunConcat(QueueStep(ps, a[0]), a[1..], b);
    }
  }

  // ---------- what a broker step does to one queue ----------

  /** The message by which a queue grew, if it did. */
  function Growth(before: seq<Payload>, after: seq<Payload>): seq<QueueOp> {
    if |after| > |before| then [Put(after[|before|])] else []
  }

  ghost function Effects(h: Host, mh: HeaderMatch, op: Op, q: Str): seq<QueueOp>
    requires Proper(h, op) && q in h.stores && q in Step(h, mh, op).stores
  {
    match op
    case OpPublish(_, _, _) => Growth(h.stores[q], Step(h, mh, op).stores[q])
    case OpPublishTo(_, _, _, _) => Growth(h.stores[q], Step(h, mh, op).stores[q])
    case OpPublishEx(_, _, _, _) => Growth(h.stores[q], Step(h, mh, op).stores[q])
    case OpConsume(q') => if q == q' then [Take] else []
    case OpAck(q', id) => if q == q' then [Drop(id)] else []
    case OpNack(q', id, requeue, order) =>
      if q' !in h.stores || q' !in h.queues || requeue then []
      else if h.queues[q'].dlqExchange == [] then (if q == q' then [Drop(id)] else [])
      else
        var k := Deque.FirstWithId(h.stores[q'], id);
        if k == |h.stores[q']| then []
        else
          var sent := SendDeadLetter(h, mh, h.queues[q'], order, h.stores[q'][k].body).0;
          (if q in sent.stores then Growth(h.stores[q], sent.stores[q]) else []) + (if q == q' then [Drop(id)] else [])
    case OpQuery(order) =>
      var k := FirstWithMessages(h, order);
      if k < |order| && order[k] == q then [Take] else []
    case _ => []
  }

  /** The mark a message stored in this queue carries: "1" if it goes to the file. */
  function Mark(h: Host, q: Str): Str {
    if IsDurable(h, q) then VALID else []
  }

  /** after is before, or before with one message more at its tail, marked so. */
  predicate AtMostOneMore(before: seq<Payload>, after: seq<Payload>, mark: Str) {
    after == before || (|after| == |before| + 1 && after[..|before|] == before && after[|before|].valid == mark)
  }

  lemma AppendGrows(h: Host, target: Str, bp: Option<Properties>, body: Str, q: Str)
    requires q in h.stores
    ensures q in Append(h, target, bp, body).stores
    ensures AtMostOneMore(h.stores[q], Append(h, target, bp, body).stores[q], Mark(h, q))
    ensures q != target ==> Append(h, target, bp, body).stores[q] == h.stores[q]
    ensures Mark(Append(h, target, bp, body), q) == Mark(h, q)
  {
  }

  lemma BasicPublishGrows(h: Host, target: Str, bp: Option<Properties>, body: Str, q: Str)
    requires q in h.stores
    ensures q in BasicPublish(h, target, bp, body).0.stores
    ensures AtMostOneMore(h.stores[q], BasicPublish(h, target, bp, body).0.stores[q], Mark(h, q))
  {
    hide Decimal, Append;
    match bp
    case None => AppendGrows(h, target, Some(DEFAULT_PROPERTIES.(routingKey := target)), body, q);
    case Some(p) =>
      var h1 := if p.id == [] then h.(lastId := h.lastId + 1) else h;
      var p1 := if p.id == [] then p.(id := Decimal(h.lastId + 1)) else p;
      AppendGrows(h1, target, Some(if p.routingKey == [] then p1.(routingKey := target) else p1), body, q);
  }

  lemma PublishToGrows(h: Host, ts: seq<Str>, bp: Option<Properties>, body: Str, q: Str)
    requires q in h.stores && Distinct(ts)
    ensures q in PublishTo(h, ts, bp, body).0.stores
    ensures AtMostOneMore(h.stores[q], PublishTo(h, ts, bp, body).0.stores[q], Mark(h, q))
  {
    hide Decimal, Append;
    if bp.Some? && ts != [] {
      var p := bp.value;
      var h1 := if p.id == [] then h.(lastId := h.lastId + 1) else h;
      var p1 := if p.id == [] then p.(id := Decimal(h.lastId + 1)) else p;
      if NamelessFirst(ts, p.routingKey) {
        assert ts[0] != ts[1];
        AppendGrows(h1, [], Some(p1), body, q);
        AppendGrows(Append(h1, [], Some(p1), body), ts[1], Some(p1.(routingKey := ts[1])), body, q);
      } else {
        var p2 := if p.routingKey == [] then p1.(routingKey := ts[0]) else p1;
        var target := Chosen(ts, p.routingKey);
        if target.Some? { AppendGrows(h1, target.value, Some(p2), body, q); }
      }
    }
  }

  lemma PublishExGrows(h: Host, e: Str, key: Str, bp: Option<Properties>, body: Str, q: Str)
    requires q in h.stores
    ensures q in PublishEx(h, e, key, bp, body).0.stores
    ensures AtMostOneMore(h.stores[q], PublishEx(h, e, key, bp, body).0.stores[q], Mark(h, q))
  {
    hide Reached;
  }

  /** Every message put is marked so. */
  predicate Marked(ops: seq<QueueOp>, mark: Str) {
    forall i :: 0 <= i < |ops| && ops[i].Put? ==> ops[i].p.valid == mark
  }

  lemma GrowthRuns(before: seq<Payload>, after: seq<Payload>, mark: Str)
    requires AtMostOneMore(before, after, mark)
    ensures QueueRun(before, Growth(before, after)) == after && Marked(Growth(before, after), mark)
  {
    if |after| > |before| {
      assert Growth(before, after)[1..] == [];
      assert after == before + [after[|before|]];
    }
  }

  lemma OneStepRuns(ps: seq<Payload>, op: QueueOp)
    ensures QueueRun(ps, [op]) == QueueStep(ps, op)
  {
    hide QueueStep;
    assert [op][1..] == [];
  }

  /** Whatever the broker does to a queue that stays declared is a run of puts, takes and drops. */
  lemma StepIsQueueRun(h: Host, mh: HeaderMatch, op: Op, q: Str)
    requires Proper(h, op) && q in h.stores && q in Step(h, mh, op).stores
    ensures Step(h, mh, op).stores[q] == QueueRun(h.stores[q], Effects(h, mh, op, q))
    ensures Marked(Effects(h, mh, op, q), Mark(h, q))
  {
    if IsMessageOp(op) {
      MessageStepIsQueueRun(h, mh, op, q);
    } else {
      hide QueueRun, Mark;
      NothingRuns(h.stores[q]);
    }
  }

  predicate IsPublish(op: Op) {
    op.OpPublish? || op.OpPublishTo? || op.OpPublishEx?
  }

  lemma PublishStepGrows(h: Host, mh: HeaderMatch, op: Op, q: Str)
    requires Proper(h, op) && IsPublish(op) && q in h.stores
    ensures q in Step(h, mh, op).stores
    ensures AtMostOneMore(h.stores[q], Step(h, mh, op).stores[q], Mark(h, q))
  {
    hide PublishTo, PublishEx, BasicPublish, Targets, Mark, AtMostOneMore;
    match op
    case OpPublish(t, bp, body) => BasicPublishGrows(h, t, bp, body, q);
    case OpPublishTo(e, order, bp, body) =>
      TargetsAreDistinct(h, mh, e, bp, order);
      PublishToGrows(h, Targets(h, mh, e, bp, order), bp, body, q);
    case OpPublishEx(e, key, bp, body) => PublishExGrows(h, e, key, bp, body, q);
  }

  lemma MessageStepIsQueueRun(h: Host, mh: HeaderMatch, op: Op, q: Str)
    requires Proper(h, op) && IsMessageOp(op) && q in h.stores && q in Step(h, mh, op).stores
    ensures Step(h, mh, op).stores[q] == QueueRun(h.stores[q], Effects(h, mh, op, q))
    ensures Marked(Effects(h, mh, op, q), Mark(h, q))
  {
    if IsPublish(op) {
      hide Step, QueueRun, Mark, AtMostOneMore, Growth, Proper;
      PublishStepGrows(h, mh, op, q);
      GrowthRuns(h.stores[q], Step(h, mh, op).stores[q], Mark(h, q));
    } else {
      hide QueueRun, Nack, Consume, RemoveFrom, Mark, SendDeadLetter;
      match op
      case OpNack(q', id, requeue, order) => NackIsQueueRun(h, mh, q', id, requeue, order, q);
      case OpAck(q', id) => RemovalIsQueueRun(h, q', id, q);
      case OpConsume(q') => RemovalIsQueueRun(h, q', [], q);
      case OpQuery(order) =>
        var k := FirstWithMessages(h, order);
        if k < |order| { RemovalIsQueueRun(h, order[k], [], q); }
        NothingRuns(h.stores[q]);
    }
  }

  lemma RemovalIsQueueRun(h: Host, q': Str, id: Str, q: Str)
    requires q in h.stores
    ensures q in Consume(h, q').0.stores && q in RemoveFrom(h, q', id).stores
    ensures Consume(h, q').0.stores[q] == QueueRun(h.stores[q], if q == q' then [Take] else [])
    ensures RemoveFrom(h, q', id).stores[q] == QueueRun(h.stores[q], if q == q' then [Drop(id)] else [])
  {
    hide QueueRun, Deque.Remove;
    NothingRuns(h.stores[q]);
    OneStepRuns(h.stores[q], Take);
    OneStepRuns(h.stores[q], Drop(id));
  }

  lemma NothingRuns(ps: seq<Payload>)
    ensures QueueRun(ps, []) == ps
  {
  }

  lemma NackIsQueueRun(h: Host, mh: HeaderMatch, q': Str, id: Str, requeue: bool, order: seq<Str>, q: Str)
    requires Proper(h, OpNack(q', id, requeue, order)) && q in h.stores
    requires q in Nack(h, mh, q', id, requeue, order).stores
    ensures Nack(h, mh, q', id, requeue, order).stores[q] ==
            QueueRun(h.stores[q], Effects(h, mh, OpNack(q', id, requeue, order), q))
    ensures Marked(Effects(h, mh, OpNack(q', id, requeue, order), q), Mark(h, q))
  {
    hide PublishTo, QueueRun, Targets, Deque.Remove, DeadLetterProperties;
    NothingRuns(h.stores[q]);
    OneStepRuns(h.stores[q], Drop(id));
    if q' in h.stores && q' in h.queues && !requeue && h.queues[q'].dlqExchange != [] {
      var info, k := h.queues[q'], Deque.FirstWithId(h.stores[q'], id);
      if k < |h.stores[q']| {
        var h0, p := h.(lastId := h.lastId + 1), Some(DeadLetterProperties(h, info));
        var body := h.stores[q'][k].body;
        TargetsAreDistinct(h0, mh, info.dlqExchange, p, order);
        PublishToGrows(h0, Targets(h0, mh, info.dlqExchange, p, order), p, body, q);
        var sent := SendDeadLetter(h, mh, info, order, body).0;
        GrowthRuns(h.stores[q], sent.stores[q], Mark(h, q));
        OneStepRuns(sent.stores[q], Drop(id));
        var grown := Growth(h.stores[q], sent.stores[q]);
        QueueRunConcat(h.stores[q], grown, [Drop(id)]);
        assert grown + [] == grown;
      }
    }
  }

  /** The queue is not deleted in this run. */
  predicate Keeps(ops: seq<Op>, q: Str) {
    forall i :: 0 <= i < |ops| ==> ops[i] != OpDeleteQueue(q)
  }

  // ---------- what the broker hands out ----------

  /** The messages of queue q that an operation hands to its caller; a query hands over the body alone. */
  ghost function Handed(h: Host, op: Op, q: Str): seq<Payload>
    requires q in h.stores && (op.OpQuery? ==> forall k <- op.order :: k in h.stores)
  {
    match op
    case OpConsume(q') => if q' == q then Found(Consume(h, q').1) else []
    case OpQuery(order) =>
      var k := FirstWithMessages(h, order);
      if k < |order| && order[k] == q then Found(Consume(h, q).1) else []
    case _ => []
  }

  function Found(m: Option<Payload>): seq<Payload> {
    if m.Some? then [m.value] else []
  }

  /** A query answers with the body of the one message it hands out, or with nothing. */
  lemma QueryAnswers(h: Host, order: seq<Str>)
    requires forall q <- order :: q in h.stores
    ensures (forall q <- order :: Handed(h, OpQuery(order), q) == []) ==> Query(h, order) == (h, [])
    ensures forall q <- order :: Handed(h, OpQuery(order), q) != [] ==>
              Handed(h, OpQuery(order), q) == [h.stores[q][0]] && Query(h, order).1 == h.stores[q][0].body
  {
    var k := FirstWithMessages(h, order);
    if k < |order| { assert order[k] in order && Handed(h, OpQuery(order), order[k]) != []; }
  }

  /** The effects of an operation take from a queue exactly the messages it hands out. */
  lemma HandedIsDelivered(h: Host, mh: HeaderMatch, op: Op, q: Str)
    requires Proper(h, op) && q in h.stores && q in Step(h, mh, op).stores
    ensures Handed(h, op, q) == Delivered(h.stores[q], Effects(h, mh, op, q))
  {
    hide Step, Nack, SendDeadLetter, Growth, QueueStep;
    var ops := Effects(h, mh, op, q);
    if op.OpConsume? || op.OpQuery? {
      TakeDelivers(h.stores[q]);
    } else {
      NoTakes(h, mh, op, q);
      NothingDelivered(h.stores[q], ops);
    }
  }

  predicate TakesNothing(ops: seq<QueueOp>) {
    forall i :: 0 <= i < |ops| ==> !ops[i].Take?
  }

  lemma NoTakes(h: Host, mh: HeaderMatch, op: Op, q: Str)
    requires Proper(h, op) && q in h.stores && q in Step(h, mh, op).stores
    requires !op.OpConsume? && !op.OpQuery?
    ensures TakesNothing(Effects(h, mh, op, q))
  {
    hide Step, Nack, SendDeadLetter;
  }

  lemma TakeDelivers(ps: seq<Payload>)
    ensures Delivered(ps, []) == []
    ensures Delivered(ps, [Take]) == if ps == [] then [] else [ps[0]]
  {
    assert [Take][1..] == [];
  }

  lemma {:induction false} NothingDelivered(ps: seq<Payload>, ops: seq<QueueOp>)
    requires TakesNothing(ops)
    ensures Delivered(ps, ops) == []
    decreases |ops|
  {
    hide QueueStep;
    if ops != [] { NothingDelivered(QueueStep(ps, ops[0]), ops[1..]); }
  }

  lemma {:induction false} DeliveredConcat(ps: seq<Payload>, a: seq<QueueOp>, b: seq<QueueOp>)
    ensures Delivered(ps, a + b) == Delivered(ps, a) + Delivered(QueueRun(ps, a), b)
    decreases |a|
  {
    hide QueueStep;
    if a == [] {
      assert a + b == b;
    } else {
      assert (a + b)[1..] == a[1..] + b;
      DeliveredConcat(QueueStep(ps, a[0]), a[1..], b);
    }
  }

  /** All messages of queue q that a run hands to callers, in order. */
  ghost function AllHanded(h: Host, mh: HeaderMatch, ops: seq<Op>, q: Str): seq<Payload>
    requires IsRun(h, mh, ops) && q in h.stores && Keeps(ops, q)
    decreases |ops|
  {
    if ops == [] then []
    else
      StepKeepsQueue(h, mh, ops[0], q);
      Handed(h, ops[0], q) + AllHanded(Step(h, mh, ops[0]), mh, ops[1..], q)
  }

  lemma {:induction false} AllHandedIsDelivered(h: Host, mh: HeaderMatch, ops: seq<Op>, q: Str)
    requires IsRun(h, mh, ops) && q in h.stores && Keeps(ops, q)
    ensures AllHanded(h, mh, ops, q) == Delivered(h.stores[q], AllEffects(h, mh, ops, q))
    decreases |ops|
  {
    hide Step, Effects, Handed, QueueRun, Proper, Mark;
    if ops != [] {
      var h1 := Step(h, mh, ops[0]);
      StepKeepsQueue(h, mh, ops[0], q);
      StepIsQueueRun(h, mh, ops[0], q);
      HandedIsDelivered(h, mh, ops[0], q);
      AllHandedIsDelivered(h1, mh, ops[1..], q);
      DeliveredConcat(h.stores[q], Effects(h, mh, ops[0], q), AllEffects(h1, mh, ops[1..], q));
    }
  }

  lemma StepKeepsQueue(h: Host, mh: HeaderMatch, op: Op, q: Str)
    requires Proper(h, op) && q in h.stores && op != OpDeleteQueue(q)
    ensures q in Step(h, mh, op).stores
    ensures q in h.queues ==> Mark(Step(h, mh, op), q) == Mark(h, q) && q in Step(h, mh, op).queues
  {
    if IsMessageOp(op) {
      hide Step;
      MessageOpsKeepTopology(h, mh, op);
    }
  }

  ghost function AllEffects(h: Host, mh: HeaderMatch, ops: seq<Op>, q: Str): seq<QueueOp>
    requires IsRun(h, mh, ops) && q in h.stores && Keeps(ops, q)
    decreases |ops|
  {
    if ops == [] then []
    else
      StepKeepsQueue(h, mh, ops[0], q);
      Effects(h, mh, ops[0], q) + AllEffects(Step(h, mh, ops[0]), mh, ops[1..], q)
  }

  lemma {:induction false} RunIsQueueRun(h: Host, mh: HeaderMatch, ops: seq<Op>, q: Str)
    requires IsRun(h, mh, ops) && q in h.stores && Keeps(ops, q)
    ensures q in Run(h, mh, ops).stores
    ensures Run(h, mh, ops).stores[q] == QueueRun(h.stores[q], AllEffects(h, mh, ops, q))
    ensures q in h.queues ==> Marked(AllEffects(h, mh, ops, q), Mark(h, q))
    decreases |ops|
  {
    hide Step, Effects, QueueRun, Proper, Mark;
    if ops == [] {
      NothingRuns(h.stores[q]);
    } else {
      var h1 := Step(h, mh, ops[0]);
      StepKeepsQueue(h, mh, ops[0], q);
      StepIsQueueRun(h, mh, ops[0], q);
      RunIsQueueRun(h1, mh, ops[1..], q);
      QueueRunConcat(h.stores[q], Effects(h, mh, ops[0], q), AllEffects(h1, mh, ops[1..], q));
    }
  }

  // ---------- the history of one queue ----------

  /**
   Messages are numbered as they are put: queue, taken and dropped hold their numbers, front
   first and in the order of taking and dropping.
   */
  datatype Trace = Trace(queue: seq<nat>, put: seq<Payload>, taken: seq<nat>, dropped: seq<nat>)

  function Numbers(n: nat): (s: seq<nat>)
    ensures |s| == n
  {
    if n == 0 then [] else Numbers(n - 1) + [n - 1]
  }

  predicate InRange(s: seq<nat>, n: nat) {
    forall i :: 0 <= i < |s| ==> s[i] < n
  }

  /** The messages with these numbers. */
  function Named(labels: seq<nat>, put: seq<Payload>): (ps: seq<Payload>)
    requires InRange(labels, |put|)
    ensures |ps| == |labels|
  {
    seq(|labels|, i requires 0 <= i < |labels| => put[labels[i]])
  }

  lemma NamedAppend(labels: seq<nat>, put: seq<Payload>, p: Payload)
    requires InRange(labels, |put|)
    ensures InRange(labels + [|put|], |put + [p]|) && InRange(labels, |put + [p]|)
    ensures Named(labels + [|put|], put + [p]) == Named(labels, put) + [p]
    ensures Named(labels, put + [p]) == Named(labels, put)
  {
  }

  lemma NamedConcat(a: seq<nat>, b: seq<nat>, put: seq<Payload>)
    requires InRange(a, |put|) && InRange(b, |put|)
    ensures InRange(a + b, |put|) && Named(a + b, put) == Named(a, put) + Named(b, put)
  {
  }

  lemma NamedWithout(labels: seq<nat>, put: seq<Payload>, k: nat)
    requires InRange(labels, |put|) && k < |labels|
    ensures InRange(Deque.Without(labels, k), |put|)
    ensures Named(Deque.Without(labels, k), put) == Deque.Without(Named(labels, put), k)
  {
  }

  function TraceStep(t: Trace, op: QueueOp): Trace
    requires InRange(t.queue, |t.put|)
  {
    match op
    case Put(p) => t.(queue := t.queue + [|t.put|], put := t.put + [p])
    case Take => if t.queue == [] then t else t.(queue := t.queue[1..], taken := t.taken + [t.queue[0]])
    case Drop(id) =>
      var k := Deque.Victim(Named(t.queue, t.put), id);
      if k == |t.queue| then t
      else t.(queue := Deque.Without(t.queue, k), dropped := t.dropped + [t.queue[k]])
  }

  predicate Increasing(s: seq<nat>) {
    forall i, j :: 0 <= i < j < |s| ==> s[i] < s[j]
  }

  predicate TraceInv(t: Trace) {
    && InRange(t.taken + t.queue, |t.put|)
    && Increasing(t.taken + t.queue)
    && multiset(t.queue) + multiset(t.taken) + multiset(t.dropped) == multiset(Numbers(|t.put|))
  }

  lemma InvRange(t: Trace)
    requires InRange(t.taken + t.queue, |t.put|)
    ensures InRange(t.queue, |t.put|) && InRange(t.taken, |t.put|)
  {
    assert forall i :: 0 <= i < |t.queue| ==> t.queue[i] == (t.taken + t.queue)[|t.taken| + i];
    assert forall i :: 0 <= i < |t.taken| ==> t.taken[i] == (t.taken + t.queue)[i];
  }

  lemma TraceStepOrder(t: Trace, op: QueueOp)
    requires InRange(t.taken + t.queue, |t.put|) && Increasing(t.taken + t.queue) && InRange(t.queue, |t.put|)
    ensures var u := TraceStep(t, op); InRange(u.taken + u.queue, |u.put|) && Increasing(u.taken + u.queue)
  {
    hide Named, Deque.Victim, Deque.Without;
    match op
    case Put(p) => PutOrder(t.taken, t.queue, |t.put|);
    case Take => if t.queue != [] { TakeOrder(t.taken, t.queue); }
    case Drop(id) =>
      var k := Deque.Victim(Named(t.queue, t.put), id);
      if k < |t.queue| { DropOrder(t.taken, t.queue, k, |t.put|); }
  }

  lemma PutOrder(a: seq<nat>, s: seq<nat>, n: nat)
    requires InRange(a + s, n) && Increasing(a + s)
    ensures InRange(a + (s + [n]), n + 1) && Increasing(a + (s + [n]))
  {
    assert a + (s + [n]) == (a + s) + [n];
  }

  lemma TakeOrder(a: seq<nat>, s: seq<nat>)
    requires s != []
    ensures (a + [s[0]]) + s[1..] == a + s
  {
  }

  lemma DropOrder(a: seq<nat>, s: seq<nat>, k: nat, n: nat)
    requires k < |s| && Increasing(a + s) && InRange(a + s, n)
    ensures Increasing(a + Deque.Without(s, k)) && InRange(a + Deque.Without(s, k), n)
  {
    var all, less, at := a + s, a + Deque.Without(s, k), |a| + k;
    forall i | 0 <= i < |less| ensures less[i] == all[if i < at then i else i + 1] {}
    forall i, j | 0 <= i < j < |less| ensures less[i] < less[j] {
      assert less[i] == all[if i < at then i else i + 1] && less[j] == all[if j < at then j else j + 1];
    }
  }

  lemma TakeCounts(q: seq<nat>, t: seq<nat>, d: seq<nat>)
    requires q != []
    ensures multiset(q[1..]) + multiset(t + [q[0]]) + multiset(d) == multiset(q) + multiset(t) + multiset(d)
  {
    assert q == [q[0]] + q[1..];
  }

  lemma DropCounts(q: seq<nat>, t: seq<nat>, d: seq<nat>, k: nat)
    requires k < |q|
    ensures multiset(Deque.Without(q, k)) + multiset(t) + multiset(d + [q[k]]) ==
            multiset(q) + multiset(t) + multiset(d)
  {
    Deque.Around(q, k);
    assert multiset(q) == multiset(q[..k]) + multiset{q[k]} + multiset(q[k + 1..]);
  }

  lemma PutCounts(q: seq<nat>, t: seq<nat>, d: seq<nat>, n: nat)
    requires multiset(q) + multiset(t) + multiset(d) == multiset(Numbers(n))
    ensures multiset(q + [n]) + multiset(t) + multiset(d) == multiset(Numbers(n + 1))
  {
    assert multiset(q + [n]) == multiset(q) + multiset{n};
    assert multiset(Numbers(n) + [n]) == multiset(Numbers(n)) + multiset{n};
  }

  lemma TraceStepConserves(t: Trace, op: QueueOp)
    requires InRange(t.queue, |t.put|)
    requires multiset(t.queue) + multiset(t.taken) + multiset(t.dropped) == multiset(Numbers(|t.put|))
    ensures var u := TraceStep(t, op);
            multiset(u.queue) + multiset(u.taken) + multiset(u.dropped) == multiset(Numbers(|u.put|))
  {
    hide Named, Deque.Victim, Deque.Without, Numbers;
    match op
    case Put(p) => PutCounts(t.queue, t.taken, t.dropped, |t.put|);
    case Take => if t.queue != [] { TakeCounts(t.queue, t.taken, t.dropped); }
    case Drop(id) =>
      var k := Deque.Victim(Named(t.queue, t.put), id);
      if k < |t.queue| { DropCounts(t.queue, t.taken, t.dropped, k); }
  }

  lemma TraceInvStep(t: Trace, op: QueueOp)
    requires TraceInv(t) && InRange(t.queue, |t.put|)
    ensures TraceInv(TraceStep(t, op))
  {
    hide TraceStep, Numbers;
    TraceStepOrder(t, op);
    TraceStepConserves(t, op);
  }

  /** Forgetting the numbers gives the queue's own step, and what it hands out. */
  lemma TraceStepIsQueueStep(t: Trace, op: QueueOp)
    requires InRange(t.queue, |t.put|) && InRange(t.taken, |t.put|)
    ensures var u, ps := TraceStep(t, op), Named(t.queue, t.put);
            && InRange(u.queue, |u.put|) && InRange(u.taken, |u.put|)
            && Named(u.queue, u.put) == QueueStep(ps, op)
            && Named(u.taken, u.put) == Named(t.taken, t.put) + (if op.Take? && ps != [] then [ps[0]] else [])
  {
    match op
    case Put(p) =>
      hide Named;
      NamedAppend(t.queue, t.put, p);
      NamedAppend(t.taken, t.put, p);
    case Take =>
      if t.queue != [] {
        NamedWithout(t.queue, t.put, 0);
        NamedConcat(t.taken, [t.queue[0]], t.put);
      }
    case Drop(id) =>
      hide Named, Deque.Victim, Deque.Without;
      var k := Deque.Victim(Named(t.queue, t.put), id);
      if k < |t.queue| { NamedWithout(t.queue, t.put, k); } else { WithoutNothing(Named(t.queue, t.put)); }
  }

  lemma WithoutNothing<T>(s: seq<T>)
    ensures Deque.Without(s, |s|) == s
  {
  }

  function TraceRun(t: Trace, ops: seq<QueueOp>): Trace
    requires TraceInv(t)
    decreases |ops|
  {
    if ops == [] then t
    else
      InvRange(t);
      TraceInvStep(t, ops[0]);
      TraceRun(TraceStep(t, ops[0]), ops[1..])
  }

  /** The history of a queue that starts with these messages. */
  function Started(ps: seq<Payload>): (t: Trace)
    ensures TraceInv(t)
  {
    NumbersCount(|ps|);
    assert [] + Numbers(|ps|) == Numbers(|ps|);
    Trace(Numbers(|ps|), ps, [], [])
  }

  lemma {:induction false} NumbersCount(n: nat)
    ensures InRange(Numbers(n), n) && Increasing(Numbers(n))
    ensures forall i :: 0 <= i < n ==> Numbers(n)[i] == i
  {
    if n > 0 { NumbersCount(n - 1); }
  }

  lemma StartedNames(ps: seq<Payload>)
    ensures InRange(Started(ps).queue, |ps|) && Named(Started(ps).queue, ps) == ps
  {
    NumbersCount(|ps|);
  }

  lemma {:induction false} TraceRunIsQueueRun(t: Trace, ops: seq<QueueOp>)
    requires TraceInv(t) && InRange(t.queue, |t.put|) && InRange(t.taken, |t.put|)
    ensures var u := TraceRun(t, ops);
            && TraceInv(u) && InRange(u.queue, |u.put|) && InRange(u.taken, |u.put|)
            && Named(u.queue, u.put) == QueueRun(Named(t.queue, t.put), ops)
            && Named(u.taken, u.put) == Named(t.taken, t.put) + Delivered(Named(t.queue, t.put), ops)
    decreases |ops|
  {
    hide TraceInv, TraceStep, QueueStep, Named, InRange;
    if ops != [] {
      var op := ops[0];
      TraceInvStep(t, op);
      TraceStepIsQueueStep(t, op);
      TraceRunIsQueueRun(TraceStep(t, op), ops[1..]);
    }
  }

  /**
   First in, first out, at most once. For every run of puts, takes and drops: the messages
   taken come out in the order they were put, none twice and none that is still queued; and
   the messages put are exactly the ones queued, taken and dropped.
   */
  lemma FifoAtMostOnce(ps: seq<Payload>, ops: seq<QueueOp>)
    ensures var t := TraceRun(Started(ps), ops);
            && Increasing(t.taken + t.queue)
            && InRange(t.taken, |t.put|) && InRange(t.queue, |t.put|)
            && Named(t.taken, t.put) == Delivered(ps, ops)
            && Named(t.queue, t.put) == QueueRun(ps, ops)
            && multiset(t.queue) + multiset(t.taken) + multiset(t.dropped) == multiset(Numbers(|t.put|))
  {
    hide TraceRun, QueueRun, Delivered, Numbers;
    StartedNames(ps);
    TraceRunIsQueueRun(Started(ps), ops);
    assert Named([], ps) + Delivered(ps, ops) == Delivered(ps, ops);
  }

  /**
   So over any broker run that does not delete it, the messages of a queue that consume and query
   hand out come in the order they were put, none twice and none that is still queued.
   */
  lemma BrokerQueuesAreFifo(h: Host, mh: HeaderMatch, ops: seq<Op>, q: Str)
    requires IsRun(h, mh, ops) && q in h.stores && Keeps(ops, q)
    ensures q in Run(h, mh, ops).stores
    ensures var t := TraceRun(Started(h.stores[q]), AllEffects(h, mh, ops, q));
            && InRange(t.taken, |t.put|) && InRange(t.queue, |t.put|)
            && Increasing(t.taken + t.queue)
            && Named(t.queue, t.put) == Run(h, mh, ops).stores[q]
            && Named(t.taken, t.put) == AllHanded(h, mh, ops, q)
            && multiset(t.queue) + multiset(t.taken) + multiset(t.dropped) == multiset(Numbers(|t.put|))
  {
    hide TraceRun, QueueRun, Delivered, Numbers, AllEffects, AllHanded, IsRun, Run;
    AllHandedIsDelivered(h, mh, ops, q);
    RunIsQueueRun(h, mh, ops, q);
    FifoAtMostOnce(h.stores[q], AllEffects(h, mh, ops, q));
  }
}
