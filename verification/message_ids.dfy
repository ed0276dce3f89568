/** Message ids: what the broker's own ids guarantee. */
module MessageIds {
  import opened Bytes
  import opened WireCodec
  import opened Host
  import opened Broker
  import Channel
  import Deque

  /** Ids the broker has generated so far, no two the same. */
  predicate GeneratedIds(ps: seq<Payload>, lastId: nat) {
    && (forall i :: 0 <= i < |ps| ==> 1 <= DecimalValue(ps[i].Id()) <= lastId)
    && (forall i, j :: 0 <= i < j < |ps| ==> ps[i].Id() != ps[j].Id())
  }

  predicate AllGenerated(h: Host) {
    forall q <- h.stores.Keys :: GeneratedIds(h.stores[q], h.lastId)
  }

  /** Publishers pass properties and leave the id to the broker; queues start without recovered messages. */
  predicate LeavesIdsToTheBroker(op: Op) {
    match op
    case OpPublish(_, bp, _) => bp.Some? && bp.value.id == []
    case OpPublishTo(_, _, bp, _) => bp.Some? && bp.value.id == []
    case OpPublishEx(_, _, _, _) => false
    case OpDeclareQueue(_, _, onDisk) => onDisk == []
    case OpDeclareQueueWithDlq(_, _, onDisk) => onDisk == []
    case _ => true
  }

  lemma MoreIds(ps: seq<Payload>, n: nat, m: nat)
    requires GeneratedIds(ps, n) && n <= m
    ensures GeneratedIds(ps, m)
  {
  }

  lemma NewIdIsFresh(ps: seq<Payload>, n: nat, p: Payload)
    requires GeneratedIds(ps, n) && p.Id() == Decimal(n + 1)
    ensures GeneratedIds(ps + [p], n + 1)
  {
    DecimalValueOfDecimal(n + 1);
  }

  lemma FewerIds(ps: seq<Payload>, n: nat, k: nat)
    requires GeneratedIds(ps, n) && k <= |ps|
    ensures GeneratedIds(Deque.Without(ps, k), n)
  {
    var less := Deque.Without(ps, k);
    forall i | 0 <= i < |less| ensures less[i] == ps[if i < k then i else i + 1] {}
  }

  /** Some queues gained one message each, all with this id. */
  predicate Gained(a: map<Str, seq<Payload>>, b: map<Str, seq<Payload>>, id: Str) {
    a.Keys == b.Keys && forall q <- a.Keys :: b[q] == a[q] || OneMore(a[q], b[q], id)
  }

  predicate OneMore(before: seq<Payload>, after: seq<Payload>, id: Str) {
    |after| == |before| + 1 && after[..|before|] == before && after[|before|].Id() == id
  }

  lemma GainKeepsGenerated(h: Host, h': Host)
    requires AllGenerated(h) && h.lastId <= h'.lastId
    requires h'.stores == h.stores || (h'.lastId == h.lastId + 1 && Gained(h.stores, h'.stores, Decimal(h.lastId + 1)))
    ensures AllGenerated(h')
  {
    hide Decimal, DecimalValue, GeneratedIds;
    forall q <- h'.stores.Keys ensures GeneratedIds(h'.stores[q], h'.lastId) {
      var before, after := h.stores[q], h'.stores[q];
      if after == before {
        MoreIds(before, h.lastId, h'.lastId);
      } else {
        assert after == before + [after[|before|]];
        NewIdIsFresh(before, h.lastId, after[|before|]);
      }
    }
  }

  lemma AppendGains(a: map<Str, seq<Payload>>, h: Host, t: Str, p: Properties, body: Str)
    requires Gained(a, h.stores, p.id) && (t in a ==> h.stores[t] == a[t])
    ensures Gained(a, Append(h, t, Some(p), body).stores, p.id)
    ensures forall q :: q != t && q in a ==> Append(h, t, Some(p), body).stores[q] == h.stores[q]
    ensures Append(h, t, Some(p), body).lastId == h.lastId
  {
    hide IsDurable;
  }

  /** A publish with properties stores messages with one id: the caller's, or the next one. */
  lemma PublishToGains(h: Host, ts: seq<Str>, p: Properties, body: Str)
    requires Distinct(ts)
    ensures var h' := PublishTo(h, ts, Some(p), body).0;
            && Gained(h.stores, h'.stores, if p.id == [] then Decimal(h.lastId + 1) else p.id)
            && h'.lastId == (if p.id == [] && ts != [] then h.lastId + 1 else h.lastId)
            && (ts == [] ==> h'.stores == h.stores)
  {
    hide Decimal, Append;
    if ts != [] {
      var h1 := if p.id == [] then h.(lastId := h.lastId + 1) else h;
      var p1 := if p.id == [] then p.(id := Decimal(h.lastId + 1)) else p;
      if NamelessFirst(ts, p.routingKey) {
        assert ts[0] != ts[1];
        AppendGains(h.stores, h1, [], p1, body);
        AppendGains(h.stores, Append(h1, [], Some(p1), body), ts[1], p1.(routingKey := ts[1]), body);
      } else {
        var p2 := if p.routingKey == [] then p1.(routingKey := ts[0]) else p1;
        var target := Chosen(ts, p.routingKey);
        if target.Some? { AppendGains(h.stores, h1, target.value, p2, body); }
      }
    }
  }

  lemma BasicPublishGains(h: Host, q: Str, p: Properties, body: Str)
    requires p.id == [] && q in h.stores
    ensures var h' := BasicPublish(h, q, Some(p), body).0;
            Gained(h.stores, h'.stores, Decimal(h.lastId + 1)) && h'.lastId == h.lastId + 1
  {
    hide Decimal, Append;
    var h1, p1 := h.(lastId := h.lastId + 1), p.(id := Decimal(h.lastId + 1));
    AppendGains(h.stores, h1, q, if p.routingKey == [] then p1.(routingKey := q) else p1, body);
  }

  lemma TakingGenerated(h: Host, q: Str, id: Str)
    requires AllGenerated(h)
    ensures AllGenerated(RemoveFrom(h, q, id)) && AllGenerated(Consume(h, q).0)
  {
    hide GeneratedIds, Deque.Victim;
    if q in h.stores {
      FewerIds(h.stores[q], h.lastId, Deque.Victim(h.stores[q], id));
      if h.stores[q] != [] {
        FewerIds(h.stores[q], h.lastId, 0);
        assert Deque.Without(h.stores[q], 0) == h.stores[q][1..];
      }
    }
  }

  lemma NackKeepsGenerated(h: Host, mh: HeaderMatch, q: Str, id: Str, requeue: bool, order: seq<Str>)
    requires AllGenerated(h) && Proper(h, OpNack(q, id, requeue, order))
    ensures AllGenerated(Nack(h, mh, q, id, requeue, order))
  {
    hide AllGenerated, PublishTo, Targets, RemoveFrom, Decimal, Gained;
    TakingGenerated(h, q, id);
    if q in h.stores && q in h.queues && !requeue && h.queues[q].dlqExchange != [] {
      var info, k := h.queues[q], Deque.FirstWithId(h.stores[q], id);
      if k < |h.stores[q]| {
        var h0, p := h.(lastId := h.lastId + 1), DeadLetterProperties(h, info);
        var ts := Targets(h0, mh, info.dlqExchange, Some(p), order);
        TargetsAreDistinct(h0, mh, info.dlqExchange, Some(p), order);
        PublishToGains(h0, ts, p, h.stores[q][k].body);
        GainKeepsGenerated(h, PublishTo(h0, ts, Some(p), h.stores[q][k].body).0);
        TakingGenerated(PublishTo(h0, ts, Some(p), h.stores[q][k].body).0, q, id);
      }
    }
  }

  lemma StepKeepsGenerated(h: Host, mh: HeaderMatch, op: Op)
    requires AllGenerated(h) && Proper(h, op) && LeavesIdsToTheBroker(op)
    ensures AllGenerated(Step(h, mh, op))
  {
    match op
    case OpPublish(q, bp, body) =>
      hide AllGenerated, Append, Gained;
      if q in h.stores {
        BasicPublishGains(h, q, bp.value, body);
        GainKeepsGenerated(h, BasicPublish(h, q, bp, body).0);
      }
    case OpPublishTo(e, order, bp, body) =>
      hide AllGenerated, PublishTo, Targets, Gained;
      var ts := Targets(h, mh, e, bp, order);
      TargetsAreDistinct(h, mh, e, bp, order);
      PublishToGains(h, ts, bp.value, body);
      GainKeepsGenerated(h, PublishTo(h, ts, bp, body).0);
    case OpConsume(q) =>
      hide AllGenerated, Consume;
      TakingGenerated(h, q, []);
    case OpAck(q, id) =>
      hide AllGenerated, RemoveFrom;
      TakingGenerated(h, q, id);
    case OpNack(q, id, requeue, order) =>
      hide AllGenerated, Nack;
      NackKeepsGenerated(h, mh, q, id, requeue, order);
    case OpQuery(order) =>
      hide AllGenerated, Consume;
      var k := FirstWithMessages(h, order);
      if k < |order| { TakingGenerated(h, order[k], []); }
    case _ => TopologyKeepsGenerated(h, mh, op);
  }

  lemma TopologyKeepsGenerated(h: Host, mh: HeaderMatch, op: Op)
    requires AllGenerated(h) && Proper(h, op) && LeavesIdsToTheBroker(op) && !IsMessageOp(op)
    ensures AllGenerated(Step(h, mh, op))
  {
    hide GeneratedIds;
    NoIds(h.lastId);
  }

  lemma NoIds(lastId: nat)
    ensures GeneratedIds([], lastId)
  {
  }

  lemma {:induction false} RunKeepsGenerated(h: Host, mh: HeaderMatch, ops: seq<Op>)
    requires AllGenerated(h) && IsRun(h, mh, ops)
    requires forall i :: 0 <= i < |ops| ==> LeavesIdsToTheBroker(ops[i])
    ensures AllGenerated(Run(h, mh, ops))
    decreases |ops|
  {
    hide AllGenerated, Step, Proper, LeavesIdsToTheBroker;
    if ops != [] {
      StepKeepsGenerated(h, mh, ops[0]);
      RunKeepsGenerated(Step(h, mh, ops[0]), mh, ops[1..]);
    }
  }

  /**
   When publishers leave the ids to the broker, every queue of every reachable state holds
   pairwise distinct non-empty ids, so acknowledging a delivered message automatically never
   removes another one.
   */
  lemma GeneratedIdsMakeAutoAckSafe(mh: HeaderMatch, ops: seq<Op>, q: Str)
    requires IsRun(FRESH, mh, ops) && (forall i :: 0 <= i < |ops| ==> LeavesIdsToTheBroker(ops[i]))
    requires q in Run(FRESH, mh, ops).stores && Run(FRESH, mh, ops).stores[q] != []
    ensures var h := Run(FRESH, mh, ops); Channel.AutoAcked(h, q) == Consume(h, q).0
  {
    hide Step, Proper, LeavesIdsToTheBroker, Channel.AutoAcked, Consume, IsRun, Run;
    RunKeepsGenerated(FRESH, mh, ops);
    var h := Run(FRESH, mh, ops);
    Channel.AutoAckRemovesNothingIff(h, q);
    var rest := h.stores[q][1..];
    assert GeneratedIds(h.stores[q], h.lastId);
    forall p <- rest ensures p.Id() != h.stores[q][0].Id() {
      var i :| 0 <= i < |rest| && rest[i] == p;
      assert h.stores[q][i + 1] == p;
    }
  }
}
