/** Properties of the broker's operations, one by one and over whole runs. */
module Broker {
  import opened Bytes
  import opened WireCodec
  import opened Route
  import opened Host
  import Deque

  // ---------- the invariant ----------

  ghost predicate Inv(h: Host) {
    && h.stores.Keys == h.queues.Keys
    && h.bindings.Keys <= h.exchanges.Keys
    && (forall e, q :: Bound(h, e, q) ==> InPlace(h, e, q))
  }

  predicate Bound(h: Host, e: Str, q: Str) {
    e in h.bindings && q in h.bindings[e]
  }

  /** The queue exists, and the binding says where it stands. */
  predicate InPlace(h: Host, e: Str, q: Str)
    requires Bound(h, e, q)
  {
    q in h.queues && h.bindings[e][q].exchange == e && h.bindings[e][q].queue == q
  }

  datatype Op =
    | OpDeclareExchange(name: Str, kind: ExchangeType)
    | OpDeleteExchange(name: Str)
    | OpDeclareQueue(name: Str, durable: bool, onDisk: seq<Payload>)
    | OpDeclareQueueWithDlq(name: Str, info: QueueInfo, onDisk: seq<Payload>)
    | OpDeleteQueue(name: Str)
    | OpBind(exchange: Str, queue: Str, key: Str, args: map<Str, Str>)
    | OpUnbind(exchange: Str, queue: Str)
    | OpPublish(queue: Str, bp: Option<Properties>, body: Str)
    | OpPublishTo(exchange: Str, order: seq<Str>, bp: Option<Properties>, body: Str)
    | OpPublishEx(exchange: Str, key: Str, bp: Option<Properties>, body: Str)
    | OpConsume(queue: Str)
    | OpAck(queue: Str, id: Str)
    | OpNack(queue: Str, id: Str, requeue: bool, order: seq<Str>)
    | OpQuery(order: seq<Str>)

  /** The iteration orders an operation uses are orders of the maps it loops over. */
  ghost predicate Proper(h: Host, op: Op) {
    match op
    case OpPublishTo(e, order, _, _) => IsOrder(order, BindingsOf(h, e).Keys)
    case OpNack(q, _, _, order) => q in h.queues ==> IsOrder(order, BindingsOf(h, h.queues[q].dlqExchange).Keys)
    case OpQuery(order) => IsOrder(order, h.stores.Keys)
    case _ => true
  }

  ghost function Step(h: Host, mh: HeaderMatch, op: Op): Host
    requires Proper(h, op)
  {
    match op
    case OpDeclareExchange(name, kind) => DeclareExchange(h, name, kind)
    case OpDeleteExchange(name) => DeleteExchange(h, name)
    case OpDeclareQueue(name, durable, onDisk) => DeclareQueue(h, name, durable, onDisk)
    case OpDeclareQueueWithDlq(name, info, onDisk) => DeclareQueueWithDlq(h, name, info, onDisk)
    case OpDeleteQueue(name) => DeleteQueue(h, name)
    case OpBind(e, q, key, args) => Bind(h, e, q, key, args).0
    case OpUnbind(e, q) => Unbind(h, e, q)
    case OpPublish(q, bp, body) => BasicPublish(h, q, bp, body).0
    case OpPublishTo(e, order, bp, body) => PublishToExchange(h, mh, e, order, bp, body).0
    case OpPublishEx(e, key, bp, body) => PublishEx(h, e, key, bp, body).0
    case OpConsume(q) => Consume(h, q).0
    case OpAck(q, id) => RemoveFrom(h, q, id)
    case OpNack(q, id, requeue, order) => Nack(h, mh, q, id, requeue, order)
    case OpQuery(order) => Query(h, order).0
  }

  ghost predicate IsRun(h: Host, mh: HeaderMatch, ops: seq<Op>)
    decreases |ops|
  {
    ops == [] || (Proper(h, ops[0]) && IsRun(Step(h, mh, ops[0]), mh, ops[1..]))
  }

  ghost function Run(h: Host, mh: HeaderMatch, ops: seq<Op>): Host
    requires IsRun(h, mh, ops)
    decreases |ops|
  {
    if ops == [] then h else Run(Step(h, mh, ops[0]), mh, ops[1..])
  }

  /** Everything but the messages and the id counter. */
  predicate SameTopology(a: Host, b: Host) {
    a.exchanges == b.exchanges && a.queues == b.queues && a.bindings == b.bindings && a.stores.Keys == b.stores.Keys
  }

  lemma AppendKeepsTopology(h: Host, q: Str, bp: Option<Properties>, body: Str)
    ensures SameTopology(h, Append(h, q, bp, body))
  {
    hide Deque.NewPayload, IsDurable;
  }

  lemma PublishKeepsTopology(h: Host, ts: seq<Str>, bp: Option<Properties>, body: Str)
    ensures SameTopology(h, PublishTo(h, ts, bp, body).0)
  {
    hide Decimal, Deque.NewPayload, IsDurable, Append;
    if bp.Some? && ts != [] {
      var p := bp.value;
      var h1 := if p.id == [] then h.(lastId := h.lastId + 1) else h;
      var p1 := if p.id == [] then p.(id := Decimal(h.lastId + 1)) else p;
      if NamelessFirst(ts, p.routingKey) {
        AppendKeepsTopology(h1, [], Some(p1), body);
        AppendKeepsTopology(Append(h1, [], Some(p1), body), ts[1], Some(p1.(routingKey := ts[1])), body);
      } else {
        var p2 := if p.routingKey == [] then p1.(routingKey := ts[0]) else p1;
        var q := Chosen(ts, p.routingKey);
        if q.Some? { AppendKeepsTopology(h1, q.value, Some(p2), body); }
      }
    }
  }

  lemma NackKeepsTopology(h: Host, mh: HeaderMatch, q: Str, id: Str, requeue: bool, order: seq<Str>)
    ensures SameTopology(h, Nack(h, mh, q, id, requeue, order))
  {
    hide PublishTo, Targets, Deque.Remove, DeadLetterProperties;
    if q in h.stores && q in h.queues {
      var info := h.queues[q];
      var h0, p := h.(lastId := h.lastId + 1), Some(DeadLetterProperties(h, info));
      var ts := Targets(h0, mh, info.dlqExchange, p, order);
      var k := Deque.FirstWithId(h.stores[q], id);
      if k < |h.stores[q]| { PublishKeepsTopology(h0, ts, p, h.stores[q][k].body); }
    }
  }

  predicate IsMessageOp(op: Op) {
    op.OpPublish? || op.OpPublishTo? || op.OpPublishEx? || op.OpConsume? || op.OpAck? || op.OpNack? || op.OpQuery?
  }

  lemma BasicPublishKeepsTopology(h: Host, q: Str, bp: Option<Properties>, body: Str)
    ensures SameTopology(h, BasicPublish(h, q, bp, body).0)
  {
    hide Decimal, Deque.NewPayload;
  }

  lemma PublishExKeepsTopology(h: Host, e: Str, key: Str, bp: Option<Properties>, body: Str)
    ensures SameTopology(h, PublishEx(h, e, key, bp, body).0)
  {
    hide Reached, FilledIn, Deque.NewPayload;
  }

  lemma TakingKeepsTopology(h: Host, q: Str, id: Str)
    ensures SameTopology(h, RemoveFrom(h, q, id)) && SameTopology(h, Consume(h, q).0)
  {
    hide Deque.Remove;
  }

  lemma MessageOpsKeepTopology(h: Host, mh: HeaderMatch, op: Op)
    requires IsMessageOp(op) && Proper(h, op)
    ensures SameTopology(h, Step(h, mh, op))
  {
    hide BasicPublish, PublishTo, PublishEx, Targets, Nack, RemoveFrom, Consume, SameTopology;
    match op
    case OpPublish(q, bp, body) => BasicPublishKeepsTopology(h, q, bp, body);
    case OpPublishTo(e, order, bp, body) => PublishKeepsTopology(h, Targets(h, mh, e, bp, order), bp, body);
    case OpPublishEx(e, key, bp, body) => PublishExKeepsTopology(h, e, key, bp, body);
    case OpConsume(q) => TakingKeepsTopology(h, q, []);
    case OpAck(q, id) => TakingKeepsTopology(h, q, id);
    case OpNack(q, id, requeue, order) => NackKeepsTopology(h, mh, q, id, requeue, order);
    case OpQuery(order) =>
      var k := FirstWithMessages(h, order);
      if k < |order| { TakingKeepsTopology(h, order[k], []); } else { SameAsItself(h); }
  }

  lemma SameAsItself(h: Host)
    ensures SameTopology(h, h)
  {
  }

  lemma AddQueueInv(h: Host, name: Str, info: QueueInfo, onDisk: seq<Payload>)
    requires Inv(h)
    ensures Inv(AddQueue(h, name, info, onDisk))
  {
    var h' := AddQueue(h, name, info, onDisk);
    forall e, q | Bound(h', e, q) ensures InPlace(h', e, q) { assert Bound(h, e, q); }
  }

  lemma BindInv(h: Host, e: Str, q: Str, key: Str, args: map<Str, Str>)
    requires Inv(h)
    ensures Inv(Bind(h, e, q, key, args).0)
  {
    var h' := Bind(h, e, q, key, args).0;
    forall e', q' | Bound(h', e', q') ensures InPlace(h', e', q') {
      if !(e' == e && q' == q) { assert Bound(h, e', q'); }
    }
  }

  lemma DeleteInv(h: Host, name: Str)
    requires Inv(h)
    ensures Inv(DeleteQueue(h, name)) && Inv(DeleteExchange(h, name))
  {
    var h1, h2 := DeleteQueue(h, name), DeleteExchange(h, name);
    forall e, q | Bound(h1, e, q) ensures InPlace(h1, e, q) { assert Bound(h, e, q); }
    forall e, q | Bound(h2, e, q) ensures InPlace(h2, e, q) { assert Bound(h, e, q); }
  }

  lemma UnbindInv(h: Host, e: Str, q: Str)
    requires Inv(h)
    ensures Inv(Unbind(h, e, q))
  {
    var h' := Unbind(h, e, q);
    forall e', q' | Bound(h', e', q') ensures InPlace(h', e', q') { assert Bound(h, e', q'); }
  }

  lemma TopologyDecides(a: Host, b: Host)
    requires SameTopology(a, b) && Inv(a)
    ensures Inv(b)
  {
    forall e, q | Bound(b, e, q) ensures InPlace(b, e, q) { assert Bound(a, e, q); }
  }

  lemma StepInv(h: Host, mh: HeaderMatch, op: Op)
    requires Inv(h) && Proper(h, op)
    ensures Inv(Step(h, mh, op))
  {
    if IsMessageOp(op) {
      hide Step, Inv, SameTopology;
      MessageOpsKeepTopology(h, mh, op);
      TopologyDecides(h, Step(h, mh, op));
    } else {
      hide AddQueue, Bind, Unbind, DeleteQueue, DeleteExchange, Inv;
      match op
      case OpDeclareExchange(name, kind) => NewExchangeInv(h, name, kind);
      case OpDeleteExchange(name) => DeleteInv(h, name);
      case OpDeclareQueue(name, durable, onDisk) =>
        AddQueueInv(h, name, QueueInfo(durable, [], []), onDisk);
        BindInv(AddQueue(h, name, QueueInfo(durable, [], []), onDisk), [], name, name, map[]);
      case OpDeclareQueueWithDlq(name, info, onDisk) => AddQueueInv(h, name, info, onDisk);
      case OpDeleteQueue(name) => DeleteInv(h, name);
      case OpBind(e, q, key, args) => BindInv(h, e, q, key, args);
      case OpUnbind(e, q) => UnbindInv(h, e, q);
    }
  }

  lemma NewExchangeInv(h: Host, name: Str, kind: ExchangeType)
    requires Inv(h)
    ensures Inv(DeclareExchange(h, name, kind))
  {
    var h' := DeclareExchange(h, name, kind);
    forall e, q | Bound(h', e, q) ensures InPlace(h', e, q) { assert Bound(h, e, q); }
  }

  /**
   Over every run each queue has a message store and no other store exists, and each
   binding sits under its own exchange and queue, both of which exist.
   */
  lemma {:induction false} RunInv(h: Host, mh: HeaderMatch, ops: seq<Op>)
    requires Inv(h) && IsRun(h, mh, ops)
    ensures Inv(Run(h, mh, ops))
    decreases |ops|
  {
    hide Inv, Step, Proper;
    if ops != [] {
      StepInv(h, mh, ops[0]);
      RunInv(Step(h, mh, ops[0]), mh, ops[1..]);
    }
  }

  lemma FreshInv()
    ensures Inv(FRESH)
  {
  }

  /** So it holds in every state the broker can reach from its start. */
  lemma ReachableInv(mh: HeaderMatch, ops: seq<Op>)
    requires IsRun(FRESH, mh, ops)
    ensures Inv(Run(FRESH, mh, ops))
  {
    hide Inv, Step, Proper;
    FreshInv();
    RunInv(FRESH, mh, ops);
  }

  // ---------- declaring, binding and undoing both ----------

  /** The same exchanges, queues, messages and bindings; an exchange without bindings may have an empty map or none. */
  ghost predicate SameBroker(a: Host, b: Host) {
    && a.exchanges == b.exchanges && a.queues == b.queues && a.stores == b.stores && a.lastId == b.lastId
    && forall e :: BindingsOf(a, e) == BindingsOf(b, e)
  }

  lemma UnbindUndoesBind(h: Host, e: Str, q: Str, key: Str, args: map<Str, Str>)
    requires q !in BindingsOf(h, e)
    ensures SameBroker(Unbind(Bind(h, e, q, key, args).0, e, q), h)
  {
    forall e' ensures BindingsOf(Unbind(Bind(h, e, q, key, args).0, e, q), e') == BindingsOf(h, e') {
      UnbindUndoesBindAt(h, e, q, key, args, e');
    }
    hide BindingsOf;
  }

  lemma UnbindUndoesBindAt(h: Host, e: Str, q: Str, key: Str, args: map<Str, Str>, e': Str)
    requires q !in BindingsOf(h, e)
    ensures BindingsOf(Unbind(Bind(h, e, q, key, args).0, e, q), e') == BindingsOf(h, e')
  {
  }

  /** Deleting a queue that was just declared leaves no trace of it, in the bindings either. */
  lemma DeleteUndoesDeclare(h: Host, name: Str, durable: bool, onDisk: seq<Payload>)
    requires Inv(h) && name !in h.queues
    ensures SameBroker(DeleteQueue(DeclareQueue(h, name, durable, onDisk), name), h)
  {
    var h' := DeleteQueue(DeclareQueue(h, name, durable, onDisk), name);
    assert h'.stores == h.stores && h'.queues == h.queues;
    forall e ensures BindingsOf(h', e) == BindingsOf(h, e) {
      assert !Bound(h, e, name);
      DeleteUndoesDeclareAt(h, name, durable, onDisk, e);
    }
  }

  lemma DeleteUndoesDeclareAt(h: Host, name: Str, durable: bool, onDisk: seq<Payload>, e: Str)
    requires !Bound(h, e, name)
    ensures BindingsOf(DeleteQueue(DeclareQueue(h, name, durable, onDisk), name), e) == BindingsOf(h, e)
  {
    var h1, h2 := DeclareQueue(h, name, durable, onDisk), DeleteQueue(DeclareQueue(h, name, durable, onDisk), name);
    assert BindingsOf(h2, e) == BindingsOf(h1, e) - {name};
    assert BindingsOf(h1, e) - {name} == BindingsOf(h, e);
  }

  /** A declared queue is reached over the default exchange by its own name, with what was on disk if durable. */
  lemma DeclaredQueueIsReached(h: Host, mh: HeaderMatch, name: Str, durable: bool, onDisk: seq<Payload>, p: Properties)
    requires Inv(h) && name !in h.queues && p.routingKey == name
    requires [] in h.exchanges && h.exchanges[[]] == DIRECT
    ensures var h' := DeclareQueue(h, name, durable, onDisk);
            && IsTarget(h', mh, [], Some(p), name) && IsDurable(h', name) == durable
            && h'.stores == h.stores[name := if durable then onDisk else []]
            && forall q :: q != name ==> IsTarget(h', mh, [], Some(p), q) == IsTarget(h, mh, [], Some(p), q)
  {
  }

  /** Declaring a queue again, with whatever settings, changes neither its settings nor its messages. */
  lemma RedeclaringKeepsTheQueue(h: Host, name: Str, info: QueueInfo, durable: bool, onDisk: seq<Payload>)
    requires Inv(h) && name in h.queues
    ensures DeclareQueueWithDlq(h, name, info, onDisk) == h
    ensures var h' := DeclareQueue(h, name, durable, onDisk);
            h'.queues == h.queues && h'.stores == h.stores && h'.exchanges == h.exchanges
  {
  }

  // ---------- publish_to_exchange ----------

  lemma TargetsExist(h: Host, mh: HeaderMatch, e: Str, bp: Option<Properties>, order: seq<Str>)
    requires Inv(h)
    ensures forall q <- Targets(h, mh, e, bp, order) :: q in h.stores
  {
    forall q | q in Targets(h, mh, e, bp, order) ensures q in h.stores {
      assert IsTarget(h, mh, e, bp, q) && Bound(h, e, q);
    }
  }

  /** The targets that get the message: one, or two when the first has the empty name and no key was given. */
  function Receivers(ts: seq<Str>, key: Str): (rs: seq<Str>)
    ensures forall q <- rs :: q in ts
    ensures |rs| == if NamelessFirst(ts, key) then 2 else if Chosen(ts, key).Some? then 1 else 0
  {
    if NamelessFirst(ts, key) then [ts[0], ts[1]]
    else match Chosen(ts, key)
      case None => []
      case Some(q) => [q]
  }

  function WithId(h: Host, p: Properties): Properties {
    if p.id == [] then p.(id := Decimal(h.lastId + 1)) else p
  }

  /** From a to b every queue of rs gained one message, addressed to it; nothing else changed in any queue. */
  predicate Received(a: Host, b: Host, rs: seq<Str>, p: Properties, body: Str) {
    && b.stores.Keys == a.stores.Keys
    && forall q <- a.stores.Keys :: b.stores[q] == a.stores[q] + Addressed(a, rs, p, body, q)
  }

  function Addressed(h: Host, rs: seq<Str>, p: Properties, body: Str, q: Str): seq<Payload> {
    if q in rs then [Deque.NewPayload(Some(p.(routingKey := q)), body, IsDurable(h, q))] else []
  }

  lemma PublishToReaches(h: Host, ts: seq<Str>, p: Properties, body: Str)
    requires (forall q <- ts :: q in h.stores) && Distinct(ts)
    ensures var (h', bp', ok) := PublishTo(h, ts, Some(p), body);
            var rs := Receivers(ts, p.routingKey);
            && Received(h, h', rs, WithId(h, p), body)
            && (ok <==> rs != [])
            && (ok ==> bp' == Some(WithId(h, p).(routingKey := rs[|rs| - 1])))
  {
    hide Decimal, Deque.NewPayload;
    if NamelessFirst(ts, p.routingKey) {
      hide Received;
      NamelessReach(h, ts, p, body);
    }
  }

  lemma NamelessReach(h: Host, ts: seq<Str>, p: Properties, body: Str)
    requires NamelessFirst(ts, p.routingKey) && ts[0] in h.stores && ts[1] in h.stores && ts[0] != ts[1]
    ensures Received(h, PublishTo(h, ts, Some(p), body).0, Receivers(ts, p.routingKey), WithId(h, p), body)
  {
    hide Decimal, Deque.NewPayload;
  }

  /**
   With properties given, the queues that gain a message are matching ones, at most one unless the
   first match has the empty name and no key was given; the message is addressed to its queue, the
   final routing key names the last, and the result says whether there was one.
   */
  lemma PublishReachesOneQueue(h: Host, mh: HeaderMatch, e: Str, order: seq<Str>, p: Properties, body: Str)
    requires Inv(h) && IsOrder(order, BindingsOf(h, e).Keys)
    ensures var (h', bp', ok) := PublishToExchange(h, mh, e, order, Some(p), body);
            var ts := Targets(h, mh, e, Some(p), order);
            var rs := Receivers(ts, p.routingKey);
            && Received(h, h', rs, WithId(h, p), body)
            && (forall q <- rs :: IsTarget(h, mh, e, Some(p), q))
            && (|rs| <= 1 || (p.routingKey == [] && rs[0] == []))
            && (ok <==> rs != [])
            && (ok ==> bp' == Some(WithId(h, p).(routingKey := rs[|rs| - 1])))
  {
    TargetsExist(h, mh, e, Some(p), order);
    TargetsAreDistinct(h, mh, e, Some(p), order);
    hide PublishTo, Received, IsTarget, WithId;
    PublishToReaches(h, Targets(h, mh, e, Some(p), order), p, body);
  }

  lemma WhoGrew(a: Host, b: Host, rs: seq<Str>, p: Properties, body: Str, q: Str)
    requires Received(a, b, rs, p, body)
    ensures Grew(a, b, q) <==> q in a.stores && q in rs
    ensures q in a.stores ==> q in b.stores && |b.stores[q]| == |a.stores[q]| + (if q in rs then 1 else 0)
  {
    hide Deque.NewPayload;
  }

  /**
   Two queues gain a message from one publish with properties exactly when the routing key is
   empty and the first target is a queue named by the empty string.
   */
  lemma SecondCopyIff(h: Host, ts: seq<Str>, p: Properties, body: Str)
    requires (forall q <- ts :: q in h.stores) && Distinct(ts)
    ensures (exists a: Str, b: Str :: a != b && Grew(h, PublishTo(h, ts, Some(p), body).0, a)
                                             && Grew(h, PublishTo(h, ts, Some(p), body).0, b))
            <==> NamelessFirst(ts, p.routingKey)
  {
    hide PublishTo, Received, Grew, WithId;
    var h', rs := PublishTo(h, ts, Some(p), body).0, Receivers(ts, p.routingKey);
    PublishToReaches(h, ts, p, body);
    forall q: Str ensures Grew(h, h', q) <==> q in h.stores && q in rs { WhoGrew(h, h', rs, WithId(h, p), body, q); }
    if NamelessFirst(ts, p.routingKey) {
      assert rs[0] != rs[1] && Grew(h, h', rs[0]) && Grew(h, h', rs[1]);
    }
  }

  predicate Grew(a: Host, b: Host, queue: Str) {
    queue in a.stores && queue in b.stores && |b.stores[queue]| > |a.stores[queue]|
  }

  /** A caller who names the routing key gets the same outcome for every iteration order. */
  lemma PublishIgnoresTheOrder(h: Host, mh: HeaderMatch, e: Str, one: seq<Str>, two: seq<Str>, p: Properties, body: Str)
    requires p.routingKey != []
    requires IsOrder(one, BindingsOf(h, e).Keys) && IsOrder(two, BindingsOf(h, e).Keys)
    ensures PublishToExchange(h, mh, e, one, Some(p), body) == PublishToExchange(h, mh, e, two, Some(p), body)
  {
    var t1, t2 := Targets(h, mh, e, Some(p), one), Targets(h, mh, e, Some(p), two);
    hide Targets, Decimal;
    assert forall q :: q in t1 <==> q in t2;
    assert t1 == [] <==> t2 == [] by {
      if t1 != [] { assert t1[0] in t2; }
      if t2 != [] { assert t2[0] in t1; }
    }
  }

  lemma {:induction false} TargetsAreDistinct(h: Host, mh: HeaderMatch, e: Str, bp: Option<Properties>, order: seq<Str>)
    requires Distinct(order)
    ensures Distinct(Targets(h, mh, e, bp, order))
  {
    hide IsTarget;
    if order != [] {
      var rest := Targets(h, mh, e, bp, order[1..]);
      TargetsAreDistinct(h, mh, e, bp, order[1..]);
      assert order[0] !in order[1..];
      DistinctCons(order[0], rest);
    }
  }

  /** Every one of these queues gained exactly one message. */
  predicate EachGrewByOne(a: Host, b: Host, ts: seq<Str>) {
    forall q <- ts :: q in a.stores && q in b.stores && |b.stores[q]| == |a.stores[q]| + 1
  }

  /** At most one target for an empty key, or two when the first has the empty name; only itself for a key. */
  predicate AllServed(ts: seq<Str>, bp: Option<Properties>) {
    if bp.None? then true
    else if bp.value.routingKey != [] then forall q <- ts :: q == bp.value.routingKey
    else |ts| <= 1 || (|ts| == 2 && ts[0] == [])
  }

  /**
   The requirements ask for delivery to every matching queue. The code does that without
   properties; with them exactly when the routing key given names the only match, or no key
   was given and there is no second match to serve.
   */
  lemma PublishReachesAllIff(h: Host, mh: HeaderMatch, e: Str, order: seq<Str>, bp: Option<Properties>, body: Str)
    requires Inv(h) && IsOrder(order, BindingsOf(h, e).Keys)
    ensures var ts := Targets(h, mh, e, bp, order);
            && (forall q :: q in ts <==> IsTarget(h, mh, e, bp, q))
            && (EachGrewByOne(h, PublishToExchange(h, mh, e, order, bp, body).0, ts) <==> AllServed(ts, bp))
  {
    var ts := Targets(h, mh, e, bp, order);
    TargetsExist(h, mh, e, bp, order);
    TargetsAreDistinct(h, mh, e, bp, order);
    hide Targets, PublishTo;
    if bp.Some? {
      PublishToServes(h, ts, bp.value, body);
    } else {
      PublishToAll(h, ts, body);
    }
  }

  lemma PublishToAll(h: Host, ts: seq<Str>, body: Str)
    requires forall q <- ts :: q in h.stores
    ensures EachGrewByOne(h, PublishTo(h, ts, None, body).0, ts)
  {
    hide Deque.NewPayload;
  }

  lemma PublishToServes(h: Host, ts: seq<Str>, p: Properties, body: Str)
    requires (forall q <- ts :: q in h.stores) && Distinct(ts)
    ensures EachGrewByOne(h, PublishTo(h, ts, Some(p), body).0, ts) <==> AllServed(ts, Some(p))
  {
    hide PublishTo, Received, WithId;
    var h', rs := PublishTo(h, ts, Some(p), body).0, Receivers(ts, p.routingKey);
    PublishToReaches(h, ts, p, body);
    forall q <- ts ensures q in h'.stores && |h'.stores[q]| == |h.stores[q]| + (if q in rs then 1 else 0) {
      WhoGrew(h, h', rs, WithId(h, p), body, q);
    }
    assert EachGrewByOne(h, h', ts) <==> forall q <- ts :: q in rs;
    AllReceiveIff(ts, p.routingKey);
  }

  lemma AllReceiveIff(ts: seq<Str>, key: Str)
    requires Distinct(ts)
    ensures (forall q <- ts :: q in Receivers(ts, key)) <==>
            if key != [] then forall q <- ts :: q == key else |ts| <= 1 || (|ts| == 2 && ts[0] == [])
  {
    if |ts| > 1 { assert ts[0] in ts && ts[1] in ts && ts[0] != ts[1]; }
    if |ts| > 2 { assert ts[2] in ts && ts[2] != ts[0] && ts[2] != ts[1]; }
  }

  // ---------- publish_ex ----------

  /** publish_ex delivers to every matching bound queue, one copy each, and to nobody else. */
  lemma PublishExReachesAll(h: Host, e: Str, key: Str, bp: Option<Properties>, body: Str, q: Str)
    requires Inv(h) && q in h.stores
    ensures var (h', bp', ok) := PublishEx(h, e, key, bp, body);
            var p := FilledIn(bp, key);
            var matches := e in h.exchanges && q in BindingsOf(h, e) &&
                           RouteMatch(h.exchanges[e], p.routingKey, BindingsOf(h, e)[q].key);
            && q in h'.stores
            && h'.stores[q] ==
               h.stores[q] + (if matches then [Deque.NewPayload(Some(p), body, IsDurable(h, q))] else [])
            && (matches ==> ok)
            && h'.lastId == h.lastId
  {
  }

  /** It reports success exactly when some bound queue matches. */
  lemma PublishExSucceedsIff(h: Host, e: Str, key: Str, bp: Option<Properties>, body: Str)
    requires Inv(h)
    ensures var p := FilledIn(bp, key);
            PublishEx(h, e, key, bp, body).2 <==>
            e in h.exchanges && exists q <- BindingsOf(h, e).Keys ::
              RouteMatch(h.exchanges[e], p.routingKey, BindingsOf(h, e)[q].key)
  {
    hide RouteMatch, Copied;
    var reached := Reached(h, e, FilledIn(bp, key).routingKey);
    forall q | q in BindingsOf(h, e) ensures q in h.stores { assert Bound(h, e, q) && InPlace(h, e, q); }
    if reached != {} {
      var q :| q in reached;
    } else if e in h.exchanges {
      forall q <- BindingsOf(h, e).Keys
        ensures !RouteMatch(h.exchanges[e], FilledIn(bp, key).routingKey, BindingsOf(h, e)[q].key)
      {
        assert q !in reached;
      }
    }
  }

  // ---------- consuming and dead letters ----------

  /** Removing by the id of the message that consume has looked at takes that message. */
  lemma ConsumeIsRemoveByFrontId(h: Host, q: Str)
    requires q in h.stores && h.stores[q] != []
    ensures Consume(h, q) == (RemoveFrom(h, q, h.stores[q][0].Id()), Some(h.stores[q][0]))
  {
    Deque.RemoveByFrontId(h.stores[q]);
  }

  /** The dead letter as queue d stores it. */
  function Letter(h: Host, info: QueueInfo, body: Str, d: Str): Payload {
    Deque.NewPayload(Some(DeadLetterProperties(h, info).(routingKey := d)), body, IsDurable(h, d))
  }

  /** The queues a dead letter of a queue with this data goes to. */
  function LetterReceivers(h: Host, mh: HeaderMatch, info: QueueInfo, order: seq<Str>): seq<Str> {
    Receivers(Targets(h.(lastId := h.lastId + 1), mh, info.dlqExchange, Some(DeadLetterProperties(h, info)), order),
              info.dlqKey)
  }

  /** Message number gone has left queue q, each receiver has got a letter with this body, nothing else changed. */
  predicate Rejected(h: Host, h': Host, q: Str, gone: nat, rs: seq<Str>, body: Str)
    requires q in h.queues
  {
    && h'.stores.Keys == h.stores.Keys
    && forall d <- h.stores.Keys :: h'.stores[d] ==
         (if d == q && gone <= |h.stores[q]| then Deque.Without(h.stores[d], gone) else h.stores[d]) +
         (if d in rs then [Letter(h, h.queues[q], body, d)] else [])
  }

  lemma InvIgnoresTheCounter(h: Host, n: nat)
    requires Inv(h)
    ensures Inv(h.(lastId := n))
  {
    TopologyDecides(h, h.(lastId := n));
  }

  /** A dead letter goes to matching queues, one at most unless the first has the empty name and there is no key. */
  lemma LetterReceiversMatch(h: Host, mh: HeaderMatch, info: QueueInfo, order: seq<Str>)
    ensures var rs := LetterReceivers(h, mh, info, order);
            && (forall d <- rs :: IsTarget(h, mh, info.dlqExchange, Some(DeadLetterProperties(h, info)), d))
            && (|rs| <= 1 || (info.dlqKey == [] && rs[0] == []))
  {
    hide Decimal, Hits;
  }

  lemma LettersAreDelivered(h: Host, mh: HeaderMatch, info: QueueInfo, order: seq<Str>, body: Str)
    requires Inv(h) && IsOrder(order, BindingsOf(h, info.dlqExchange).Keys)
    ensures var h1 := SendDeadLetter(h, mh, info, order, body).0;
            var rs := LetterReceivers(h, mh, info, order);
            && h1.stores.Keys == h.stores.Keys
            && forall d <- h.stores.Keys ::
                 h1.stores[d] == h.stores[d] + (if d in rs then [Letter(h, info, body, d)] else [])
  {
    hide Inv, IsOrder, Targets, PublishTo, Received, Decimal, Receivers, Letter;
    var h0, p := h.(lastId := h.lastId + 1), DeadLetterProperties(h, info);
    var ts := Targets(h0, mh, info.dlqExchange, Some(p), order);
    InvIgnoresTheCounter(h, h.lastId + 1);
    TargetsExist(h0, mh, info.dlqExchange, Some(p), order);
    assert Distinct(order) by { OrderIsDistinct(order, BindingsOf(h, info.dlqExchange).Keys); }
    TargetsAreDistinct(h0, mh, info.dlqExchange, Some(p), order);
    PublishToReaches(h0, ts, p, body);
    ReceivedLetters(h, SendDeadLetter(h, mh, info, order, body).0, info, LetterReceivers(h, mh, info, order), body);
  }

  lemma OrderIsDistinct(order: seq<Str>, keys: set<Str>)
    requires IsOrder(order, keys)
    ensures Distinct(order)
  {
  }

  lemma ReceivedLetters(h: Host, h1: Host, info: QueueInfo, rs: seq<Str>, body: Str)
    requires Received(h.(lastId := h.lastId + 1), h1, rs, DeadLetterProperties(h, info), body)
    ensures h1.stores.Keys == h.stores.Keys
    ensures forall d <- h.stores.Keys ::
              h1.stores[d] == h.stores[d] + (if d in rs then [Letter(h, info, body, d)] else [])
  {
    hide Decimal, Deque.NewPayload;
  }

  /**
   A nack without requeue, on a queue with a dead-letter exchange: without a message of that id
   nothing changes. Otherwise the letters carry the body of the first message with the id, and the
   message that leaves is the one remove takes.
   */
  lemma NackRejects(h: Host, mh: HeaderMatch, q: Str, id: Str, order: seq<Str>)
    requires Inv(h) && q in h.queues && h.queues[q].dlqExchange != []
    requires IsOrder(order, BindingsOf(h, h.queues[q].dlqExchange).Keys)
    ensures var h', k := Nack(h, mh, q, id, false, order), Deque.FirstWithId(h.stores[q], id);
            if k == |h.stores[q]| then h' == h
            else Rejected(h, h', q, Deque.Victim(h.stores[q], id), LetterReceivers(h, mh, h.queues[q], order),
                          h.stores[q][k].body)
  {
    var k := Deque.FirstWithId(h.stores[q], id);
    if k < |h.stores[q]| {
      var info, body := h.queues[q], h.stores[q][k].body;
      LettersAreDelivered(h, mh, info, order, body);
      NackKeepsTopology(h, mh, q, id, false, order);
      hide SendDeadLetter, LetterReceivers, Letter, Deque.Remove, Deque.Victim, Inv, IsOrder;
      if q in LetterReceivers(h, mh, info, order) {
        RemoveWithLetter(h.stores[q], Letter(h, info, body, q), id);
      } else {
        assert h.stores[q] + [] == h.stores[q];
        RemoveIsWithout(h.stores[q], id);
      }
    }
  }

  lemma RemoveIsWithout(ps: seq<Payload>, id: Str)
    ensures Deque.Remove(ps, id) == Deque.Without(ps, Deque.Victim(ps, id))
  {
  }

  /**
   For a non-empty id: exactly the first message with the id leaves, and the letter in its place, with
   its body and a new id, goes to the receivers: at most one matching queue, possibly the same.
   */
  lemma DeadLetterConserves(h: Host, mh: HeaderMatch, q: Str, id: Str, order: seq<Str>)
    requires Inv(h) && q in h.queues && h.queues[q].dlqExchange != [] && id != []
    requires IsOrder(order, BindingsOf(h, h.queues[q].dlqExchange).Keys)
    ensures var h', info, k := Nack(h, mh, q, id, false, order), h.queues[q], Deque.FirstWithId(h.stores[q], id);
            var rs := LetterReceivers(h, mh, info, order);
            && (forall d <- rs :: IsTarget(h, mh, info.dlqExchange, Some(DeadLetterProperties(h, info)), d))
            && (|rs| <= 1 || (info.dlqKey == [] && rs[0] == []))
            && if k == |h.stores[q]| then h' == h else Rejected(h, h', q, k, rs, h.stores[q][k].body)
  {
    hide Rejected, LetterReceivers, IsTarget, Inv, IsOrder, Nack;
    NackRejects(h, mh, q, id, order);
    LetterReceiversMatch(h, mh, h.queues[q], order);
  }

  lemma RemoveWithLetter(ps: seq<Payload>, letter: Payload, id: Str)
    requires Deque.FirstWithId(ps, id) < |ps|
    ensures Deque.Remove(ps + [letter], id) == Deque.Without(ps, Deque.Victim(ps, id)) + [letter]
  {
    FirstStays(ps, letter, id);
    WithoutBeforeLast(ps, letter, Deque.Victim(ps, id));
  }

  lemma WithoutBeforeLast<T>(s: seq<T>, x: T, k: nat)
    requires k < |s|
    ensures Deque.Without(s + [x], k) == Deque.Without(s, k) + [x]
  {
  }

  lemma {:induction false} FirstStays(ps: seq<Payload>, letter: Payload, id: Str)
    requires Deque.FirstWithId(ps, id) < |ps|
    ensures Deque.FirstWithId(ps + [letter], id) == Deque.FirstWithId(ps, id)
  {
    assert forall i :: 0 <= i < |ps| ==> (ps + [letter])[i] == ps[i];
  }

  /** The dead-letter exchange has a match named by the dead-letter key, or any match when there is no key. */
  ghost predicate LetterHasATarget(h: Host, mh: HeaderMatch, info: QueueInfo) {
    exists d <- BindingsOf(h, info.dlqExchange).Keys ::
      && IsTarget(h, mh, info.dlqExchange, Some(DeadLetterProperties(h, info)), d)
      && (info.dlqKey == [] || d == info.dlqKey)
  }

  /** The answer of the dead letter's publish, which basic_nack discards, and the queues that get the letter. */
  lemma LetterReceiversIff(h: Host, mh: HeaderMatch, info: QueueInfo, order: seq<Str>, body: Str)
    requires Inv(h) && IsOrder(order, BindingsOf(h, info.dlqExchange).Keys)
    ensures SendDeadLetter(h, mh, info, order, body).1 <==> LetterHasATarget(h, mh, info)
    ensures LetterReceivers(h, mh, info, order) != [] <==> LetterHasATarget(h, mh, info)
  {
    var h0 := h.(lastId := h.lastId + 1);
    var p := Some(DeadLetterProperties(h, info));
    var ts := Targets(h0, mh, info.dlqExchange, p, order);
    hide Targets, Decimal, Hits;
    assert forall q :: IsTarget(h0, mh, info.dlqExchange, p, q) == IsTarget(h, mh, info.dlqExchange, p, q);
    if ts != [] { assert ts[0] in ts; }
  }

  /** Queue d has gained the letter behind what a rejection by this id leaves of it. */
  predicate GainedLetter(h: Host, h': Host, q: Str, id: Str, body: Str, d: Str)
    requires q in h.queues && q in h.stores
  {
    && d in h.stores && d in h'.stores
    && h'.stores[d] ==
       (if d == q then Deque.Remove(h.stores[d], id) else h.stores[d]) + [Letter(h, h.queues[q], body, d)]
  }

  /**
   The promise that a rejected message is kept as a dead letter holds exactly when the dead-letter
   exchange exists and routes the dead-letter key to a queue of that name, or to any queue when the key
   is empty: then, and only then, some queue has gained a letter with the body after the nack.
   */
  lemma DeadLetterIsKeptIff(h: Host, mh: HeaderMatch, q: Str, id: Str, order: seq<Str>)
    requires Inv(h) && q in h.queues && h.queues[q].dlqExchange != []
    requires IsOrder(order, BindingsOf(h, h.queues[q].dlqExchange).Keys)
    requires Deque.FirstWithId(h.stores[q], id) < |h.stores[q]|
    ensures var h', body := Nack(h, mh, q, id, false, order), h.stores[q][Deque.FirstWithId(h.stores[q], id)].body;
            (exists d: Str :: GainedLetter(h, h', q, id, body, d)) <==> LetterHasATarget(h, mh, h.queues[q])
  {
    assert q in h.stores;
    hide Nack, LetterReceivers, Rejected, LetterHasATarget, Inv, IsOrder, GainedLetter, IsTarget;
    var body := h.stores[q][Deque.FirstWithId(h.stores[q], id)].body;
    var h', rs := Nack(h, mh, q, id, false, order), LetterReceivers(h, mh, h.queues[q], order);
    NackRejects(h, mh, q, id, order);
    LetterReceiversIff(h, mh, h.queues[q], order, body);
    LetterReceiversExist(h, mh, h.queues[q], order);
    forall d: Str ensures GainedLetter(h, h', q, id, body, d) <==> d in rs {
      GainedIffReceiver(h, h', q, id, rs, body, d);
    }
    if rs != [] { assert rs[0] in rs; }
  }

  lemma LetterReceiversExist(h: Host, mh: HeaderMatch, info: QueueInfo, order: seq<Str>)
    requires Inv(h)
    ensures forall d <- LetterReceivers(h, mh, info, order) :: d in h.stores
  {
    hide Inv, Receivers, Targets, Decimal;
    InvIgnoresTheCounter(h, h.lastId + 1);
    TargetsExist(h.(lastId := h.lastId + 1), mh, info.dlqExchange, Some(DeadLetterProperties(h, info)), order);
  }

  lemma GainedIffReceiver(h: Host, h': Host, q: Str, id: Str, rs: seq<Str>, body: Str, d: Str)
    requires q in h.queues && q in h.stores && (forall r <- rs :: r in h.stores)
    requires Deque.FirstWithId(h.stores[q], id) < |h.stores[q]|
    requires Rejected(h, h', q, Deque.Victim(h.stores[q], id), rs, body)
    ensures GainedLetter(h, h', q, id, body, d) <==> d in rs
  {
    hide Letter, Deque.Victim, Deque.Without;
    RemoveIsWithout(h.stores[q], id);
  }

  /** Dropping two different positions leaves different queues when the messages there have different ids. */
  lemma WithoutDiffers(ps: seq<Payload>, k: nat)
    requires 0 < k < |ps| && ps[0].Id() != ps[k].Id()
    ensures Deque.Without(ps, 0) != Deque.Without(ps, k)
  {
    if Deque.Without(ps, 0) == Deque.Without(ps, k) { AllShifted(ps, k, k); }
  }

  lemma {:induction false} AllShifted(ps: seq<Payload>, k: nat, i: nat)
    requires i <= k < |ps| && Deque.Without(ps, 0) == Deque.Without(ps, k)
    ensures ps[i] == ps[0]
  {
    if i > 0 {
      AllShifted(ps, k, i - 1);
      assert Deque.Without(ps, 0)[i - 1] == ps[i] && Deque.Without(ps, k)[i - 1] == ps[i - 1];
    }
  }

  lemma RejectedOnce(h: Host, h': Host, q: Str, a: nat, b: nat, rs: seq<Str>, body: Str)
    requires q in h.queues && q in h.stores && a < |h.stores[q]| && b < |h.stores[q]|
    requires Rejected(h, h', q, a, rs, body)
    ensures Rejected(h, h', q, b, rs, body) ==> Deque.Without(h.stores[q], a) == Deque.Without(h.stores[q], b)
  {
    hide Letter, Deque.Without;
    var letters := if q in rs then [Letter(h, h.queues[q], body, q)] else [];
    if Rejected(h, h', q, b, rs, body) {
      SameFront(Deque.Without(h.stores[q], a), Deque.Without(h.stores[q], b), letters);
    }
  }

  lemma SameFront<T>(a: seq<T>, b: seq<T>, c: seq<T>)
    requires a + c == b + c
    ensures a == b
  {
    assert |a| == |b|;
    assert a == (a + c)[..|a|] && b == (b + c)[..|b|];
  }

  /**
   Rejecting by the empty id: the front leaves, but the letters carry the body of the first message
   without an id. That is a proper rejection of one message exactly when the front has no id.
   */
  lemma EmptyIdNackTakesTheFront(h: Host, mh: HeaderMatch, q: Str, order: seq<Str>)
    requires Inv(h) && q in h.queues && h.queues[q].dlqExchange != []
    requires IsOrder(order, BindingsOf(h, h.queues[q].dlqExchange).Keys)
    ensures var h', k := Nack(h, mh, q, [], false, order), Deque.FirstWithId(h.stores[q], []);
            var rs := LetterReceivers(h, mh, h.queues[q], order);
            if k == |h.stores[q]| then h' == h
            else && Rejected(h, h', q, 0, rs, h.stores[q][k].body)
                 && (Rejected(h, h', q, k, rs, h.stores[q][k].body) <==> h.stores[q][0].Id() == [])
  {
    hide Nack, LetterReceivers, IsOrder, Rejected;
    var k := Deque.FirstWithId(h.stores[q], []);
    NackRejects(h, mh, q, [], order);
    if 0 < k < |h.stores[q]| {
      var h', rs := Nack(h, mh, q, [], false, order), LetterReceivers(h, mh, h.queues[q], order);
      WithoutDiffers(h.stores[q], k);
      RejectedOnce(h, h', q, 0, k, rs, h.stores[q][k].body);
    }
  }
}
