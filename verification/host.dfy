/** The broker's state as a value, and what each virtual_host operation does to it. */
module Host {
  import opened Bytes
  import opened WireCodec
  import opened Route
  import Deque

  /** Queue metadata; an empty dead-letter exchange name means no dead-letter config. */
  datatype QueueInfo = QueueInfo(durable: bool, dlqExchange: Str, dlqKey: Str)

  datatype Binding = Binding(exchange: Str, queue: Str, key: Str, args: map<Str, Str>)

  /** match_headers is not part of this model: any predicate of a message's headers and a binding's arguments. */
  type HeaderMatch = (seq<OtherField>, map<Str, Str>) -> bool

  datatype Host = Host(
    exchanges: map<Str, ExchangeType>,
    queues: map<Str, QueueInfo>,
    bindings: map<Str, map<Str, Binding>>,   // exchange -> queue -> binding
    stores: map<Str, seq<Payload>>,          // queue -> messages, front first
    lastId: nat)                             // the counter of generate_id

  /** A fresh broker: only the default direct exchange. */
  const FRESH := Host(map[[] := DIRECT], map[], map[], map[], 0)

  // ---------- exchanges, queues, bindings ----------

  function DeclareExchange(h: Host, name: Str, kind: ExchangeType): Host {
    if name in h.exchanges then h else h.(exchanges := h.exchanges[name := kind])
  }

  function DeleteExchange(h: Host, name: Str): Host {
    h.(exchanges := h.exchanges - {name}, bindings := h.bindings - {name})
  }

  function BindingsOf(h: Host, exchange: Str): map<Str, Binding> {
    if exchange in h.bindings then h.bindings[exchange] else map[]
  }

  function Bind(h: Host, exchange: Str, queue: Str, key: Str, args: map<Str, Str>): (Host, bool) {
    if exchange !in h.exchanges || queue !in h.queues then (h, false)
    else
      var b := Binding(exchange, queue, key, args);
      (h.(bindings := h.bindings[exchange := BindingsOf(h, exchange)[queue := b]]), true)
  }

  function Unbind(h: Host, exchange: Str, queue: Str): Host {
    if exchange in h.bindings
    then h.(bindings := h.bindings[exchange := h.bindings[exchange] - {queue}])
    else h
  }

  /** onDisk is what recovery finds in the queue's file. */
  function AddQueue(h: Host, name: Str, info: QueueInfo, onDisk: seq<Payload>): Host {
    h.(queues := if name in h.queues then h.queues else h.queues[name := info],
       stores := if name in h.stores then h.stores else h.stores[name := if info.durable then onDisk else []])
  }

  /** declare_queue also binds the queue to the default exchange under its own name. */
  function DeclareQueue(h: Host, name: Str, durable: bool, onDisk: seq<Payload>): Host {
    Bind(AddQueue(h, name, QueueInfo(durable, [], []), onDisk), [], name, name, map[]).0
  }

  function DeclareQueueWithDlq(h: Host, name: Str, info: QueueInfo, onDisk: seq<Payload>): Host {
    AddQueue(h, name, info, onDisk)
  }

  function DeleteQueue(h: Host, name: Str): Host {
    h.(stores := h.stores - {name}, queues := h.queues - {name},
       bindings := map e | e in h.bindings :: h.bindings[e] - {name})
  }

  // ---------- publishing ----------

  predicate IsDurable(h: Host, queue: Str) {
    queue in h.queues && h.queues[queue].durable
  }

  function Append(h: Host, queue: Str, bp: Option<Properties>, body: Str): Host {
    if queue !in h.stores then h
    else h.(stores := h.stores[queue := h.stores[queue] + [Deque.NewPayload(bp, body, IsDurable(h, queue))]])
  }

  /** The result: the new state, the caller's properties afterwards, and whether a message was stored. */
  function BasicPublish(h: Host, queue: Str, bp: Option<Properties>, body: Str): (Host, Option<Properties>, bool) {
    if queue !in h.stores then (h, bp, false)
    else match bp
      case None => (Append(h, queue, Some(DEFAULT_PROPERTIES.(routingKey := queue)), body), None, true)
      case Some(p) =>
        var h1 := if p.id == [] then h.(lastId := h.lastId + 1) else h;
        var p1 := if p.id == [] then p.(id := Decimal(h.lastId + 1)) else p;
        if p1.routingKey == [] then
          var p2 := p1.(routingKey := queue);
          (Append(h1, queue, Some(p2), body), Some(p2), true)
        else if p1.routingKey != queue then (h1, Some(p1), false)
        else (Append(h1, queue, Some(p1), body), Some(p1), true)
  }

  function KeyOf(bp: Option<Properties>): Str {
    if bp.Some? then bp.value.routingKey else []
  }

  function HeadersOf(bp: Option<Properties>): seq<OtherField> {
    if bp.Some? then bp.value.others else []
  }

  /** Whether publish_to_exchange tries the queue of this binding. */
  predicate Hits(mh: HeaderMatch, kind: ExchangeType, key: Str, headers: seq<OtherField>, b: Binding) {
    if kind == HEADERS then mh(headers, b.args) else RouteMatch(kind, key, b.key)
  }

  predicate IsTarget(h: Host, mh: HeaderMatch, exchange: Str, bp: Option<Properties>, queue: Str) {
    && exchange in h.exchanges && queue in BindingsOf(h, exchange)
    && Hits(mh, h.exchanges[exchange], KeyOf(bp), HeadersOf(bp), BindingsOf(h, exchange)[queue])
  }

  /** The queues publish_to_exchange tries, in iteration order. */
  function Targets(h: Host, mh: HeaderMatch, exchange: Str, bp: Option<Properties>, order: seq<Str>): (ts: seq<Str>)
    ensures forall q :: q in ts <==> q in order && IsTarget(h, mh, exchange, bp, q)
  {
    if order == [] then []
    else
      var rest := Targets(h, mh, exchange, bp, order[1..]);
      if IsTarget(h, mh, exchange, bp, order[0]) then [order[0]] + rest else rest
  }

  /** Where the message goes when the caller passed properties: at most one queue, if queues have names. */
  function Chosen(targets: seq<Str>, key: Str): Option<Str> {
    if targets == [] then None
    else if key == [] then Some(targets[0])
    else if key in targets then Some(key) else None
  }

  /** A queue named by the empty string, tried first, leaves the routing key empty for the next one. */
  predicate NamelessFirst(targets: seq<Str>, key: Str) {
    key == [] && |targets| > 1 && targets[0] == []
  }

  function PublishTo(h: Host, targets: seq<Str>, bp: Option<Properties>, body: Str): (Host, Option<Properties>, bool) {
    match bp
    case None =>
      (h.(stores := map q | q in h.stores ::
            if q in targets
            then h.stores[q] + [Deque.NewPayload(Some(DEFAULT_PROPERTIES.(routingKey := q)), body, IsDurable(h, q))]
            else h.stores[q]),
       None, targets != [])
    case Some(p) =>
      if targets == [] then (h, bp, false)
      else
        var h1 := if p.id == [] then h.(lastId := h.lastId + 1) else h;
        var p1 := if p.id == [] then p.(id := Decimal(h.lastId + 1)) else p;
        if NamelessFirst(targets, p.routingKey) then
          var p2 := p1.(routingKey := targets[1]);
          (Append(Append(h1, [], Some(p1), body), targets[1], Some(p2), body), Some(p2), true)
        else
          var p2 := if p.routingKey == [] then p1.(routingKey := targets[0]) else p1;
          match Chosen(targets, p.routingKey)
          case None => (h1, Some(p2), false)
          case Some(q) => (Append(h1, q, Some(p2), body), Some(p2), true)
  }

  function PublishToExchange(h: Host, mh: HeaderMatch, exchange: Str, order: seq<Str>,
                             bp: Option<Properties>, body: Str): (Host, Option<Properties>, bool)
  {
    PublishTo(h, Targets(h, mh, exchange, bp, order), bp, body)
  }

  /** publish_ex: the queues a key reaches, as a set. */
  function Reached(h: Host, exchange: Str, key: Str): set<Str> {
    if exchange !in h.exchanges then {}
    else set q | q in BindingsOf(h, exchange).Keys && q in h.stores.Keys &&
                 RouteMatch(h.exchanges[exchange], key, BindingsOf(h, exchange)[q].key)
  }

  function FilledIn(bp: Option<Properties>, key: Str): Properties {
    var p := if bp.Some? then bp.value else DEFAULT_PROPERTIES;
    if p.routingKey == [] then p.(routingKey := key) else p
  }

  /** Every reached queue gains one copy at its tail; nothing else changes. */
  function PublishEx(h: Host, exchange: Str, key: Str, bp: Option<Properties>, body: Str)
    : (Host, Option<Properties>, bool)
  {
    if exchange !in h.exchanges then (h, bp, false)
    else
      var p := FilledIn(bp, key);
      (Copied(h, Reached(h, exchange, p.routingKey), p, body),
       if bp.Some? then Some(p) else None, Reached(h, exchange, p.routingKey) != {})
  }

  function Copied(h: Host, reached: set<Str>, p: Properties, body: Str): Host {
    h.(stores := map q | q in h.stores ::
         if q in reached then h.stores[q] + [Deque.NewPayload(Some(p), body, IsDurable(h, q))] else h.stores[q])
  }

  // ---------- consuming ----------

  function RemoveFrom(h: Host, queue: Str, id: Str): Host {
    if queue in h.stores then h.(stores := h.stores[queue := Deque.Remove(h.stores[queue], id)]) else h
  }

  function Consume(h: Host, queue: Str): (Host, Option<Payload>) {
    if queue !in h.stores || h.stores[queue] == [] then (h, None)
    else (h.(stores := h.stores[queue := h.stores[queue][1..]]), Some(h.stores[queue][0]))
  }

  /** The first queue of the order that has a message, or |order|. */
  function FirstWithMessages(h: Host, order: seq<Str>): (k: nat)
    requires forall q <- order :: q in h.stores
    ensures k <= |order|
    ensures forall i :: 0 <= i < k ==> h.stores[order[i]] == []
    ensures k < |order| ==> h.stores[order[k]] != []
  {
    if order == [] || h.stores[order[0]] != [] then 0 else 1 + FirstWithMessages(h, order[1..])
  }

  function Query(h: Host, order: seq<Str>): (Host, Str)
    requires forall q <- order :: q in h.stores
  {
    var k := FirstWithMessages(h, order);
    if k == |order| then (h, []) else (Consume(h, order[k]).0, h.stores[order[k]][0].body)
  }

  const DURABLE_MODE: nat := 1

  /** The properties of a dead letter. */
  function DeadLetterProperties(h: Host, info: QueueInfo): Properties {
    Properties(Decimal(h.lastId + 1), DURABLE_MODE, info.dlqKey, [])
  }

  /** The state after a dead letter with this body was published. */
  function SendDeadLetter(h: Host, mh: HeaderMatch, info: QueueInfo, order: seq<Str>, body: Str): (Host, bool)
  {
    var r := PublishToExchange(h.(lastId := h.lastId + 1), mh, info.dlqExchange, order,
                               Some(DeadLetterProperties(h, info)), body);
    (r.0, r.2)
  }

  function Nack(h: Host, mh: HeaderMatch, queue: Str, id: Str, requeue: bool, order: seq<Str>): Host
  {
    if queue !in h.stores || queue !in h.queues || requeue then h
    else if h.queues[queue].dlqExchange == [] then RemoveFrom(h, queue, id)
    else
      var k := Deque.FirstWithId(h.stores[queue], id);
      if k == |h.stores[queue]| then h
      else RemoveFrom(SendDeadLetter(h, mh, h.queues[queue], order, h.stores[queue][k].body).0, queue, id)
  }
}
