/** What each broker operation does to the queues, stated from the exchange's type, the keys and the messages alone. */
module Operations {
  import opened Bytes
  import opened WireCodec
  import opened Route
  import opened Host
  import opened Broker
  import V = VirtualHost
  import Deque

  // ---------- who matches ----------

  /** A message with this key and these headers goes over an exchange of this kind to such a binding. */
  predicate KeyFits(mh: HeaderMatch, kind: ExchangeType, key: Str, headers: seq<OtherField>,
                    bindingKey: Str, args: map<Str, Str>)
  {
    match kind
    case DIRECT => key == bindingKey
    case FANOUT => true
    case TOPIC => Matches(Words(key), LoopAtoms(Words(bindingKey), EndsWithDot(bindingKey)))
    case HEADERS => mh(headers, args)
  }

  /** The exchange exists, the queue is bound to it, and the binding fits. */
  predicate Wants(h: Host, mh: HeaderMatch, e: Str, key: Str, headers: seq<OtherField>, q: Str) {
    && e in h.exchanges && e in h.bindings && q in h.bindings[e]
    && KeyFits(mh, h.exchanges[e], key, headers, h.bindings[e][q].key, h.bindings[e][q].args)
  }

  lemma RouteFits(mh: HeaderMatch, kind: ExchangeType, key: Str, headers: seq<OtherField>,
                  bindingKey: Str, args: map<Str, Str>)
    requires kind != HEADERS
    ensures RouteMatch(kind, key, bindingKey) == KeyFits(mh, kind, key, headers, bindingKey, args)
  {
    hide WordMatch, Matches, LoopAtoms, Words;
    if kind == TOPIC { WordMatchExact(Words(key), Words(bindingKey), EndsWithDot(bindingKey)); }
  }

  /**
   The queues publish_to_exchange tries are the bound ones whose binding fits the message: by its key
   and its own headers when it has properties, by an empty key and no headers when it has none.
   */
  lemma TargetIff(h: Host, mh: HeaderMatch, e: Str, p: Properties, q: Str)
    ensures IsTarget(h, mh, e, Some(p), q) <==> Wants(h, mh, e, p.routingKey, p.others, q)
    ensures IsTarget(h, mh, e, None, q) <==> Wants(h, mh, e, [], [], q)
  {
    hide RouteMatch;
    if e in h.exchanges && q in BindingsOf(h, e) && h.exchanges[e] != HEADERS {
      var b := h.bindings[e][q];
      RouteFits(mh, h.exchanges[e], p.routingKey, p.others, b.key, b.args);
      RouteFits(mh, h.exchanges[e], [], [], b.key, b.args);
    }
  }

  // ---------- what is stored ----------

  /** Only the messages of a durable queue are marked for the file. */
  function MarkFor(h: Host, q: Str): Str {
    if q in h.queues && h.queues[q].durable then [49] else []
  }

  /** The message as queue q stores it. */
  function Message(h: Host, q: Str, id: Str, mode: nat, key: Str, others: seq<OtherField>, body: Str): Payload {
    Payload(Some(Properties(id, mode, key, others)), body, MarkFor(h, q))
  }

  lemma StoredAs(h: Host, q: Str, p: Properties, body: Str)
    ensures Deque.NewPayload(Some(p), body, IsDurable(h, q)) ==
            Message(h, q, p.id, p.deliveryMode, p.routingKey, p.others, body)
  {
  }

  /** The id a publish fills in is the next number. */
  function IdFor(h: Host, id: Str): Str {
    if id == [] then Decimal(h.lastId + 1) else id
  }

  // ---------- publish to one queue ----------

  /**
   A message is stored exactly if the queue exists and no other queue's name is given as its key; with
   properties it gets an id if it has none, and the queue's name as key.
   */
  lemma BasicPublishStores(h: Host, q: Str, bp: Option<Properties>, body: Str)
    ensures var (h', bp', ok) := BasicPublish(h, q, bp, body);
            && (ok <==> q in h.stores && (bp.None? || bp.value.routingKey == [] || bp.value.routingKey == q))
            && (!ok ==> h'.stores == h.stores)
            && (ok && bp.None? ==>
                  h'.stores == h.stores[q := h.stores[q] + [Message(h, q, [], 0, q, [], body)]] && bp' == None)
            && (ok && bp.Some? ==> var p := bp.value;
                  && h'.stores == h.stores[q := h.stores[q] +
                       [Message(h, q, IdFor(h, p.id), p.deliveryMode, q, p.others, body)]]
                  && bp' == Some(Properties(IdFor(h, p.id), p.deliveryMode, q, p.others)))
            && h'.lastId == h.lastId + (if q in h.stores && bp.Some? && bp.value.id == [] then 1 else 0)
  {
    hide Decimal;
  }

  // ---------- publish to an exchange ----------

  /**
   With properties a matching queue gets the message if the routing key names it; without a routing key
   if no matching queue with a name comes before it.
   */
  ghost predicate Gets(h: Host, mh: HeaderMatch, e: Str, order: seq<Str>, key: Str, headers: seq<OtherField>, q: Str) {
    && Wants(h, mh, e, key, headers, q)
    && if key != [] then q == key
       else exists i :: 0 <= i < |order| && order[i] == q && NoNamedBefore(h, mh, e, order, key, headers, i)
  }

  predicate NoNamedBefore(h: Host, mh: HeaderMatch, e: Str, order: seq<Str>, key: Str, headers: seq<OtherField>, i: nat)
    requires i <= |order|
  {
    forall j :: 0 <= j < i && Wants(h, mh, e, key, headers, order[j]) ==> order[j] == []
  }

  /** The targets in order are the matching queues in order. */
  lemma TargetAt(h: Host, mh: HeaderMatch, e: Str, p: Properties, order: seq<Str>, i: nat)
    requires i < |order| && Wants(h, mh, e, p.routingKey, p.others, order[i])
    ensures Targets(h, mh, e, Some(p), order) ==
            Targets(h, mh, e, Some(p), order[..i]) + [order[i]] + Targets(h, mh, e, Some(p), order[i + 1..])
  {
    hide IsTarget, Wants;
    TargetIff(h, mh, e, p, order[i]);
    assert order == order[..i] + order[i..] && order[i..][1..] == order[i + 1..];
    V.TargetsConcat(h, mh, e, Some(p), order[..i], order[i..]);
    assert Targets(h, mh, e, Some(p), order[i..]) == [order[i]] + Targets(h, mh, e, Some(p), order[i + 1..]);
  }

  /** No matching queue among these, or only the one with the empty name. */
  lemma TargetsBefore(h: Host, mh: HeaderMatch, e: Str, p: Properties, order: seq<Str>, i: nat)
    requires i <= |order| && Distinct(order)
    ensures NoNamedBefore(h, mh, e, order, p.routingKey, p.others, i) <==>
            var ts := Targets(h, mh, e, Some(p), order[..i]); ts == [] || ts == [[]]
  {
    hide IsTarget, Wants;
    var front := order[..i];
    var ts := Targets(h, mh, e, Some(p), front);
    forall q: Str ensures IsTarget(h, mh, e, Some(p), q) == Wants(h, mh, e, p.routingKey, p.others, q) {
      TargetIff(h, mh, e, p, q);
    }
    assert Distinct(front);
    TargetsAreDistinct(h, mh, e, Some(p), front);
    if NoNamedBefore(h, mh, e, order, p.routingKey, p.others, i) {
      forall t <- ts ensures t == [] {
        var j :| 0 <= j < |front| && front[j] == t;
        assert order[j] == t;
      }
      AllNameless(ts);
    } else {
      var j :| 0 <= j < i && Wants(h, mh, e, p.routingKey, p.others, order[j]) && order[j] != [];
      assert front[j] in front && order[j] in ts;
    }
  }

  lemma AllNameless(ts: seq<Str>)
    requires Distinct(ts)
    ensures (forall t <- ts :: t == []) <==> ts == [] || ts == [[]]
  {
    if |ts| > 1 { assert ts[0] in ts && ts[1] in ts && ts[0] != ts[1]; }
    if |ts| == 1 { assert ts[0] in ts && ts == [ts[0]]; }
  }

  lemma GetsIff(h: Host, mh: HeaderMatch, e: Str, p: Properties, order: seq<Str>, q: Str)
    requires IsOrder(order, BindingsOf(h, e).Keys)
    ensures q in Receivers(Targets(h, mh, e, Some(p), order), p.routingKey) <==>
            Gets(h, mh, e, order, p.routingKey, p.others, q)
  {
    hide IsTarget, Targets, NoNamedBefore;
    TargetIff(h, mh, e, p, q);
    if Wants(h, mh, e, p.routingKey, p.others, q) {
      assert q in order;
      if p.routingKey == [] {
        hide Wants, IsOrder;
        var i :| 0 <= i < |order| && order[i] == q;
        TargetAt(h, mh, e, p, order, i);
        TargetsBefore(h, mh, e, p, order, i) by { OrderIsDistinct(order, BindingsOf(h, e).Keys); }
        PlaceInOrder(h, e, order, q, i);
        TargetsAreDistinct(h, mh, e, Some(p), order) by { OrderIsDistinct(order, BindingsOf(h, e).Keys); }
        ReceivedAt(Targets(h, mh, e, Some(p), order[..i]), q, Targets(h, mh, e, Some(p), order[i + 1..]));
      }
    }
  }

  lemma PlaceInOrder(h: Host, e: Str, order: seq<Str>, q: Str, i: nat)
    requires IsOrder(order, BindingsOf(h, e).Keys) && i < |order| && order[i] == q
    ensures forall j :: 0 <= j < |order| && order[j] == q ==> j == i
  {
  }

  /** The place among the targets decides when there is no key. */
  lemma ReceivedAt(a: seq<Str>, q: Str, b: seq<Str>)
    requires Distinct(a + [q] + b)
    ensures q in Receivers(a + [q] + b, []) <==> a == [] || a == [[]]
  {
    var ts := a + [q] + b;
    assert ts[|a|] == q;
    if a != [] {
      assert ts[0] == a[0] && ts[0] != q;
      if |a| > 1 { assert ts[1] == a[1] && ts[1] != q; }
      if |a| == 1 { assert ts[1] == q && a == [a[0]]; }
    }
  }

  /**
   With properties: each queue that gets the message gains one at its tail, with the given fields, an id
   if there was none, and its own name as key; no other queue changes; the answer says whether one got it.
   */
  lemma PublishWithProperties(h: Host, mh: HeaderMatch, e: Str, order: seq<Str>, p: Properties, body: Str)
    requires Inv(h) && IsOrder(order, BindingsOf(h, e).Keys)
    ensures var (h', bp', ok) := PublishToExchange(h, mh, e, order, Some(p), body);
            && h'.stores.Keys == h.stores.Keys
            && (forall q <- h.stores.Keys :: h'.stores[q] == h.stores[q] +
                  (if Gets(h, mh, e, order, p.routingKey, p.others, q)
                   then [Message(h, q, IdFor(h, p.id), p.deliveryMode, q, p.others, body)] else []))
            && (ok <==> exists q :: Gets(h, mh, e, order, p.routingKey, p.others, q))
            && bp'.Some?
            && (ok ==> var k := bp'.value.routingKey;
                  && bp'.value == Properties(IdFor(h, p.id), p.deliveryMode, k, p.others)
                  && Gets(h, mh, e, order, p.routingKey, p.others, k))
            && var tried := exists q :: Wants(h, mh, e, p.routingKey, p.others, q);
               && (!ok ==> bp' == Some(if tried then p.(id := IdFor(h, p.id)) else p))
               && h'.lastId == h.lastId + (if tried && p.id == [] then 1 else 0)
  {
    CallerAfterPublish(h, mh, e, order, p, body);
    hide PublishToExchange, Gets, IsTarget, Inv, IsOrder, Receivers, Targets;
    PublishReachesOneQueue(h, mh, e, order, p, body);
    var h' := PublishToExchange(h, mh, e, order, Some(p), body).0;
    var rs := Receivers(Targets(h, mh, e, Some(p), order), p.routingKey);
    forall q: Str ensures q in rs <==> Gets(h, mh, e, order, p.routingKey, p.others, q) {
      GetsIff(h, mh, e, p, order, q);
    }
    if rs != [] { assert rs[0] in rs; }
    forall q <- h.stores.Keys
      ensures h'.stores[q] == h.stores[q] + (if q in rs
        then [Message(h, q, IdFor(h, p.id), p.deliveryMode, q, p.others, body)] else [])
    {
      ReceivedStores(h, h', rs, p, body, q);
    }
  }

  /** What the caller's properties and the counter of ids have become. */
  lemma CallerAfterPublish(h: Host, mh: HeaderMatch, e: Str, order: seq<Str>, p: Properties, body: Str)
    requires Inv(h) && IsOrder(order, BindingsOf(h, e).Keys)
    ensures var (h', bp', ok) := PublishToExchange(h, mh, e, order, Some(p), body);
            && bp'.Some?
            && var tried := exists q :: Wants(h, mh, e, p.routingKey, p.others, q);
               && (!ok ==> bp' == Some(if tried then p.(id := IdFor(h, p.id)) else p))
               && h'.lastId == h.lastId + (if tried && p.id == [] then 1 else 0)
  {
    hide IsTarget, Inv, Wants, Decimal, Append;
    var ts := Targets(h, mh, e, Some(p), order);
    forall q: Str ensures q in ts <==> Wants(h, mh, e, p.routingKey, p.others, q) {
      TargetIff(h, mh, e, p, q);
      if Wants(h, mh, e, p.routingKey, p.others, q) { WantedIsBound(h, mh, e, p.routingKey, p.others, q); }
    }
    hide Targets, IsOrder;
    if ts != [] { assert ts[0] in ts; }
    AppendsKeepTheCounter();
  }

  lemma AppendsKeepTheCounter()
    ensures forall h: Host, q: Str, bp: Option<Properties>, body: Str :: Append(h, q, bp, body).lastId == h.lastId
  {
  }

  lemma ReceivedStores(h: Host, h': Host, rs: seq<Str>, p: Properties, body: Str, q: Str)
    requires Received(h, h', rs, WithId(h, p), body) && q in h.stores
    ensures h'.stores[q] == h.stores[q] + (if q in rs
              then [Message(h, q, IdFor(h, p.id), p.deliveryMode, q, p.others, body)] else [])
  {
    hide Decimal;
    StoredAs(h, q, WithId(h, p).(routingKey := q), body);
  }

  /**
   Without properties every queue whose binding fits an empty key and no headers gains a message that has
   its queue's name as key and no other field; the counter of ids stays.
   */
  lemma PublishWithoutProperties(h: Host, mh: HeaderMatch, e: Str, order: seq<Str>, body: Str)
    requires Inv(h) && IsOrder(order, BindingsOf(h, e).Keys)
    ensures var (h', bp', ok) := PublishToExchange(h, mh, e, order, None, body);
            && h'.stores.Keys == h.stores.Keys && bp' == None && h'.lastId == h.lastId
            && (forall q <- h.stores.Keys :: h'.stores[q] == h.stores[q] +
                  (if Wants(h, mh, e, [], [], q) then [Message(h, q, [], 0, q, [], body)] else []))
            && (ok <==> exists q :: Wants(h, mh, e, [], [], q))
  {
    hide IsTarget, Inv, Wants, Deque.NewPayload;
    var ts := Targets(h, mh, e, None, order);
    forall q: Str ensures q in ts <==> Wants(h, mh, e, [], [], q) {
      TargetIff(h, mh, e, DEFAULT_PROPERTIES, q);
      if Wants(h, mh, e, [], [], q) { WantedIsBound(h, mh, e, [], [], q); }
    }
    if ts != [] { assert ts[0] in ts; }
    hide Targets, IsOrder;
    forall q <- h.stores.Keys
      ensures Deque.NewPayload(Some(DEFAULT_PROPERTIES.(routingKey := q)), body, IsDurable(h, q)) ==
              Message(h, q, [], 0, q, [], body)
    {
      StoredAs(h, q, DEFAULT_PROPERTIES.(routingKey := q), body);
    }
  }

  lemma WantedIsBound(h: Host, mh: HeaderMatch, e: Str, key: Str, headers: seq<OtherField>, q: Str)
    requires Wants(h, mh, e, key, headers, q)
    ensures q in BindingsOf(h, e)
  {
  }

  // ---------- publish_ex ----------

  /**
   The key that decides and is stored is the one in the properties, or the argument if they have none;
   every other field is the caller's, or empty. Each bound queue whose binding fits the key gains one copy.
   */
  lemma PublishExDelivers(h: Host, mh: HeaderMatch, e: Str, key: Str, bp: Option<Properties>, body: Str)
    requires Inv(h)
    ensures var (h', bp', ok) := PublishEx(h, e, key, bp, body);
            var p := if bp.Some? then bp.value else Properties([], 0, [], []);
            var k := if p.routingKey == [] then key else p.routingKey;
            && h'.stores.Keys == h.stores.Keys && h'.lastId == h.lastId
            && (forall q <- h.stores.Keys :: h'.stores[q] == h.stores[q] +
                  (if e in h.exchanges && h.exchanges[e] != HEADERS && Wants(h, mh, e, k, [], q)
                   then [Message(h, q, p.id, p.deliveryMode, k, p.others, body)] else []))
            && (ok <==> e in h.exchanges && h.exchanges[e] != HEADERS && exists q :: Wants(h, mh, e, k, [], q))
            && bp' == (if bp.Some? && e in h.exchanges then Some(p.(routingKey := k)) else bp)
  {
    hide RouteMatch, Inv, Deque.NewPayload, KeyFits;
    var p := if bp.Some? then bp.value else Properties([], 0, [], []);
    var k := if p.routingKey == [] then key else p.routingKey;
    PublishExKeepsTopology(h, e, key, bp, body);
    PublishExSucceedsIff(h, e, key, bp, body);
    forall q: Str | e in h.exchanges && q in BindingsOf(h, e)
      ensures RouteMatch(h.exchanges[e], k, BindingsOf(h, e)[q].key) <==>
              h.exchanges[e] != HEADERS && Wants(h, mh, e, k, [], q)
    {
      var b := h.bindings[e][q];
      if h.exchanges[e] != HEADERS {
        RouteFits(mh, h.exchanges[e], k, [], b.key, b.args);
      } else {
        HeadersNeverRoute(k, b.key);
      }
    }
    var h' := PublishEx(h, e, key, bp, body).0;
    forall q <- h.stores.Keys
      ensures h'.stores[q] == h.stores[q] +
        (if e in h.exchanges && h.exchanges[e] != HEADERS && Wants(h, mh, e, k, [], q)
         then [Message(h, q, p.id, p.deliveryMode, k, p.others, body)] else [])
    {
      PublishExReachesAll(h, e, key, bp, body, q);
      StoredAs(h, q, p.(routingKey := k), body);
    }
  }

  lemma HeadersNeverRoute(key: Str, bindingKey: Str)
    ensures !RouteMatch(HEADERS, key, bindingKey)
  {
  }

  // ---------- acknowledging and rejecting ----------

  /** The messages without number k. */
  function Skip(ps: seq<Payload>, k: nat): seq<Payload>
    requires k < |ps|
  {
    ps[..k] + ps[k + 1..]
  }

  /** Number k of these messages is the first with this id. */
  predicate FirstWith(ps: seq<Payload>, id: Str, k: nat) {
    k < |ps| && ps[k].Id() == id && forall i :: 0 <= i < k ==> ps[i].Id() != id
  }

  lemma FirstWithIsIndex(ps: seq<Payload>, id: Str, k: nat)
    requires FirstWith(ps, id, k)
    ensures Deque.FirstWithId(ps, id) == k
  {
  }

  lemma FoundIsThere(ps: seq<Payload>, id: Str)
    ensures Deque.FirstWithId(ps, id) < |ps| ==> exists p <- ps :: p.Id() == id
  {
    var k := Deque.FirstWithId(ps, id);
    if k < |ps| { assert ps[k] in ps; }
  }

  /** An acknowledgement by the empty id takes the front, whatever the ids of the queue. */
  lemma AckByEmptyId(h: Host, q: Str)
    requires q in h.stores
    ensures RemoveFrom(h, q, []) ==
            h.(stores := h.stores[q := if h.stores[q] == [] then [] else h.stores[q][1..]])
  {
    Deque.RemoveByEmptyId(h.stores[q]);
  }

  /** By any other id it takes the first message with that id, or none. */
  lemma AckById(h: Host, q: Str, id: Str, k: nat)
    requires q in h.stores && id != []
    ensures FirstWith(h.stores[q], id, k) ==>
              RemoveFrom(h, q, id) == h.(stores := h.stores[q := Skip(h.stores[q], k)])
    ensures (forall p <- h.stores[q] :: p.Id() != id) ==> RemoveFrom(h, q, id).stores == h.stores
  {
    if FirstWith(h.stores[q], id, k) {
      Deque.RemoveById(h.stores[q], id, k);
    } else if forall p <- h.stores[q] :: p.Id() != id {
      Deque.RemoveById(h.stores[q], id, |h.stores[q]|);
    }
  }

  /** With requeue, or for an unknown queue, nothing happens; without a dead-letter exchange a nack is an ack. */
  lemma NackWithoutDeadLetters(h: Host, mh: HeaderMatch, q: Str, id: Str, order: seq<Str>)
    ensures Nack(h, mh, q, id, true, order) == h
    ensures q !in h.stores || q !in h.queues ==> Nack(h, mh, q, id, false, order) == h
    ensures q in h.stores && q in h.queues && h.queues[q].dlqExchange == [] ==>
              && Nack(h, mh, q, id, false, order) == RemoveFrom(h, q, id)
              && Nack(h, mh, q, [], false, order) ==
                 h.(stores := h.stores[q := if h.stores[q] == [] then [] else h.stores[q][1..]])
  {
    if q in h.stores { AckByEmptyId(h, q); }
  }

  /**
   With a dead-letter exchange: the front leaves if the id is empty, else the first message with it.
   Letters with the next id, delivery mode 1, no headers and the body of the first message with the id
   go where a publish by the dead-letter key goes.
   */
  lemma NackSendsLetters(h: Host, mh: HeaderMatch, q: Str, id: Str, order: seq<Str>, k: nat)
    requires Inv(h) && q in h.queues && h.queues[q].dlqExchange != []
    requires IsOrder(order, BindingsOf(h, h.queues[q].dlqExchange).Keys)
    requires FirstWith(h.stores[q], id, k)
    ensures var h', info := Nack(h, mh, q, id, false, order), h.queues[q];
            && h'.stores.Keys == h.stores.Keys && h'.lastId == h.lastId + 1
            && forall d <- h.stores.Keys :: h'.stores[d] ==
                 (if d == q then Skip(h.stores[q], if id == [] then 0 else k) else h.stores[d]) +
                 (if Gets(h, mh, info.dlqExchange, order, info.dlqKey, [], d)
                  then [Message(h, d, Decimal(h.lastId + 1), 1, d, [], h.stores[q][k].body)] else [])
  {
    assert q in h.stores;
    FirstWithIsIndex(h.stores[q], id, k);
    LetterTakesAnId(h, mh, q, id, order);
    hide Inv, IsOrder, Nack, Gets, Letter, LetterReceivers, Decimal, Deque.Victim, Deque.Without;
    var info := h.queues[q];
    var body := h.stores[q][k].body;
    var h', rs := Nack(h, mh, q, id, false, order), LetterReceivers(h, mh, info, order);
    NackRejects(h, mh, q, id, order);
    VictimIs(h.stores[q], id, k);
    forall d <- h.stores.Keys
      ensures d in rs <==> Gets(h, mh, info.dlqExchange, order, info.dlqKey, [], d)
      ensures Letter(h, info, body, d) == Message(h, d, Decimal(h.lastId + 1), 1, d, [], body)
    {
      LetterGoesTo(h, mh, info, order, d);
      LetterIs(h, info, body, d);
    }
  }

  /** Without a message of that id nothing happens. */
  lemma NackOfUnknownId(h: Host, mh: HeaderMatch, q: Str, id: Str, order: seq<Str>)
    requires q in h.queues && q in h.stores && h.queues[q].dlqExchange != []
    requires forall p <- h.stores[q] :: p.Id() != id
    ensures Nack(h, mh, q, id, false, order) == h
  {
    hide SendDeadLetter, RemoveFrom;
    FoundIsThere(h.stores[q], id);
  }

  lemma LetterTakesAnId(h: Host, mh: HeaderMatch, q: Str, id: Str, order: seq<Str>)
    requires q in h.stores && q in h.queues && h.queues[q].dlqExchange != []
    requires Deque.FirstWithId(h.stores[q], id) < |h.stores[q]|
    ensures Nack(h, mh, q, id, false, order).lastId == h.lastId + 1
  {
    hide Decimal, Targets, Append, Deque.Remove, NamelessFirst, Chosen;
    AppendsKeepTheCounter();
  }

  lemma VictimIs(ps: seq<Payload>, id: Str, k: nat)
    requires FirstWith(ps, id, k)
    ensures Deque.Victim(ps, id) <= |ps|
    ensures Deque.Without(ps, Deque.Victim(ps, id)) == Skip(ps, if id == [] then 0 else k)
  {
    FirstWithIsIndex(ps, id, k);
    if id == [] { Deque.RemoveByEmptyId(ps); } else { Deque.RemoveById(ps, id, k); }
  }

  lemma LetterIs(h: Host, info: QueueInfo, body: Str, d: Str)
    ensures Letter(h, info, body, d) == Message(h, d, Decimal(h.lastId + 1), 1, d, [], body)
  {
    hide Decimal;
  }

  lemma LetterGoesTo(h: Host, mh: HeaderMatch, info: QueueInfo, order: seq<Str>, d: Str)
    requires IsOrder(order, BindingsOf(h, info.dlqExchange).Keys)
    ensures d in LetterReceivers(h, mh, info, order) <==> Gets(h, mh, info.dlqExchange, order, info.dlqKey, [], d)
  {
    hide Decimal, IsOrder, KeyFits, Targets, Receivers, Gets;
    var h0 := h.(lastId := h.lastId + 1);
    assert BindingsOf(h0, info.dlqExchange) == BindingsOf(h, info.dlqExchange);
    GetsIff(h0, mh, info.dlqExchange, DeadLetterProperties(h, info), order, d);
    GetsIgnoresTheCounter(h, mh, info.dlqExchange, order, info.dlqKey, d);
  }

  lemma GetsIgnoresTheCounter(h: Host, mh: HeaderMatch, e: Str, order: seq<Str>, key: Str, q: Str)
    ensures Gets(h.(lastId := h.lastId + 1), mh, e, order, key, [], q) <==> Gets(h, mh, e, order, key, [], q)
  {
    hide KeyFits;
    var h0 := h.(lastId := h.lastId + 1);
    assert forall d :: Wants(h0, mh, e, key, [], d) == Wants(h, mh, e, key, [], d);
    assert forall i :: 0 <= i < |order| ==>
      NoNamedBefore(h0, mh, e, order, key, [], i) == NoNamedBefore(h, mh, e, order, key, [], i);
  }

  // ---------- exchanges, queues and bindings ----------

  /** Everything but the bindings is the same. */
  predicate OnlyBindingsDiffer(a: Host, b: Host) {
    a.exchanges == b.exchanges && a.queues == b.queues && a.stores == b.stores && a.lastId == b.lastId
  }

  /** A binding decides by its last key and arguments, for its own exchange and queue only. */
  lemma BindDecides(h: Host, mh: HeaderMatch, e: Str, q: Str, key: Str, args: map<Str, Str>)
    ensures var (h', ok) := Bind(h, e, q, key, args);
            && OnlyBindingsDiffer(h, h')
            && (ok <==> e in h.exchanges && q in h.queues)
            && (!ok ==> h' == h)
            && (ok ==> forall k, hs, e', q' :: Wants(h', mh, e', k, hs, q') <==>
                  if e' == e && q' == q then KeyFits(mh, h.exchanges[e], k, hs, key, args)
                  else Wants(h, mh, e', k, hs, q'))
  {
    hide KeyFits;
  }

  /** Unbinding ends what that binding decides, and nothing else. */
  lemma UnbindDecides(h: Host, mh: HeaderMatch, e: Str, q: Str)
    ensures OnlyBindingsDiffer(h, Unbind(h, e, q))
    ensures forall k, hs, e', q' :: Wants(Unbind(h, e, q), mh, e', k, hs, q') <==>
              !(e' == e && q' == q) && Wants(h, mh, e', k, hs, q')
  {
    hide KeyFits;
  }

  /** A deleted exchange is gone with its bindings: declared again, of whatever type, it matches nobody. */
  lemma DeletedExchangeIsGone(h: Host, mh: HeaderMatch, e: Str, kind: ExchangeType)
    ensures var h' := DeleteExchange(h, e);
            && h'.exchanges == h.exchanges - {e}
            && h'.queues == h.queues && h'.stores == h.stores && h'.lastId == h.lastId
            && (forall k, hs, e', q :: Wants(h', mh, e', k, hs, q) <==> e' != e && Wants(h, mh, e', k, hs, q))
            && forall k, hs, q :: !Wants(DeclareExchange(h', e, kind), mh, e, k, hs, q)
  {
    hide KeyFits;
  }

  /** Declaring an exchange adds it with its type, or changes nothing if the name is taken. */
  lemma DeclaredExchangeIs(h: Host, mh: HeaderMatch, e: Str, kind: ExchangeType)
    requires Inv(h)
    ensures var h' := DeclareExchange(h, e, kind);
            && h'.exchanges == (if e in h.exchanges then h.exchanges else h.exchanges[e := kind])
            && h'.queues == h.queues && h'.stores == h.stores && h'.bindings == h.bindings && h'.lastId == h.lastId
            && forall k, hs, e', q :: Wants(h', mh, e', k, hs, q) <==> Wants(h, mh, e', k, hs, q)
  {
    hide KeyFits;
  }

  /** A new queue with dead letters has the given settings and what its file held if durable, and no binding. */
  lemma DeclaredDlqQueueIs(h: Host, mh: HeaderMatch, name: Str, info: QueueInfo, onDisk: seq<Payload>)
    requires Inv(h) && name !in h.queues
    ensures var h' := DeclareQueueWithDlq(h, name, info, onDisk);
            && h'.queues == h.queues[name := info]
            && h'.stores == h.stores[name := if info.durable then onDisk else []]
            && h'.exchanges == h.exchanges && h'.bindings == h.bindings && h'.lastId == h.lastId
            && forall e, k, hs :: !Wants(h', mh, e, k, hs, name)
  {
    hide KeyFits;
    forall e ensures !Bound(h, e, name) {}
    forall e, k, hs ensures !Wants(DeclareQueueWithDlq(h, name, info, onDisk), mh, e, k, hs, name) {
      assert !Bound(h, e, name);
    }
  }

  /** A deleted queue is gone, from the settings, the stores and every exchange; the others stay. */
  lemma DeletedQueueIsGone(h: Host, mh: HeaderMatch, name: Str)
    ensures var h' := DeleteQueue(h, name);
            && h'.queues == h.queues - {name} && h'.stores == h.stores - {name}
            && h'.exchanges == h.exchanges && h'.lastId == h.lastId
            && forall e, k, hs, q :: Wants(h', mh, e, k, hs, q) <==> q != name && Wants(h, mh, e, k, hs, q)
  {
    hide KeyFits;
  }
}
