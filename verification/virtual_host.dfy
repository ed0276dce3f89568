/** The broker object: its maps updated in place, one method per operation. */
module VirtualHost {
  import opened Bytes
  import opened WireCodec
  import opened Route
  import opened Host
  import opened Broker
  import Deque

  class VirtualHost {
    var exchanges: map<Str, ExchangeType>
    var queues: map<Str, QueueInfo>
    var bindings: map<Str, map<Str, Binding>>
    var stores: map<Str, seq<Payload>>
    var lastId: nat
    const matchHeaders: HeaderMatch

    function State(): Host
      reads this
    {
      Host(exchanges, queues, bindings, stores, lastId)
    }

    ghost predicate Valid()
      reads this
    {
      Inv(State())
    }

    constructor (matchHeaders: HeaderMatch)
      ensures State() == FRESH && Valid() && this.matchHeaders == matchHeaders
    {
      this.matchHeaders := matchHeaders;
      exchanges, queues, bindings, stores, lastId := map[[] := DIRECT], map[], map[], map[], 0;
    }

    method GenerateId() returns (id: Str)
      modifies this`lastId
      ensures lastId == old(lastId) + 1 && id == Decimal(lastId)
    {
      lastId := lastId + 1;
      id := Decimal(lastId);
    }

    // ---------- exchanges, queues, bindings ----------

    method DeclareExchangeNamed(name: Str, kind: ExchangeType)
      requires Valid()
      modifies this
      ensures Valid() && State() == DeclareExchange(old(State()), name, kind)
    {
      hide Inv;
      NewExchangeInv(State(), name, kind);
      if name !in exchanges { exchanges := exchanges[name := kind]; }
    }

    method DeleteExchangeNamed(name: Str)
      requires Valid()
      modifies this
      ensures Valid() && State() == DeleteExchange(old(State()), name)
    {
      hide Inv;
      DeleteInv(State(), name);
      bindings := bindings - {name};
      exchanges := exchanges - {name};
    }

    method BindQueue(exchange: Str, queue: Str, key: Str, args: map<Str, Str>) returns (ok: bool)
      requires Valid()
      modifies this
      ensures Valid() && (State(), ok) == Bind(old(State()), exchange, queue, key, args)
    {
      hide Inv;
      BindInv(State(), exchange, queue, key, args);
      if exchange !in exchanges || queue !in queues { return false; }
      if exchange !in bindings { bindings := bindings[exchange := map[]]; }
      bindings := bindings[exchange := bindings[exchange][queue := Binding(exchange, queue, key, args)]];
      assert bindings == Bind(old(State()), exchange, queue, key, args).0.bindings;
      return true;
    }

    method UnbindQueue(exchange: Str, queue: Str)
      requires Valid()
      modifies this
      ensures Valid() && State() == Unbind(old(State()), exchange, queue)
    {
      hide Inv;
      UnbindInv(State(), exchange, queue);
      if exchange in bindings { bindings := bindings[exchange := bindings[exchange] - {queue}]; }
    }

    method AddQueueNamed(name: Str, info: QueueInfo, onDisk: seq<Payload>)
      requires Valid()
      modifies this
      ensures Valid() && State() == AddQueue(old(State()), name, info, onDisk)
    {
      hide Inv;
      AddQueueInv(State(), name, info, onDisk);
      if name !in queues { queues := queues[name := info]; }
      if name !in stores { stores := stores[name := if info.durable then onDisk else []]; }
    }

    method DeclareQueueNamed(name: Str, durable: bool, onDisk: seq<Payload>)
      requires Valid()
      modifies this
      ensures Valid() && State() == DeclareQueue(old(State()), name, durable, onDisk)
    {
      hide AddQueue, Bind;
      AddQueueNamed(name, QueueInfo(durable, [], []), onDisk);
      var bound := BindQueue([], name, name, map[]);
    }

    method DeclareDlqQueueNamed(name: Str, info: QueueInfo, onDisk: seq<Payload>)
      requires Valid()
      modifies this
      ensures Valid() && State() == DeclareQueueWithDlq(old(State()), name, info, onDisk)
    {
      AddQueueNamed(name, info, onDisk);
    }

    /** The loop over all exchanges takes them in whatever order. */
    method EraseFromBindings(name: Str)
      modifies this`bindings
      ensures bindings == Cleared(old(bindings), {}, name)
    {
      hide Cleared;
      var todo := bindings.Keys;
      ClearedAtTheStart(bindings, name);
      while todo != {}
        invariant todo <= bindings.Keys
        invariant bindings == Cleared(old(bindings), todo, name)
        decreases |todo|
      {
        var e :| e in todo;
        ClearedOneMore(old(bindings), todo, e, name);
        bindings := bindings[e := bindings[e] - {name}];
        todo := todo - {e};
      }
    }

    method DeleteQueueNamed(name: Str)
      requires Valid()
      modifies this
      ensures Valid() && State() == DeleteQueue(old(State()), name)
    {
      hide Inv;
      DeleteInv(State(), name);
      stores := stores - {name};
      queues := queues - {name};
      EraseFromBindings(name);
      assert bindings == DeleteQueue(old(State()), name).bindings;
    }

    // ---------- publishing ----------

    /** bp' is what the caller's properties have become. */
    method BasicPublishTo(queue: Str, bp: Option<Properties>, body: Str) returns (bp': Option<Properties>, ok: bool)
      modifies this
      ensures (State(), bp', ok) == BasicPublish(old(State()), queue, bp, body)
    {
      hide Decimal;
      bp' := bp;
      if queue !in stores { return bp', false; }
      if bp'.Some? && bp'.value.id == [] {
        var id := GenerateId();
        bp' := Some(bp'.value.(id := id));
      }
      var used := if bp'.Some? then bp'.value else DEFAULT_PROPERTIES;
      if used.routingKey == [] {
        used := used.(routingKey := queue);
        if bp'.Some? { bp' := Some(used); }
      } else if used.routingKey != queue {
        return bp', false;
      }
      var durable := false;
      if queue in queues { durable := queues[queue].durable; }
      stores := stores[queue := stores[queue] + [Deque.NewPayload(Some(used), body, durable)]];
      return bp', true;
    }

    /** order: the iteration order of the exchange's binding map. */
    method PublishOn(exchange: Str, order: seq<Str>, bp: Option<Properties>, body: Str)
      returns (bp': Option<Properties>, ok: bool)
      requires Valid() && IsOrder(order, BindingsOf(State(), exchange).Keys)
      modifies this
      ensures Valid()
      ensures (State(), bp', ok) == PublishToExchange(old(State()), matchHeaders, exchange, order, bp, body)
    {
      hide BasicPublish, PublishTo, Inv, Targets, IsTarget, RouteMatch;
      ghost var h, ts := State(), Targets(State(), matchHeaders, exchange, bp, order);
      PublishKeepsTopology(h, ts, bp, body);
      TopologyDecides(h, PublishTo(h, ts, bp, body).0);
      bp', ok := bp, false;
      NoTargets(h, matchHeaders, exchange, bp, order, body);
      if exchange !in exchanges { return; }
      var kind := exchanges[exchange];
      var bound := if exchange in bindings then bindings[exchange] else map[];
      if bound == map[] { return; }
      var routingKey: Str := [];
      if bp.Some? && bp.value.routingKey != [] { routingKey := bp.value.routingKey; }
      var headers: seq<OtherField> := [];
      if bp.Some? { headers := bp.value.others; }
      var i := 0;
      assert order[..0] == [];
      while i < |order|
        invariant 0 <= i <= |order|
        invariant (State(), bp', ok) == PublishTo(h, Targets(h, matchHeaders, exchange, bp, order[..i]), bp, body)
        decreases |order| - i
      {
        var q := order[i];
        assert q in order;
        var b := bound[q];
        var shouldPublish;
        match kind {
          case HEADERS => shouldPublish := matchHeaders(headers, b.args);
          case _ => shouldPublish := MatchRoute(kind, routingKey, b.key);
        }
        HitIsTarget(h, matchHeaders, exchange, bp, q);
        PublishNext(h, matchHeaders, exchange, bp, body, order, i);
        if shouldPublish {
          var published;
          bp', published := BasicPublishTo(q, bp', body);
          if published { ok := true; }
        }
        i := i + 1;
      }
      assert order[..i] == order;
    }

    /** The insert of publish_ex into one queue, which need not exist. */
    method InsertInto(queue: Str, p: Properties, body: Str) returns (ok: bool)
      modifies this`stores
      ensures State() == Append(old(State()), queue, Some(p), body)
      ensures ok <==> queue in old(stores)
    {
      var durable := false;
      if queue in queues { durable := queues[queue].durable; }
      if queue in stores { stores := stores[queue := stores[queue] + [Deque.NewPayload(Some(p), body, durable)]]; }
      ok := queue in stores;
    }

    /** The loop over the bindings takes them in whatever order: the result does not depend on it. */
    method CopyToMatching(exchange: Str, p: Properties, body: Str) returns (delivered: bool)
      requires exchange in exchanges
      modifies this`stores
      ensures State() == Copied(old(State()), Reached(old(State()), exchange, p.routingKey), p, body)
      ensures delivered <==> Reached(old(State()), exchange, p.routingKey) != {}
    {
      hide Copied, Reached, RouteMatch, Append;
      ghost var h := State();
      delivered := false;
      var bound := if exchange in bindings then bindings[exchange] else map[];
      var todo := bound.Keys;
      ghost var reached := Reached(h, exchange, p.routingKey);
      ReachedIsBound(h, exchange, p.routingKey);
      CopiedToNone(h, reached - todo, p, body);
      while todo != {}
        invariant todo <= bound.Keys
        invariant State() == Copied(h, reached - todo, p, body)
        invariant delivered <==> reached - todo != {}
        decreases |todo|
      {
        var q :| q in todo;
        ReachedMember(h, exchange, p.routingKey, q);
        CopiedToOneMore(h, reached, todo, q, p, body);
        var hit := MatchRoute(exchanges[exchange], p.routingKey, bound[q].key);
        if hit {
          var inserted := InsertInto(q, p, body);
          delivered := delivered || inserted;
        }
        todo := todo - {q};
      }
      assert reached - todo == reached;
    }

    method PublishExTo(exchange: Str, key: Str, bp: Option<Properties>, body: Str)
      returns (bp': Option<Properties>, delivered: bool)
      requires Valid()
      modifies this
      ensures Valid()
      ensures (State(), bp', delivered) == PublishEx(old(State()), exchange, key, bp, body)
    {
      hide Inv, Copied, Reached;
      PublishExKeepsTopology(State(), exchange, key, bp, body);
      TopologyDecides(State(), PublishEx(State(), exchange, key, bp, body).0);
      if exchange !in exchanges { return bp, false; }
      var p := if bp.Some? then bp.value else DEFAULT_PROPERTIES;
      if p.routingKey == [] { p := p.(routingKey := key); }
      bp' := if bp.Some? then Some(p) else None;
      delivered := CopyToMatching(exchange, p, body);
    }

    // ---------- consuming ----------

    method BasicConsume(queue: Str) returns (m: Option<Payload>)
      requires Valid()
      modifies this
      ensures Valid() && (State(), m) == Consume(old(State()), queue)
    {
      hide Inv, Deque.Remove;
      TakingKeepsTopology(State(), queue, []);
      TopologyDecides(State(), Consume(State(), queue).0);
      if queue !in stores || stores[queue] == [] { return None; }
      var front := stores[queue][0];
      Deque.RemoveByFrontId(stores[queue]);
      stores := stores[queue := Deque.Remove(stores[queue], front.Id())];
      return Some(front);
    }

    method BasicAck(queue: Str, id: Str)
      requires Valid()
      modifies this
      ensures Valid() && State() == RemoveFrom(old(State()), queue, id)
    {
      hide Inv, Deque.Remove;
      TakingKeepsTopology(State(), queue, id);
      TopologyDecides(State(), RemoveFrom(State(), queue, id));
      if queue !in stores { return; }
      stores := stores[queue := Deque.Remove(stores[queue], id)];
    }

    /** order: the iteration order of the dead-letter exchange's binding map. */
    method BasicNack(queue: Str, id: Str, requeue: bool, order: seq<Str>)
      requires Valid()
      requires queue in queues ==> IsOrder(order, BindingsOf(State(), queues[queue].dlqExchange).Keys)
      modifies this
      ensures Valid() && State() == Nack(old(State()), matchHeaders, queue, id, requeue, order)
    {
      hide Inv, PublishToExchange, Deque.Remove, Decimal;
      if queue !in stores { return; }
      if queue !in queues { return; }
      if requeue { return; }
      if queues[queue].dlqExchange == [] {
        TakingKeepsTopology(State(), queue, id);
        TopologyDecides(State(), RemoveFrom(State(), queue, id));
        stores := stores[queue := Deque.Remove(stores[queue], id)];
        return;
      }
      if stores[queue] == [] { return; }
      ghost var h := State();
      var all := stores[queue];
      var i := 0;
      while i < |all| && all[i].Id() != id
        invariant 0 <= i <= |all|
        invariant forall j :: 0 <= j < i ==> all[j].Id() != id
      {
        i := i + 1;
      }
      assert Deque.FirstWithId(all, id) == i;
      if i == |all| { return; }
      var target := all[i];
      var info := queues[queue];
      var newId := GenerateId();
      var props := Properties(newId, DURABLE_MODE, info.dlqKey, []);
      InvIgnoresTheCounter(h, lastId);
      var sentProps, sent := PublishOn(info.dlqExchange, order, Some(props), target.body);
      TakingKeepsTopology(State(), queue, id);
      TopologyDecides(State(), RemoveFrom(State(), queue, id));
      if queue in stores { stores := stores[queue := Deque.Remove(stores[queue], id)]; }
    }

    /** order: the iteration order of the map of stores. */
    method BasicQuery(order: seq<Str>) returns (body: Str)
      requires Valid() && IsOrder(order, stores.Keys)
      modifies this
      ensures Valid() && (State(), body) == Query(old(State()), order)
    {
      var i := 0;
      while i < |order|
        invariant 0 <= i <= |order|
        invariant State() == old(State())
        invariant forall j :: 0 <= j < i ==> stores[order[j]] == []
      {
        var q := order[i];
        assert q in order;
        if stores[q] != [] {
          var m := BasicConsume(q);
          assert FirstWithMessages(old(State()), order) == i;
          return m.value.body;
        }
        i := i + 1;
      }
      return [];
    }
  }

  // ---------- the steps of the loops ----------

  /** The bindings when delete_queue has yet to visit the exchanges in todo. */
  function Cleared(bs: map<Str, map<Str, Binding>>, todo: set<Str>, name: Str): map<Str, map<Str, Binding>> {
    map e | e in bs :: if e in todo then bs[e] else bs[e] - {name}
  }

  lemma ClearedAtTheStart(bs: map<Str, map<Str, Binding>>, name: Str)
    ensures Cleared(bs, bs.Keys, name) == bs
  {
  }

  lemma ClearedOneMore(bs: map<Str, map<Str, Binding>>, todo: set<Str>, e: Str, name: Str)
    requires e in todo && e in Cleared(bs, todo, name)
    ensures Cleared(bs, todo, name)[e := Cleared(bs, todo, name)[e] - {name}] == Cleared(bs, todo - {e}, name)
    ensures Cleared(bs, todo - {e}, name).Keys == bs.Keys == Cleared(bs, todo, name).Keys
  {
  }

  /** What the loops of publishing decide about one binding. */
  lemma HitIsTarget(h: Host, mh: HeaderMatch, e: Str, bp: Option<Properties>, q: Str)
    requires e in h.exchanges && q in BindingsOf(h, e)
    ensures IsTarget(h, mh, e, bp, q) ==
            var kind, b := h.exchanges[e], BindingsOf(h, e)[q];
            if kind == HEADERS then mh(HeadersOf(bp), b.args) else RouteMatch(kind, KeyOf(bp), b.key)
  {
  }

  lemma ReachedIsBound(h: Host, e: Str, key: Str)
    ensures Reached(h, e, key) - BindingsOf(h, e).Keys == {}
  {
  }

  lemma ReachedMember(h: Host, e: Str, key: Str, q: Str)
    requires e in h.exchanges && q in BindingsOf(h, e)
    ensures q in Reached(h, e, key) <==> q in h.stores && RouteMatch(h.exchanges[e], key, BindingsOf(h, e)[q].key)
  {
  }

  /** An unknown exchange, or one without bindings, publishes nothing. */
  lemma NoTargets(h: Host, mh: HeaderMatch, e: Str, bp: Option<Properties>, order: seq<Str>, body: Str)
    ensures PublishTo(h, [], bp, body) == (h, bp, false)
    ensures e !in h.exchanges || BindingsOf(h, e) == map[] ==> Targets(h, mh, e, bp, order) == []
    ensures Targets(h, mh, e, bp, []) == []
  {
    if e !in h.exchanges || BindingsOf(h, e) == map[] { NothingBound(h, mh, e, bp, order); }
    assert bp.None? ==> PublishTo(h, [], bp, body).0.stores == h.stores;
  }

  lemma {:induction false} NothingBound(h: Host, mh: HeaderMatch, e: Str, bp: Option<Properties>, order: seq<Str>)
    requires forall q :: !IsTarget(h, mh, e, bp, q)
    ensures Targets(h, mh, e, bp, order) == []
  {
    if order != [] { NothingBound(h, mh, e, bp, order[1..]); }
  }

  lemma {:induction false} TargetsConcat(h: Host, mh: HeaderMatch, e: Str, bp: Option<Properties>,
                                         a: seq<Str>, b: seq<Str>)
    ensures Targets(h, mh, e, bp, a + b) == Targets(h, mh, e, bp, a) + Targets(h, mh, e, bp, b)
  {
    hide IsTarget;
    if a == [] {
      assert a + b == b;
    } else {
      assert (a + b)[1..] == a[1..] + b;
      TargetsConcat(h, mh, e, bp, a[1..], b);
    }
  }

  /** One turn of the publishing loop. */
  lemma PublishNext(h: Host, mh: HeaderMatch, e: Str, bp: Option<Properties>, body: Str, order: seq<Str>, i: nat)
    requires Inv(h) && IsOrder(order, BindingsOf(h, e).Keys) && i < |order|
    ensures var ts := Targets(h, mh, e, bp, order[..i]);
            var ts' := Targets(h, mh, e, bp, order[..i + 1]);
            var (h1, bp1, ok1) := PublishTo(h, ts, bp, body);
            if !IsTarget(h, mh, e, bp, order[i]) then ts' == ts
            else var (h2, bp2, ok2) := BasicPublish(h1, order[i], bp1, body);
                 PublishTo(h, ts', bp, body) == (h2, bp2, ok1 || ok2)
  {
    hide PublishTo, BasicPublish, IsTarget;
    var q, ts := order[i], Targets(h, mh, e, bp, order[..i]);
    assert order[..i + 1] == order[..i] + [q];
    TargetsConcat(h, mh, e, bp, order[..i], [q]);
    assert [q][1..] == [];
    assert Targets(h, mh, e, bp, [q]) == if IsTarget(h, mh, e, bp, q) then [q] + [] else [];
    if IsTarget(h, mh, e, bp, q) {
      TargetsAreDistinct(h, mh, e, bp, order[..i]);
      assert q !in order[..i];
      TargetsExist(h, mh, e, bp, order[..i + 1]);
      assert forall t <- ts :: t in Targets(h, mh, e, bp, order[..i + 1]);
      assert q in Targets(h, mh, e, bp, order[..i + 1]);
      PublishOneMore(h, ts, q, bp, body);
      assert ts + ([q] + []) == ts + [q];
    }
  }

  lemma PublishOneMore(h: Host, ts: seq<Str>, q: Str, bp: Option<Properties>, body: Str)
    requires (forall t <- ts :: t in h.stores) && q in h.stores && q !in ts && Distinct(ts)
    ensures var (h1, bp1, ok1) := PublishTo(h, ts, bp, body);
            var (h2, bp2, ok2) := BasicPublish(h1, q, bp1, body);
            PublishTo(h, ts + [q], bp, body) == (h2, bp2, ok1 || ok2)
  {
    hide Decimal, Deque.NewPayload;
    if bp.None? { PublishOneMoreToAll(h, ts, q, body); }
  }

  lemma PublishOneMoreToAll(h: Host, ts: seq<Str>, q: Str, body: Str)
    requires (forall t <- ts :: t in h.stores) && q in h.stores && q !in ts
    ensures var (h1, bp1, ok1) := PublishTo(h, ts, None, body);
            var (h2, bp2, ok2) := BasicPublish(h1, q, bp1, body);
            PublishTo(h, ts + [q], None, body) == (h2, bp2, ok1 || ok2)
  {
    hide Deque.NewPayload;
    var h1 := PublishTo(h, ts, None, body).0;
    assert PublishTo(h, ts + [q], None, body).0.stores == BasicPublish(h1, q, None, body).0.stores;
  }

  lemma CopiedToNone(h: Host, s: set<Str>, p: Properties, body: Str)
    requires s == {}
    ensures Copied(h, s, p, body) == h
  {
    assert Copied(h, {}, p, body).stores == h.stores;
  }

  /** One turn of publish_ex's loop. */
  lemma CopiedToOneMore(h: Host, reached: set<Str>, todo: set<Str>, q: Str, p: Properties, body: Str)
    requires q in todo
    ensures var before, after := Copied(h, reached - todo, p, body), Copied(h, reached - (todo - {q}), p, body);
            && (reached - (todo - {q}) != {} <==> reached - todo != {} || q in reached)
            && (q !in reached ==> after == before)
            && (q in reached && q in h.stores ==> q in before.stores && after == Append(before, q, Some(p), body))
            && (q !in h.stores ==> q !in before.stores && Append(before, q, Some(p), body) == before)
  {
    hide Deque.NewPayload;
    var before, after := Copied(h, reached - todo, p, body), Copied(h, reached - (todo - {q}), p, body);
    if q in reached {
      assert q in reached - (todo - {q});
      if q in h.stores {
        var copy := Deque.NewPayload(Some(p), body, IsDurable(h, q));
        assert after.stores == before.stores[q := before.stores[q] + [copy]];
      }
    } else {
      assert reached - (todo - {q}) == reached - todo;
    }
  }
}
