/** Delivery on a channel: take a message, choose a consumer, hand it over, acknowledge. */
module Channel {
  import opened Bytes
  import opened WireCodec
  import opened Host
  import opened Consumers
  import V = VirtualHost
  import Deque

  /** What the consumer's callback was given. */
  datatype Delivery = Delivery(consumer: Consumer, message: Payload)

  /** The state after one delivery task for queue q, and what was handed over. */
  function Deliver(h: Host, rings: map<Str, Ring>, q: Str): (Host, map<Str, Ring>, Option<Delivery>) {
    var (h1, m) := Consume(h, q);
    if m.None? || q !in rings then (h1, rings, None)
    else
      var (ring, c) := Choose(rings[q]);
      if c.None? then (h1, rings[q := ring], None)
      else
        var h2 := if c.value.autoAck then RemoveFrom(h1, q, m.value.Id()) else h1;
        (h2, rings[q := ring], Some(Delivery(c.value, m.value)))
  }

  method ConsumeTask(host: V.VirtualHost, manager: ConsumerManager, q: Str) returns (d: Option<Delivery>)
    requires host.Valid() && manager.Valid()
    modifies host, manager.queues.Values
    ensures host.Valid() && manager.Valid()
    ensures (host.State(), manager.Rings(), d) == Deliver(old(host.State()), old(manager.Rings()), q)
  {
    hide Consume, Choose, RemoveFrom;
    d := None;
    var m := host.BasicConsume(q);
    if m.None? { return; }
    var c := manager.ChooseFrom(q);
    if c.None? { return; }
    d := Some(Delivery(c.value, m.value));
    if c.value.autoAck { host.BasicAck(q, m.value.Id()); }
  }

  // ---------- one task ----------

  /** An empty or unknown queue, and then no round of consumers moves. */
  lemma NothingToDeliver(h: Host, rings: map<Str, Ring>, q: Str)
    requires q !in h.stores || h.stores[q] == []
    ensures Deliver(h, rings, q) == (h, rings, None)
  {
  }

  /** Without a consumer the front is taken all the same, and nobody gets it. */
  lemma UndeliveredIsLost(h: Host, rings: map<Str, Ring>, q: Str)
    requires q in h.stores && h.stores[q] != [] && (q !in rings || rings[q].consumers == [])
    ensures Deliver(h, rings, q) == (h.(stores := h.stores[q := h.stores[q][1..]]), rings, None)
  {
    if q in rings { assert rings[q := rings[q]] == rings; }
  }

  /**
   With one, the consumer whose turn it is gets the front, and the turn passes on. If it acknowledges
   automatically, the id of the message is acknowledged on what is left of the queue.
   */
  lemma DeliverHandsOver(h: Host, rings: map<Str, Ring>, q: Str)
    requires q in h.stores && h.stores[q] != [] && q in rings && rings[q].consumers != []
    ensures var cs, at := rings[q].consumers, rings[q].index;
            var h1, c := h.(stores := h.stores[q := h.stores[q][1..]]), cs[at % |cs|];
            Deliver(h, rings, q) ==
              (if c.autoAck then RemoveFrom(h1, q, h.stores[q][0].Id()) else h1,
               rings[q := Ring(cs, (at + 1) % |cs|)],
               Some(Delivery(c, h.stores[q][0])))
  {
    hide RemoveFrom;
  }

  // ---------- automatic acknowledgement ----------

  /** Acknowledging the message just taken, by its id. */
  function AutoAcked(h: Host, q: Str): Host {
    var (h1, m) := Consume(h, q);
    if m.Some? then RemoveFrom(h1, q, m.value.Id()) else h1
  }

  /**
   The acknowledgement after a delivery is meant to be for the message delivered, which is gone
   already. It removes nothing else exactly when nothing is left to remove, or the message had an
   id and no other message has the same one.
   */
  lemma AutoAckRemovesNothingIff(h: Host, q: Str)
    requires q in h.stores && h.stores[q] != []
    ensures var id, rest := h.stores[q][0].Id(), h.stores[q][1..];
            AutoAcked(h, q) == Consume(h, q).0 <==> rest == [] || (id != [] && forall p <- rest :: p.Id() != id)
  {
    var id, rest := h.stores[q][0].Id(), h.stores[q][1..];
    var h1 := Consume(h, q).0;
    assert h1.stores[q] == rest;
    var k := Deque.Victim(rest, id);
    if k < |rest| {
      assert |Deque.Remove(rest, id)| == |rest| - 1;
      assert rest[k] in rest;
    } else {
      assert RemoveFrom(h1, q, id).stores == h1.stores;
    }
  }

  // ---------- runs of delivery tasks ----------

  /** What k delivery tasks for queue q in a row hand over. */
  function Deliveries(h: Host, rings: map<Str, Ring>, q: Str, k: nat): seq<Delivery>
    decreases k
  {
    if k == 0 then []
    else
      var (h1, rings1, d) := Deliver(h, rings, q);
      var rest := Deliveries(h1, rings1, q, k - 1);
      if d.Some? then [d.value] + rest else rest
  }

  function AfterDeliveries(h: Host, rings: map<Str, Ring>, q: Str, k: nat): Host
    decreases k
  {
    if k == 0 then h
    else
      var (h1, rings1, _) := Deliver(h, rings, q);
      AfterDeliveries(h1, rings1, q, k - 1)
  }

  predicate UniqueIds(ps: seq<Payload>) {
    && (forall i :: 0 <= i < |ps| ==> ps[i].Id() != [])
    && (forall i, j :: 0 <= i < j < |ps| ==> ps[i].Id() != ps[j].Id())
  }

  /** One task with a consumer at hand takes exactly the front, acknowledged automatically or not. */
  lemma DeliverTakesTheFront(h: Host, rings: map<Str, Ring>, q: Str)
    requires q in h.stores && h.stores[q] != [] && UniqueIds(h.stores[q])
    requires q in rings && rings[q].consumers != []
    ensures var (ring, c) := Choose(rings[q]);
            c.Some? && Deliver(h, rings, q) ==
              (h.(stores := h.stores[q := h.stores[q][1..]]), rings[q := ring], Some(Delivery(c.value, h.stores[q][0])))
  {
    hide RemoveFrom, AutoAcked, Wrap;
    AutoAckRemovesNothingIff(h, q);
    var rest := h.stores[q][1..];
    forall p <- rest ensures p.Id() != h.stores[q][0].Id() {
      var i :| 0 <= i < |rest| && rest[i] == p;
      assert h.stores[q][i + 1] == p;
    }
    assert AutoAcked(h, q) == RemoveFrom(Consume(h, q).0, q, h.stores[q][0].Id()) by { AutoAckedIs(h, q); }
  }

  lemma AutoAckedIs(h: Host, q: Str)
    requires q in h.stores && h.stores[q] != []
    ensures AutoAcked(h, q) == RemoveFrom(Consume(h, q).0, q, h.stores[q][0].Id())
  {
  }

  /**
   With unique ids and consumers subscribed, k tasks hand over the first k messages in queue order,
   each once, to the consumers in round-robin order, and leave the rest of the queue in place.
   */
  lemma {:induction false} DeliveriesAreInOrder(h: Host, rings: map<Str, Ring>, q: Str, k: nat)
    requires q in h.stores && UniqueIds(h.stores[q]) && k <= |h.stores[q]|
    requires q in rings && rings[q].consumers != []
    ensures var ds, h' := Deliveries(h, rings, q, k), AfterDeliveries(h, rings, q, k);
            && |ds| == k && q in h'.stores && h'.stores[q] == h.stores[q][k..]
            && forall i :: 0 <= i < k ==> ds[i] == Delivery(Choices(rings[q], k)[i], h.stores[q][i])
    decreases k
  {
    hide Deliver, Choose;
    if k > 0 {
      var ps := h.stores[q];
      DeliverTakesTheFront(h, rings, q);
      var (h1, rings1, d) := Deliver(h, rings, q);
      assert forall i :: 0 <= i < |ps| - 1 ==> ps[1..][i] == ps[i + 1];
      ChooseKeepsConsumers(rings[q]);
      DeliveriesAreInOrder(h1, rings1, q, k - 1);
    }
  }

  lemma ChooseKeepsConsumers(r: Ring)
    ensures Choose(r).0.consumers == r.consumers
  {
  }
}
