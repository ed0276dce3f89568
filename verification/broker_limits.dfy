/** Where the broker falls short of its documents: reachable states that violate the exact conditions. */
module BrokerLimits {
  import opened Bytes
  import opened WireCodec
  import opened Route
  import opened Host
  import opened Broker
  import Channel
  import Deque

  const A: Str := [97]
  const B: Str := [98]
  const F: Str := [102]
  const M: Str := [109]
  const Z: Str := [122]

  lemma {:induction false} RunSnoc(h: Host, mh: HeaderMatch, ops: seq<Op>, op: Op)
    requires IsRun(h, mh, ops) && Proper(Run(h, mh, ops), op)
    ensures IsRun(h, mh, ops + [op]) && Run(h, mh, ops + [op]) == Step(Run(h, mh, ops), mh, op)
    decreases |ops|
  {
    hide Step, Proper;
    if ops == [] {
      assert ops + [op] == [op] && [op][1..] == [];
    } else {
      assert (ops + [op])[1..] == ops[1..] + [op];
      RunSnoc(Step(h, mh, ops[0]), mh, ops[1..], op);
    }
  }

  // ---------- two queues on a fanout exchange ----------

  function InfoOf(dlqExchange: Str, dlqKey: Str): QueueInfo {
    QueueInfo(false, dlqExchange, dlqKey)
  }

  /** Queues x and y, both bound to F; the dead letters of x go to F with this key. */
  function Setup(x: Str, y: Str, key: Str): seq<Op> {
    [OpDeclareExchange(F, FANOUT)] + [OpDeclareQueueWithDlq(x, InfoOf(F, key), [])] +
    [OpDeclareQueueWithDlq(y, InfoOf([], []), [])] + [OpBind(F, x, [], map[])] + [OpBind(F, y, [], map[])]
  }

  function Ready(x: Str, y: Str, key: Str, xs: seq<Payload>, ys: seq<Payload>): Host {
    Host(map[[] := DIRECT, F := FANOUT],
         map[x := InfoOf(F, key), y := InfoOf([], [])],
         map[F := map[x := Binding(F, x, [], map[]), y := Binding(F, y, [], map[])]],
         map[x := xs, y := ys], 0)
  }

  lemma SetupReaches(mh: HeaderMatch, x: Str, y: Str, key: Str)
    requires x != y
    ensures IsRun(FRESH, mh, Setup(x, y, key))
    ensures Run(FRESH, mh, Setup(x, y, key)) == Ready(x, y, key, [], [])
  {
    var o1, o2, o3 := OpDeclareExchange(F, FANOUT), OpDeclareQueueWithDlq(x, InfoOf(F, key), []),
                      OpDeclareQueueWithDlq(y, InfoOf([], []), []);
    var o4, o5 := OpBind(F, x, [], map[]), OpBind(F, y, [], map[]);
    hide Run, IsRun;
    StartOfRun(mh);
    assert [] + [o1] == [o1];
    RunSnoc(FRESH, mh, [], o1);
    RunSnoc(FRESH, mh, [o1], o2);
    RunSnoc(FRESH, mh, [o1] + [o2], o3);
    RunSnoc(FRESH, mh, [o1] + [o2] + [o3], o4);
    RunSnoc(FRESH, mh, [o1] + [o2] + [o3] + [o4], o5);
    SetupSteps(mh, x, y, key);
  }

  lemma StartOfRun(mh: HeaderMatch)
    ensures IsRun(FRESH, mh, []) && Run(FRESH, mh, []) == FRESH
  {
  }

  lemma SetupSteps(mh: HeaderMatch, x: Str, y: Str, key: Str)
    requires x != y
    ensures var h1 := Step(FRESH, mh, OpDeclareExchange(F, FANOUT));
            var h2 := Step(h1, mh, OpDeclareQueueWithDlq(x, InfoOf(F, key), []));
            var h3 := Step(h2, mh, OpDeclareQueueWithDlq(y, InfoOf([], []), []));
            var h4 := Step(h3, mh, OpBind(F, x, [], map[]));
            Step(h4, mh, OpBind(F, y, [], map[])) == Ready(x, y, key, [], [])
  {
  }

  lemma ReadyInv(x: Str, y: Str, key: Str, xs: seq<Payload>, ys: seq<Payload>)
    requires x != y
    ensures Inv(Ready(x, y, key, xs, ys))
    ensures BindingsOf(Ready(x, y, key, xs, ys), F).Keys == {x, y}
  {
  }

  lemma BothMatch(mh: HeaderMatch, x: Str, y: Str, key: Str, xs: seq<Payload>, ys: seq<Payload>,
                  bp: Option<Properties>, lastId: nat)
    requires x != y
    ensures var h := Ready(x, y, key, xs, ys).(lastId := lastId);
            forall q :: IsTarget(h, mh, F, bp, q) <==> q == x || q == y
  {
  }

  /**
   Two queues bound to a fanout exchange match every publish. With properties, whatever they are and
   in whatever order the bindings are taken, not both get the message.
   */
  lemma FanoutWithPropertiesMissesAQueue(mh: HeaderMatch, p: Properties, body: Str, order: seq<Str>)
    requires IsOrder(order, {A, B})
    ensures IsRun(FRESH, mh, Setup(A, B, []))
    ensures var h := Run(FRESH, mh, Setup(A, B, []));
            var h' := PublishToExchange(h, mh, F, order, Some(p), body).0;
            && IsTarget(h, mh, F, Some(p), A) && IsTarget(h, mh, F, Some(p), B)
            && !EachGrewByOne(h, h', Targets(h, mh, F, Some(p), order))
  {
    hide IsTarget, Targets, PublishToExchange, EachGrewByOne, Inv, Run, IsRun;
    SetupReaches(mh, A, B, []);
    var h := Ready(A, B, [], [], []);
    ReadyInv(A, B, [], [], []);
    BothMatch(mh, A, B, [], [], [], Some(p), 0);
    PublishReachesAllIff(h, mh, F, order, Some(p), body);
    var ts := Targets(h, mh, F, Some(p), order);
    assert A in ts && B in ts && A != B;
    if |ts| == 2 { assert ts[0] in ts; }
  }

  /** With a queue of the empty name first, both get it. */
  lemma NamelessQueueGetsASecondCopy(mh: HeaderMatch, p: Properties, body: Str)
    requires p.routingKey == []
    ensures IsRun(FRESH, mh, Setup([], A, [])) && IsOrder([[], A], {[], A})
    ensures var h := Run(FRESH, mh, Setup([], A, []));
            var h' := PublishToExchange(h, mh, F, [[], A], Some(p), body).0;
            Grew(h, h', []) && Grew(h, h', A)
  {
    hide Run, IsRun, Grew, PublishTo, IsTarget;
    SetupReaches(mh, [], A, []);
    var h := Ready([], A, [], [], []);
    BothMatch(mh, [], A, [], [], [], Some(p), 0);
    var order: seq<Str> := [[], A];
    assert order[1..] == [A] && [A][1..] == [];
    assert Targets(h, mh, F, Some(p), [A]) == [A] + [];
    assert Targets(h, mh, F, Some(p), order) == order;
    PublishToReaches(h, order, p, body);
    var h' := PublishTo(h, order, Some(p), body).0;
    hide Received, WithId;
    assert Receivers(order, p.routingKey) == order;
    WhoGrew(h, h', order, WithId(h, p), body, []);
    WhoGrew(h, h', order, WithId(h, p), body, A);
  }

  // ---------- messages in queue A ----------

  function Given(id: Str): Properties {
    Properties(id, 0, [], [])
  }

  function Stored(id: Str, key: Str, body: Str): Payload {
    Payload(Some(Properties(id, 0, key, [])), body, [])
  }

  lemma PublishToA(mh: HeaderMatch, ops: seq<Op>, key: Str, xs: seq<Payload>, body: Str)
    requires IsRun(FRESH, mh, ops) && Run(FRESH, mh, ops) == Ready(A, B, key, xs, [])
    ensures var op := OpPublish(A, Some(Given(M)), body);
            && IsRun(FRESH, mh, ops + [op])
            && Run(FRESH, mh, ops + [op]) == Ready(A, B, key, xs + [Stored(M, A, body)], [])
  {
    RunSnoc(FRESH, mh, ops, OpPublish(A, Some(Given(M)), body));
    hide IsRun, Run, BasicPublish, Ready;
    PublishGivenId(key, xs, body);
  }

  lemma PublishGivenId(key: Str, xs: seq<Payload>, body: Str)
    ensures BasicPublish(Ready(A, B, key, xs, []), A, Some(Given(M)), body).0 ==
            Ready(A, B, key, xs + [Stored(M, A, body)], [])
  {
    var h := Ready(A, B, key, xs, []);
    var p := Given(M).(routingKey := A);
    hide Decimal;
    assert BasicPublish(h, A, Some(Given(M)), body).0 == Append(h, A, Some(p), body);
    hide BasicPublish;
    assert Append(h, A, Some(p), body).stores == map[A := xs + [Stored(M, A, body)], B := []];
  }

  /**
   A dead-letter key that names no queue, on an exchange that does route to two: the rejected message
   is in no queue afterwards.
   */
  lemma DeadLetterIsLost(mh: HeaderMatch, body: Str, order: seq<Str>)
    requires IsOrder(order, {A, B})
    ensures var ops := Setup(A, B, Z) + [OpPublish(A, Some(Given(M)), body)];
            && IsRun(FRESH, mh, ops)
            && var h := Run(FRESH, mh, ops);
               && h.stores == map[A := [Stored(M, A, body)], B := []]
               && Nack(h, mh, A, M, false, order).stores == map[A := [], B := []]
  {
    SetupReaches(mh, A, B, Z);
    PublishToA(mh, Setup(A, B, Z), Z, [], body);
    assert [] + [Stored(M, A, body)] == [Stored(M, A, body)];
    LostLetter(mh, body, order);
  }

  lemma LostLetter(mh: HeaderMatch, body: Str, order: seq<Str>)
    requires IsOrder(order, {A, B})
    ensures Nack(Ready(A, B, Z, [Stored(M, A, body)], []), mh, A, M, false, order).stores == map[A := [], B := []]
  {
    var xs := [Stored(M, A, body)];
    var h := Ready(A, B, Z, xs, []);
    var h', rs := Nack(h, mh, A, M, false, order), LetterReceivers(h, mh, h.queues[A], order);
    ReadyInv(A, B, Z, xs, []);
    BothMatch(mh, A, B, Z, xs, [], Some(DeadLetterProperties(h, h.queues[A])), 1);
    assert Deque.FirstWithId(xs, M) == 0;
    NobodyReceives(h, mh, order);
    hide Inv, IsTarget, Nack, LetterReceivers, IsOrder, Rejected;
    DeadLetterConserves(h, mh, A, M, order);
    AfterRejection(h, h', xs, [], 0, rs, body);
    assert Deque.Without(xs, 0) == [];
  }

  /** The two stores after a rejection from queue A. */
  lemma AfterRejection(h: Host, h': Host, xs: seq<Payload>, ys: seq<Payload>, gone: nat, rs: seq<Str>, body: Str)
    requires h.stores == map[A := xs, B := ys] && A in h.queues && gone < |xs| && A !in rs
    requires Rejected(h, h', A, gone, rs, body)
    ensures h'.stores == map[A := Deque.Without(xs, gone),
                             B := ys + (if B in rs then [Letter(h, h.queues[A], body, B)] else [])]
  {
    hide Letter, Deque.Without;
    assert h'.stores.Keys == {A, B};
    assert A[0] != B[0];
    assert h'.stores[A] == Deque.Without(xs, gone) + [] == Deque.Without(xs, gone);
    assert h'.stores[B] == ys + (if B in rs then [Letter(h, h.queues[A], body, B)] else []);
  }

  lemma NobodyReceives(h: Host, mh: HeaderMatch, order: seq<Str>)
    requires A in h.queues && h.queues[A] == InfoOf(F, Z) && h.lastId == 0
    requires !IsTarget(h.(lastId := 1), mh, F, Some(DeadLetterProperties(h, h.queues[A])), Z)
    ensures LetterReceivers(h, mh, h.queues[A], order) == []
  {
    hide IsTarget, Decimal;
  }

  /** Two messages with one id: acknowledging the first after its delivery removes the second, undelivered. */
  lemma AutoAckRemovesAnother(mh: HeaderMatch, first: Str, second: Str)
    ensures var ops := Setup(A, B, []) + [OpPublish(A, Some(Given(M)), first)] + [OpPublish(A, Some(Given(M)), second)];
            && IsRun(FRESH, mh, ops)
            && var h := Run(FRESH, mh, ops);
               && A in h.stores && Consume(h, A).1 == Some(Stored(M, A, first))
               && Consume(h, A).0.stores[A] == [Stored(M, A, second)]
               && Channel.AutoAcked(h, A).stores[A] == []
  {
    var ops := Setup(A, B, []);
    SetupReaches(mh, A, B, []);
    PublishToA(mh, ops, [], [], first);
    PublishToA(mh, ops + [OpPublish(A, Some(Given(M)), first)], [], [] + [Stored(M, A, first)], second);
    hide IsRun, Run;
    TwoOfOneId(first, second);
    assert [] + [Stored(M, A, first)] + [Stored(M, A, second)] == [Stored(M, A, first), Stored(M, A, second)];
  }

  lemma TwoOfOneId(first: Str, second: Str)
    ensures var h := Ready(A, B, [], [Stored(M, A, first), Stored(M, A, second)], []);
            && Consume(h, A) == (h.(stores := h.stores[A := [Stored(M, A, second)]]), Some(Stored(M, A, first)))
            && Channel.AutoAcked(h, A).stores[A] == []
  {
    assert [Stored(M, A, first), Stored(M, A, second)][1..] == [Stored(M, A, second)];
    var rest := [Stored(M, A, second)];
    assert Deque.FirstWithId(rest, M) == 0;
    assert Deque.Remove(rest, M) == [];
  }

  /**
   Behind a message with an id stands one without, as publish_ex leaves it. Rejecting by the empty id
   dead-letters the second and removes the first, which is in no queue afterwards.
   */
  lemma EmptyIdNackLosesTheFront(mh: HeaderMatch, first: Str, second: Str, order: seq<Str>)
    requires first != second && IsOrder(order, {A, B})
    ensures var ops := Setup(A, B, B) + [OpPublish(A, Some(Given(M)), first)] + [OpPublishEx(F, [], None, second)];
            && IsRun(FRESH, mh, ops)
            && var h := Run(FRESH, mh, ops);
               var h' := Nack(h, mh, A, [], false, order);
               && h.stores == map[A := [Stored(M, A, first), Stored([], [], second)], B := [Stored([], [], second)]]
               && h'.stores.Keys == {A, B}
               && h'.stores[A] == [Stored([], [], second)]
               && |h'.stores[B]| == 2 && h'.stores[B][1].body == second
               && forall q <- h'.stores.Keys, p <- h'.stores[q] :: p.body != first
  {
    var ops := Setup(A, B, B);
    SetupReaches(mh, A, B, B);
    PublishToA(mh, ops, B, [], first);
    assert [] + [Stored(M, A, first)] == [Stored(M, A, first)];
    var more := ops + [OpPublish(A, Some(Given(M)), first)];
    RunSnoc(FRESH, mh, more, OpPublishEx(F, [], None, second));
    hide IsRun, Run;
    CopyToBoth(mh, first, second);
    WrongOneRejected(mh, first, second, order);
  }

  lemma CopyToBoth(mh: HeaderMatch, first: Str, second: Str)
    ensures Step(Ready(A, B, B, [Stored(M, A, first)], []), mh, OpPublishEx(F, [], None, second)) ==
            Ready(A, B, B, [Stored(M, A, first), Stored([], [], second)], [Stored([], [], second)])
  {
    var h := Ready(A, B, B, [Stored(M, A, first)], []);
    var none := Stored([], [], second);
    assert FilledIn(None, []) == DEFAULT_PROPERTIES;
    assert Reached(h, F, []) == {A, B};
    assert [Stored(M, A, first)] + [none] == [Stored(M, A, first), none] && [] + [none] == [none];
    hide Reached, FilledIn;
    CopiedIntoBoth(h, [Stored(M, A, first)], [], second);
  }

  lemma CopiedIntoBoth(h: Host, xs: seq<Payload>, ys: seq<Payload>, body: Str)
    requires h.stores == map[A := xs, B := ys] && !IsDurable(h, A) && !IsDurable(h, B)
    ensures Copied(h, {A, B}, DEFAULT_PROPERTIES, body).stores ==
            map[A := xs + [Stored([], [], body)], B := ys + [Stored([], [], body)]]
  {
  }

  lemma WrongOneRejected(mh: HeaderMatch, first: Str, second: Str, order: seq<Str>)
    requires first != second && IsOrder(order, {A, B})
    ensures var h := Ready(A, B, B, [Stored(M, A, first), Stored([], [], second)], [Stored([], [], second)]);
            var h' := Nack(h, mh, A, [], false, order);
            && h'.stores.Keys == {A, B}
            && h'.stores[A] == [Stored([], [], second)]
            && |h'.stores[B]| == 2 && h'.stores[B][1].body == second
            && forall q <- h'.stores.Keys, p <- h'.stores[q] :: p.body != first
  {
    hide Ready, Inv, IsTarget, Nack, LetterReceivers, IsOrder, Rejected, Decimal, Letter, BindingsOf;
    var xs, ys := [Stored(M, A, first), Stored([], [], second)], [Stored([], [], second)];
    var h := Ready(A, B, B, xs, ys);
    ReadyInv(A, B, B, xs, ys);
    ReadyData(B, xs, ys);
    BothMatch(mh, A, B, B, xs, ys, Some(DeadLetterProperties(h, h.queues[A])), 1);
    BReceives(h, mh, order);
    SecondHasNoId(first, second);
    EmptyIdNackTakesTheFront(h, mh, A, order);
    var h' := Nack(h, mh, A, [], false, order);
    AfterRejection(h, h', xs, ys, 0, [B], second);
    LetterBody(h, h.queues[A], second, B);
  }

  lemma ReadyData(key: Str, xs: seq<Payload>, ys: seq<Payload>)
    ensures var h := Ready(A, B, key, xs, ys);
            h.stores == map[A := xs, B := ys] && A in h.queues && h.queues[A] == InfoOf(F, key) && h.lastId == 0
  {
  }

  lemma SecondHasNoId(first: Str, second: Str)
    ensures var xs := [Stored(M, A, first), Stored([], [], second)];
            Deque.FirstWithId(xs, []) == 1 && Deque.Without(xs, 0) == [Stored([], [], second)]
  {
    var xs := [Stored(M, A, first), Stored([], [], second)];
    assert xs[1..] == [Stored([], [], second)];
  }

  lemma LetterBody(h: Host, info: QueueInfo, body: Str, d: Str)
    ensures Letter(h, info, body, d).body == body
  {
    hide DeadLetterProperties;
  }

  lemma BReceives(h: Host, mh: HeaderMatch, order: seq<Str>)
    requires IsOrder(order, {A, B}) && A in h.queues && h.queues[A] == InfoOf(F, B)
    requires IsTarget(h.(lastId := 1), mh, F, Some(DeadLetterProperties(h, h.queues[A])), B) && h.lastId == 0
    ensures LetterReceivers(h, mh, h.queues[A], order) == [B]
  {
    hide IsTarget, Decimal;
    assert B in order;
  }
}
