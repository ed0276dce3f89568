/** The consumers of each queue and the round-robin choice among them. */
module Consumers {
  import opened Bytes

  /** A subscription; its callback is not part of this model. */
  datatype Consumer = Consumer(tag: Str, qname: Str, autoAck: bool)

  /** The consumers of one queue in order of subscription, and where the next choice starts. */
  datatype Ring = Ring(consumers: seq<Consumer>, index: nat)

  const EMPTY_RING := Ring([], 0)

  // ---------- the operations as values ----------

  /** The index of the consumer with this tag, or |cs|. */
  function TagIndex(cs: seq<Consumer>, tag: Str): (k: nat)
    ensures k <= |cs|
    ensures forall i :: 0 <= i < k ==> cs[i].tag != tag
    ensures k < |cs| ==> cs[k].tag == tag
  {
    if cs == [] || cs[0].tag == tag then 0 else 1 + TagIndex(cs[1..], tag)
  }

  predicate HasTag(cs: seq<Consumer>, tag: Str) {
    TagIndex(cs, tag) < |cs|
  }

  function Subscribe(r: Ring, c: Consumer): (Ring, Option<Consumer>) {
    if HasTag(r.consumers, c.tag) then (r, None) else (r.(consumers := r.consumers + [c]), Some(c))
  }

  function Unsubscribe(r: Ring, tag: Str): Ring {
    var k := TagIndex(r.consumers, tag);
    if k == |r.consumers| then r else r.(consumers := r.consumers[..k] + r.consumers[k + 1..])
  }

  /** i % n */
  function Wrap(i: nat, n: nat): (r: nat)
    requires n > 0
    ensures r < n
  {
    i % n
  }

  function Choose(r: Ring): (Ring, Option<Consumer>) {
    var n := |r.consumers|;
    if n == 0 then (r, None) else (r.(index := Wrap(r.index + 1, n)), Some(r.consumers[Wrap(r.index, n)]))
  }

  // ---------- the code ----------

  class QueueConsumer {
    var consumers: seq<Consumer>
    var rrIndex: nat

    function State(): Ring
      reads this
    {
      Ring(consumers, rrIndex)
    }

    constructor ()
      ensures State() == EMPTY_RING
    {
      consumers, rrIndex := [], 0;
    }

    method Create(tag: Str, qname: Str, ackFlag: bool) returns (c: Option<Consumer>)
      modifies this
      ensures (State(), c) == Subscribe(old(State()), Consumer(tag, qname, ackFlag))
    {
      var i := 0;
      while i < |consumers|
        invariant 0 <= i <= |consumers|
        invariant forall j :: 0 <= j < i ==> consumers[j].tag != tag
      {
        if consumers[i].tag == tag { return None; }
        i := i + 1;
      }
      var newConsumer := Consumer(tag, qname, ackFlag);
      consumers := consumers + [newConsumer];
      return Some(newConsumer);
    }

    method Remove(tag: Str)
      modifies this
      ensures State() == Unsubscribe(old(State()), tag)
    {
      var i := 0;
      while i < |consumers|
        invariant 0 <= i <= |consumers|
        invariant State() == old(State())
        invariant forall j :: 0 <= j < i ==> consumers[j].tag != tag
      {
        if consumers[i].tag == tag {
          consumers := consumers[..i] + consumers[i + 1..];
          return;
        }
        i := i + 1;
      }
    }

    method RrChoose() returns (c: Option<Consumer>)
      modifies this`rrIndex
      ensures (State(), c) == Choose(old(State()))
    {
      if |consumers| == 0 { return None; }
      c := Some(consumers[rrIndex % |consumers|]);
      rrIndex := (rrIndex + 1) % |consumers|;
    }

    method Exists(tag: Str) returns (r: bool)
      ensures r <==> exists c <- consumers :: c.tag == tag
    {
      var i := 0;
      while i < |consumers|
        invariant 0 <= i <= |consumers|
        invariant forall j :: 0 <= j < i ==> consumers[j].tag != tag
      {
        if consumers[i].tag == tag { return true; }
        i := i + 1;
      }
      return false;
    }

    method Clear()
      modifies this
      ensures State() == EMPTY_RING
    {
      consumers := [];
      rrIndex := 0;
    }
  }

  /** One ring per queue. */
  class ConsumerManager {
    var queues: map<Str, QueueConsumer>

    /** No two queues share a ring. */
    ghost predicate Valid()
      reads this
    {
      forall p <- queues.Keys, q <- queues.Keys :: p != q ==> queues[p] != queues[q]
    }

    ghost function Rings(): map<Str, Ring>
      reads this, queues.Values
    {
      map q | q in queues :: queues[q].State()
    }

    constructor ()
      ensures Valid() && Rings() == map[]
    {
      queues := map[];
    }

    method InitQueueConsumer(qname: Str)
      requires Valid()
      modifies this
      ensures Valid()
      ensures Rings() == if qname in old(Rings()) then old(Rings()) else old(Rings())[qname := EMPTY_RING]
    {
      if qname !in queues {
        var ring := new QueueConsumer();
        queues := queues[qname := ring];
      }
    }

    method DestroyQueueConsumer(qname: Str)
      requires Valid()
      modifies this
      ensures Valid() && Rings() == old(Rings()) - {qname}
    {
      queues := queues - {qname};
    }

    method Create(tag: Str, qname: Str, ackFlag: bool) returns (c: Option<Consumer>)
      requires Valid()
      modifies queues.Values
      ensures Valid()
      ensures var rings := old(Rings());
              if qname !in rings then Rings() == rings && c == None
              else var (ring, created) := Subscribe(rings[qname], Consumer(tag, qname, ackFlag));
                   Rings() == rings[qname := ring] && c == created
    {
      if qname !in queues { return None; }
      c := queues[qname].Create(tag, qname, ackFlag);
    }

    method Remove(tag: Str, qname: Str)
      requires Valid()
      modifies queues.Values
      ensures Valid()
      ensures var rings := old(Rings());
              Rings() == if qname in rings then rings[qname := Unsubscribe(rings[qname], tag)] else rings
    {
      if qname !in queues { return; }
      queues[qname].Remove(tag);
    }

    method ChooseFrom(qname: Str) returns (c: Option<Consumer>)
      requires Valid()
      modifies queues.Values
      ensures Valid()
      ensures var rings := old(Rings());
              if qname !in rings then Rings() == rings && c == None
              else var (ring, chosen) := Choose(rings[qname]);
                   Rings() == rings[qname := ring] && c == chosen
    {
      if qname !in queues { return None; }
      c := queues[qname].RrChoose();
    }
  }

  // ---------- tags ----------

  predicate DistinctTags(cs: seq<Consumer>) {
    forall i, j :: 0 <= i < j < |cs| ==> cs[i].tag != cs[j].tag
  }

  datatype Op = OpCreate(c: Consumer) | OpRemove(tag: Str) | OpChoose | OpClear

  function Step(r: Ring, op: Op): Ring {
    match op
    case OpCreate(c) => Subscribe(r, c).0
    case OpRemove(tag) => Unsubscribe(r, tag)
    case OpChoose => Choose(r).0
    case OpClear => EMPTY_RING
  }

  function Run(r: Ring, ops: seq<Op>): Ring
    decreases |ops|
  {
    if ops == [] then r else Run(Step(r, ops[0]), ops[1..])
  }

  lemma {:induction false} TagsStayDistinct(r: Ring, ops: seq<Op>)
    requires DistinctTags(r.consumers)
    ensures DistinctTags(Run(r, ops).consumers)
    decreases |ops|
  {
    if ops != [] {
      assert DistinctTags(Step(r, ops[0]).consumers);
      TagsStayDistinct(Step(r, ops[0]), ops[1..]);
    }
  }

  // ---------- subscribing and unsubscribing ----------

  /** A tag in use is refused without change; a new one is added behind the others, and the index stays. */
  lemma SubscribeAppends(r: Ring, c: Consumer)
    ensures Subscribe(r, c) == if exists o <- r.consumers :: o.tag == c.tag then (r, None)
                               else (Ring(r.consumers + [c], r.index), Some(c))
  {
    var k := TagIndex(r.consumers, c.tag);
    if o :| o in r.consumers && o.tag == c.tag {
      var i :| 0 <= i < |r.consumers| && r.consumers[i] == o;
    }
    assert k == |r.consumers| || r.consumers[k] in r.consumers;
  }

  /** The first consumer with the tag goes, the others keep their order, and the index stays. */
  lemma UnsubscribeTakes(r: Ring, tag: Str, k: nat)
    requires k <= |r.consumers| && forall i :: 0 <= i < k ==> r.consumers[i].tag != tag
    requires k < |r.consumers| ==> r.consumers[k].tag == tag
    ensures Unsubscribe(r, tag) ==
            if k == |r.consumers| then r else Ring(r.consumers[..k] + r.consumers[k + 1..], r.index)
  {
  }

  lemma UnsubscribeUndoesSubscribe(r: Ring, c: Consumer)
    requires forall o <- r.consumers :: o.tag != c.tag
    ensures Unsubscribe(Subscribe(r, c).0, c.tag) == r
  {
    SubscribeAppends(r, c);
    UnsubscribeTakes(Ring(r.consumers + [c], r.index), c.tag, |r.consumers|);
  }

  // ---------- remainders ----------

  lemma {:induction false} Product(n: nat, d: nat)
    requires d > 0
    ensures n * d >= n
  {
    assert n * d == n * (d - 1) + n;
    if d > 1 { Product(n, d - 1); }
  }

  lemma Quotients(n: nat, q: nat, m: nat, q': nat, m': nat)
    requires m < n && m' < n && n * q + m == n * q' + m'
    ensures q <= q'
  {
    assert n * (q - q') == n * q - n * q';
    if q > q' { Product(n, q - q'); }
  }

  /** Quotient and remainder are unique. */
  lemma WrapIs(i: nat, n: nat, q: nat, m: nat)
    requires m < n && i == n * q + m
    ensures Wrap(i, n) == m
  {
    Quotients(n, q, m, i / n, i % n);
    Quotients(n, i / n, i % n, q, m);
  }

  lemma WrapSmall(i: nat, n: nat)
    requires i <= n && n > 0
    ensures Wrap(i, n) == if i == n then 0 else i
  {
    if i == n { WrapIs(i, n, 1, 0); } else { WrapIs(i, n, 0, i); }
  }

  lemma WrapNext(i: nat, n: nat)
    requires n > 0
    ensures Wrap(i + 1, n) == Wrap(Wrap(i, n) + 1, n)
    ensures Wrap(Wrap(i, n), n) == Wrap(i, n)
  {
    var q, m := i / n, i % n;
    assert i == n * q + m;
    WrapSmall(m + 1, n);
    WrapSmall(m, n);
    if m + 1 == n {
      assert i + 1 == n * (q + 1) + 0;
      WrapIs(i + 1, n, q + 1, 0);
    } else {
      WrapIs(i + 1, n, q, m + 1);
    }
  }

  // ---------- fairness ----------

  /** The consumers of k consecutive choices. */
  function Choices(r: Ring, k: nat): (cs: seq<Consumer>)
    requires r.consumers != []
    ensures |cs| == k
    decreases k
  {
    if k == 0 then [] else [Choose(r).1.value] + Choices(Choose(r).0, k - 1)
  }

  /** How many of k consecutive choices fall on c. */
  function Served(r: Ring, k: nat, c: Consumer): int
    requires r.consumers != []
  {
    multiset(Choices(r, k))[c]
  }

  function After(r: Ring, k: nat): (r': Ring)
    requires r.consumers != []
    ensures r'.consumers == r.consumers
    decreases k
  {
    if k == 0 then r else After(Choose(r).0, k - 1)
  }

  lemma {:induction false} ChoicesSplit(r: Ring, a: nat, b: nat)
    requires r.consumers != []
    ensures Choices(r, a + b) == Choices(r, a) + Choices(After(r, a), b)
    ensures After(r, a + b) == After(After(r, a), b)
    decreases a
  {
    hide Wrap;
    if a != 0 { ChoicesSplit(Choose(r).0, a - 1, b); }
  }

  /** Until the end of the list the choices walk along it. */
  lemma {:induction false} WalkToTheEnd(r: Ring, k: nat)
    requires r.consumers != [] && r.index + k <= |r.consumers|
    ensures Choices(r, k) == r.consumers[r.index..r.index + k]
    ensures k > 0 && r.index + k == |r.consumers| ==> After(r, k).index == 0
    ensures r.index + k < |r.consumers| ==> After(r, k).index == r.index + k
    decreases k
  {
    hide Wrap;
    if k > 0 {
      var n := |r.consumers|;
      WrapSmall(r.index, n);
      WrapSmall(r.index + 1, n);
      if r.index + 1 == n {
        assert k == 1;
      } else {
        assert Choose(r).0.index == r.index + 1;
        WalkToTheEnd(Choose(r).0, k - 1);
      }
    }
  }

  /** One round from a proper index is the list, rotated, and comes back to the index. */
  lemma RoundIsARotation(r: Ring)
    requires r.index < |r.consumers|
    ensures var n := |r.consumers|;
            && Choices(r, n) == r.consumers[r.index..] + r.consumers[..r.index]
            && After(r, n) == r
  {
    hide Wrap, Choices, After;
    var n, k := |r.consumers|, |r.consumers| - r.index;
    var start := Ring(r.consumers, 0);
    WalkToTheEnd(r, k);
    assert After(r, k) == start;
    ChoicesSplit(r, k, r.index);
    WalkToTheEnd(start, r.index);
  }

  /** A stale index, left past the end by a removal, chooses like its remainder. */
  lemma StaleIndex(r: Ring, k: nat)
    requires r.consumers != []
    ensures Choices(r, k) == Choices(r.(index := Wrap(r.index, |r.consumers|)), k)
  {
    hide Wrap;
    WrapNext(r.index, |r.consumers|);
  }

  /** Any n consecutive choices, from any index, pick every consumer exactly once. */
  lemma EveryRoundIsFair(r: Ring)
    requires r.consumers != []
    ensures multiset(Choices(r, |r.consumers|)) == multiset(r.consumers)
  {
    hide Wrap, Choices;
    var n := |r.consumers|;
    var s := r.(index := Wrap(r.index, n));
    StaleIndex(r, n);
    RoundIsARotation(s);
    Rotated(s.consumers, s.index);
  }

  lemma Rotated<T>(s: seq<T>, i: nat)
    requires i <= |s|
    ensures multiset(s[i..] + s[..i]) == multiset(s)
  {
    assert s == s[..i] + s[i..];
  }

  lemma DistinctOccurOnce(cs: seq<Consumer>, c: Consumer)
    requires DistinctTags(cs) && c in cs
    ensures multiset(cs)[c] == 1
  {
    var i :| 0 <= i < |cs| && cs[i] == c;
    assert cs == cs[..i] + [c] + cs[i + 1..];
    assert c !in cs[..i] && c !in cs[i + 1..];
  }

  lemma ServedSplit(r: Ring, a: nat, b: nat, c: Consumer)
    requires r.consumers != []
    ensures Served(r, a + b, c) == Served(r, a, c) + Served(After(r, a), b, c)
    ensures Served(r, a, c) >= 0
  {
    hide Choices, After;
    ChoicesSplit(r, a, b);
  }

  /** A round serves each consumer once. */
  lemma ServedOnce(r: Ring, c: Consumer)
    requires DistinctTags(r.consumers) && c in r.consumers
    ensures Served(r, |r.consumers|, c) == 1
  {
    hide Choices;
    EveryRoundIsFair(r);
    DistinctOccurOnce(r.consumers, c);
  }

  lemma {:induction false} FairFromProperIndex(r: Ring, k: nat, a: Consumer, b: Consumer)
    requires r.index < |r.consumers| && DistinctTags(r.consumers) && a in r.consumers && b in r.consumers
    ensures -1 <= Served(r, k, a) - Served(r, k, b) <= 1
    decreases k
  {
    hide Served, After, DistinctTags;
    var n := |r.consumers|;
    ServedOnce(r, a);
    ServedOnce(r, b);
    if k < n {
      var rest := After(r, k);
      ServedSplit(r, k, n - k, a);
      ServedSplit(r, k, n - k, b);
      ServedSplit(rest, n - k, 0, a);
      ServedSplit(rest, n - k, 0, b);
    } else {
      RoundIsARotation(r);
      ServedSplit(r, n, k - n, a);
      ServedSplit(r, n, k - n, b);
      FairFromProperIndex(r, k - n, a, b);
    }
  }

  /** In any stretch of choices no consumer is served more than once more than another. */
  lemma RoundRobinIsFair(r: Ring, k: nat, a: Consumer, b: Consumer)
    requires DistinctTags(r.consumers) && a in r.consumers && b in r.consumers
    ensures -1 <= Served(r, k, a) - Served(r, k, b) <= 1
  {
    hide Wrap;
    StaleIndex(r, k);
    FairFromProperIndex(r.(index := Wrap(r.index, |r.consumers|)), k, a, b);
  }
}
