/** The broker and the message logs together: a durable queue survives the process. */
module Durability {
  import opened Bytes
  import opened WireCodec
  import opened Host
  import opened Delivery
  import B = Broker
  import L = LogFile
  import R = LogRefinement
  import T = LogTheorems
  import Deque

  /** What the queue's message store is asked to do in a run: consuming removes by the front's id. */
  function LogOps(ps: seq<Payload>, ops: seq<QueueOp>): seq<L.Op>
    decreases |ops|
  {
    if ops == [] then []
    else
      var rest := LogOps(QueueStep(ps, ops[0]), ops[1..]);
      match ops[0]
      case Put(p) => [L.OpInsert(p.properties, p.body, true)] + rest
      case Take => if ps == [] then rest else [L.OpRemove(ps[0].Id())] + rest
      case Drop(id) => [L.OpRemove(id)] + rest
  }

  lemma {:induction false} LogOpsAreTheQueueRun(ps: seq<Payload>, ops: seq<QueueOp>)
    requires Marked(ops, VALID)
    ensures T.QueueRun(ps, LogOps(ps, ops)) == QueueRun(ps, ops)
    ensures T.DurableOnly(LogOps(ps, ops))
    decreases |ops|
  {
    hide Deque.Victim, Deque.Without;
    if ops != [] {
      var next, rest := QueueStep(ps, ops[0]), LogOps(QueueStep(ps, ops[0]), ops[1..]);
      LogOpsAreTheQueueRun(next, ops[1..]);
      if ops[0].Take? && ps != [] { Deque.RemoveByFrontId(ps); }
      if !ops[0].Take? || ps != [] {
        assert LogOps(ps, ops)[1..] == rest;
      }
    }
  }

  /** A log's run without the statistics and compactions asked for along the way. */
  function WithoutMaintenance(ops: seq<L.Op>): seq<L.Op> {
    if ops == [] then []
    else (if ops[0].OpStats? || ops[0].OpCompact? then [] else [ops[0]]) + WithoutMaintenance(ops[1..])
  }

  /** Statistics and compactions do not change what a run does to the queue. */
  lemma {:induction false} MaintenanceIsInvisible(ps: seq<Payload>, ops: seq<L.Op>)
    ensures T.QueueRun(ps, ops) == T.QueueRun(ps, WithoutMaintenance(ops))
    ensures T.DurableOnly(WithoutMaintenance(ops)) ==> T.DurableOnly(ops)
    decreases |ops|
  {
    hide T.QueueStep;
    if ops != [] {
      var rest := WithoutMaintenance(ops[1..]);
      MaintenanceIsInvisible(T.QueueStep(ps, ops[0]), ops[1..]);
      if ops[0].OpStats? || ops[0].OpCompact? {
        assert WithoutMaintenance(ops) == rest;
        SkipsMaintenance(ps, ops[0]);
      } else {
        assert WithoutMaintenance(ops)[1..] == rest;
        assert T.DurableOnly(WithoutMaintenance(ops)) ==> T.DurableOnly(rest) by {
          assert forall op <- rest :: op in WithoutMaintenance(ops);
        }
      }
      assert forall op <- ops :: op == ops[0] || op in ops[1..];
    }
  }

  lemma SkipsMaintenance(ps: seq<Payload>, op: L.Op)
    requires op.OpStats? || op.OpCompact?
    ensures T.QueueStep(ps, op) == ps
  {
  }

  /** The log starts fully stored, or a compaction or an early get_stats makes it so; its messages are storable. */
  ghost predicate WholeInTheEnd(s: L.Log, logOps: seq<L.Op>) {
    && s.isOpen && T.Storable(s)
    && (T.FullyStored(s) || L.OpCompact(true) in logOps || (T.FullyStored(L.GetStats(s)) && T.StatsFirst(logOps)))
  }

  lemma WholeRunRecovers(s: L.Log, logOps: seq<L.Op>)
    requires WholeInTheEnd(s, logOps) && T.SizedRun(s, logOps) && T.DurableOnly(logOps)
    ensures L.Recovered(L.Run(s, logOps).bytes) == L.Run(s, logOps).msgs
  {
    hide L.Recovered, L.Run, T.FullyStored, T.Storable, T.SizedRun, T.DurableOnly;
    if T.FullyStored(s) {
      T.DurableQueueIsItsFile(s, logOps);
    } else if L.OpCompact(true) in logOps {
      T.CompactionHealsTheRun(s, logOps);
    } else {
      T.StatsHealTheRun(s, logOps);
    }
  }

  /**
   Take any broker run that keeps a durable queue, and let its message store perform the run's
   effects on that queue, with statistics and compactions at any points between. The store may start
   with any file and a failed stream if it is compacted at some point. A restart then recovers from
   the file exactly the messages the broker had in the queue, in order.
   */
  lemma DurableQueuesSurvive(h: Host, mh: HeaderMatch, ops: seq<B.Op>, q: Str, s: L.Log, logOps: seq<L.Op>)
    requires B.IsRun(h, mh, ops) && q in h.stores && Keeps(ops, q) && IsDurable(h, q)
    requires WholeInTheEnd(s, logOps) && L.Payloads(s.msgs) == h.stores[q] && T.SizedRun(s, logOps)
    requires WithoutMaintenance(logOps) == LogOps(h.stores[q], AllEffects(h, mh, ops, q))
    ensures q in B.Run(h, mh, ops).stores &&
            L.Payloads(T.Restart(L.Run(s, logOps).bytes).msgs) == B.Run(h, mh, ops).stores[q]
  {
    hide B.Run, B.IsRun, AllEffects, LogOps, L.Recovered, T.SizedRun, L.Run;
    hide T.QueueRun, QueueRun, T.DurableOnly, Marked;
    hide WithoutMaintenance, T.FullyStored, T.Storable, T.StatsFirst;
    var effects := AllEffects(h, mh, ops, q);
    RunIsQueueRun(h, mh, ops, q);
    LogOpsAreTheQueueRun(h.stores[q], effects);
    MaintenanceIsInvisible(h.stores[q], logOps);
    T.RunRefines(s, logOps);
    WholeRunRecovers(s, logOps);
    T.RestartReadsTheFile(L.Run(s, logOps).bytes);
  }

  /**
   The store as declare_queue leaves it, recovered and with its stream failed: every broker run
   survives in which the store is compacted at some point, or asked for statistics before the first
   insert or remove.
   */
  lemma RestartedQueuesSurvive(h: Host, mh: HeaderMatch, ops: seq<B.Op>, q: Str, s: L.Log, logOps: seq<L.Op>)
    requires B.IsRun(h, mh, ops) && q in h.stores && Keeps(ops, q) && IsDurable(h, q)
    requires R.Consistent(s) && L.Payloads(R.Stored(s.msgs)) == h.stores[q]
    requires T.Heals(logOps) && T.SizedRun(T.Restart(s.bytes), logOps)
    requires WithoutMaintenance(logOps) == LogOps(h.stores[q], AllEffects(h, mh, ops, q))
    ensures q in B.Run(h, mh, ops).stores &&
            L.Payloads(T.Restart(L.Run(T.Restart(s.bytes), logOps).bytes).msgs) == B.Run(h, mh, ops).stores[q]
  {
    hide B.Run, B.IsRun, AllEffects, LogOps, L.Recovered, T.SizedRun, L.Run, R.Stored, WithoutMaintenance, T.StatsFirst;
    hide R.Consistent, T.Restart, T.Storable, T.FullyStored;
    T.RestartResumes(s);
    RestartIsOpen(s.bytes);
    var r := T.Restart(s.bytes);
    T.FullyStoredIsStorable(L.GetStats(r));
    SameMessagesStorable(L.GetStats(r), r);
    DurableQueuesSurvive(h, mh, ops, q, r, logOps);
  }

  lemma SameMessagesStorable(a: L.Log, b: L.Log)
    requires T.Storable(a) && a.msgs == b.msgs
    ensures T.Storable(b)
  {
  }

  lemma {:induction false} LogOpsOnlyInsertAndRemove(ps: seq<Payload>, ops: seq<QueueOp>)
    ensures forall op <- LogOps(ps, ops) :: T.LeavesStreamFailed(op)
    decreases |ops|
  {
    hide QueueStep;
    if ops != [] { LogOpsOnlyInsertAndRemove(QueueStep(ps, ops[0]), ops[1..]); }
  }

  /**
   Without any of that, whatever the run: the next restart brings back the messages of the first one,
   and every insert and removal in between is forgotten.
   */
  lemma UnhealedQueuesGoBack(h: Host, mh: HeaderMatch, ops: seq<B.Op>, q: Str, s: L.Log)
    requires B.IsRun(h, mh, ops) && q in h.stores && Keeps(ops, q)
    requires R.Consistent(s) && L.Payloads(R.Stored(s.msgs)) == h.stores[q]
    ensures var t := L.Run(T.Restart(s.bytes), LogOps(h.stores[q], AllEffects(h, mh, ops, q)));
            t.bytes == s.bytes && L.Payloads(T.Restart(t.bytes).msgs) == h.stores[q]
  {
    hide B.Run, B.IsRun, AllEffects, LogOps, L.Recovered, L.Run, R.Stored, T.Restart, T.LeavesStreamFailed, R.Mirrors;
    var effects := AllEffects(h, mh, ops, q);
    LogOpsOnlyInsertAndRemove(h.stores[q], effects);
    T.RestartResumes(s);
    RestartIsOpen(s.bytes);
    T.FailedStreamFreezesTheFile(T.Restart(s.bytes), LogOps(h.stores[q], effects));
  }

  lemma RestartIsOpen(bytes: Str)
    ensures T.Restart(bytes).isOpen
  {
  }

  /**
   Deleting a queue leaves its file behind. Declaring the name again brings back every message the file
   held, so the new queue starts empty exactly when it is not durable or nothing was stored.
   */
  lemma DeletedMessagesComeBack(h: Host, name: Str, durable: bool, s: L.Log)
    requires B.Inv(h) && R.Consistent(s)
    ensures var onDisk := L.Payloads(T.Restart(s.bytes).msgs);
            var h' := DeclareQueue(DeleteQueue(h, name), name, durable, onDisk);
            && name in h'.stores
            && h'.stores[name] == (if durable then L.Payloads(R.Stored(s.msgs)) else [])
            && (h'.stores[name] == [] <==> !durable || R.Stored(s.msgs) == [])
  {
    hide B.Inv, R.Consistent, T.Restart, R.Stored;
    T.RestartResumes(s);
  }
}
