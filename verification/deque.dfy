/** The in-memory side of a queue: what insert and remove do to the messages, front first. */
module Deque {
  import opened Bytes
  import opened WireCodec

  /** The payload insert stores; only a message handed to the file is marked valid. */
  function NewPayload(bp: Option<Properties>, body: Str, toFile: bool): Payload {
    Payload(bp, body, if toFile then VALID else [])
  }

  /** The index of the first message with this id, or |ps|. */
  function FirstWithId(ps: seq<Payload>, id: Str): (k: nat)
    ensures k <= |ps|
    ensures forall i :: 0 <= i < k ==> ps[i].Id() != id
    ensures k < |ps| ==> ps[k].Id() == id
  {
    if ps == [] || ps[0].Id() == id then 0 else 1 + FirstWithId(ps[1..], id)
  }

  /** The index remove(id) erases, or |ps|: an empty id stands for the front. */
  function Victim(ps: seq<Payload>, id: Str): (k: nat)
    ensures k <= |ps|
  {
    if id == [] then 0 else FirstWithId(ps, id)
  }

  function Without<T>(s: seq<T>, k: nat): seq<T>
    requires k <= |s|
  {
    if k == |s| then s else s[..k] + s[k + 1..]
  }

  lemma Around<T>(s: seq<T>, k: nat)
    requires k < |s|
    ensures s == s[..k] + [s[k]] + s[k + 1..]
  {
  }

  function Remove(ps: seq<Payload>, id: Str): seq<Payload> {
    Without(ps, Victim(ps, id))
  }

  /** Removing by the front's own id takes the front, whether ids are empty or repeated. */
  lemma RemoveByFrontId(ps: seq<Payload>)
    requires ps != []
    ensures Remove(ps, ps[0].Id()) == ps[1..]
  {
  }

  /** An empty id takes the front, whatever ids the messages have. */
  lemma RemoveByEmptyId(ps: seq<Payload>)
    ensures Remove(ps, []) == if ps == [] then [] else ps[1..]
  {
  }

  /** Any other id takes the first message that has it, and nothing when none has. */
  lemma RemoveById(ps: seq<Payload>, id: Str, k: nat)
    requires id != [] && k <= |ps|
    requires forall i :: 0 <= i < k ==> ps[i].Id() != id
    requires k < |ps| ==> ps[k].Id() == id
    ensures Remove(ps, id) == if k == |ps| then ps else ps[..k] + ps[k + 1..]
  {
  }
}
