/** The "k=v&k2=v2" form of a queue's arguments: the parser, the printer, and when they are inverse. */
module QueueArgs {
  import opened Bytes

  type Args = map<Str, Str>

  // ---------- parsing ----------

  /** One pair added to the map; a piece without '=' is skipped. */
  function AddPair(args: Args, pair: Str): Args {
    var eq := Find(pair, EQUALS, 0);
    if eq == |pair| then args else args[pair[..eq] := pair[eq + 1..]]
  }

  /** The map after parsing s from start on. */
  function ParseFrom(s: Str, start: nat, args: Args): Args
    requires start <= |s|
    decreases |s| - start
  {
    if start == |s| then args
    else
      var pos := Find(s, AMPERSAND, start);
      var args' := AddPair(args, s[start..pos]);
      if pos == |s| then args' else ParseFrom(s, pos + 1, args')
  }

  function Parse(s: Str, args: Args): Args {
    ParseFrom(s, 0, args)
  }

  // ---------- printing ----------

  function Pair(args: Args, k: Str): Str
    requires k in args
  {
    k + [EQUALS] + args[k]
  }

  /** The pairs of these keys, joined by '&'. */
  function Print(order: seq<Str>, args: Args): Str
    requires forall k <- order :: k in args
  {
    if order == [] then []
    else if |order| == 1 then Pair(args, order[0])
    else Pair(args, order[0]) + [AMPERSAND] + Print(order[1..], args)
  }

  // ---------- the code ----------

  /** The queue whose args set_args updates in place. */
  class MsgQueue {
    var args: Args

    constructor (initial: Args)
      ensures args == initial
    {
      args := initial;
    }

    method SetArgs(s: Str)
      modifies this
      ensures args == Parse(s, old(args))
    {
      var start := 0;
      while start < |s|
        invariant start <= |s|
        invariant ParseFrom(s, start, args) == Parse(s, old(args))
      {
        var pos := Find(s, AMPERSAND, start);
        var pair := s[start..pos];
        var eq := Find(pair, EQUALS, 0);
        if eq != |pair| {
          var key, val := pair[..eq], pair[eq + 1..];
          args := args[key := val];
        }
        if pos == |s| { break; }
        start := pos + 1;
      }
    }

    method GetArgs(order: seq<Str>) returns (result: Str)
      requires IsOrder(order, args.Keys)
      ensures result == Print(order, args)
    {
      result := [];
      var i := 0;
      while i < |order|
        invariant 0 <= i <= |order|
        invariant Print(order, args) == result + Print(order[i..], args)
      {
        result := result + Pair(args, order[i]);
        if i + 1 < |order| { result := result + [AMPERSAND]; }
        assert order[i..][1..] == order[i + 1..];
        i := i + 1;
      }
      assert order[i..] == [];
    }
  }

  // ---------- what the parser does with any string ----------

  /** One piece: with '=' it sets the key before the first one to all behind it, without it is ignored. */
  lemma ParsePiece(piece: Str, args: Args)
    requires AMPERSAND !in piece
    ensures EQUALS !in piece ==> Parse(piece, args) == args
    ensures forall i :: 0 <= i < |piece| && piece[i] == EQUALS && EQUALS !in piece[..i] ==>
              Parse(piece, args) == args[piece[..i] := piece[i + 1..]]
  {
    hide ParseFrom, AddPair;
    if piece == [] {
      NothingLeft([], args);
    } else {
      ParseLastPair([], piece, args);
      assert [] + piece == piece;
      PairAdds(piece, args);
    }
  }

  lemma PairAdds(pair: Str, args: Args)
    ensures EQUALS !in pair ==> AddPair(args, pair) == args
    ensures forall i :: 0 <= i < |pair| && pair[i] == EQUALS && EQUALS !in pair[..i] ==>
              AddPair(args, pair) == args[pair[..i] := pair[i + 1..]]
  {
    hide Find;
    if EQUALS !in pair {
      assert pair[0..] == pair;
      NotFound(pair, EQUALS, 0);
    }
    forall i | 0 <= i < |pair| && pair[i] == EQUALS && EQUALS !in pair[..i]
      ensures AddPair(args, pair) == args[pair[..i] := pair[i + 1..]]
    {
      assert pair[0..i] == pair[..i];
      FindAt(pair, EQUALS, 0, i);
    }
  }

  /** Pieces are taken one after the other: parsing a joined string is parsing its parts in turn. */
  lemma {:induction false} ParseJoined(before: Str, a: Str, b: Str, args: Args)
    ensures var s := before + a + [AMPERSAND] + b;
            ParseFrom(s, |before|, args) == ParseFrom(s, |before| + |a| + 1, ParseFrom(before + a, |before|, args))
    decreases |a|
  {
    hide ParseFrom, AddPair, Find;
    var s := before + a + [AMPERSAND] + b;
    if AMPERSAND in a {
      var at := Find(a, AMPERSAND, 0);
      AmpersandFound(a, at);
      var piece, rest := a[..at], a[at + 1..];
      assert a == piece + [AMPERSAND] + rest;
      var done := before + piece + [AMPERSAND];
      assert s == done + (rest + [AMPERSAND] + b) == done + rest + [AMPERSAND] + b;
      assert before + a == done + rest;
      ParseNextPair(before, piece, rest + [AMPERSAND] + b, args);
      ParseNextPair(before, piece, rest, args);
      ParseJoined(done, rest, b, AddPair(args, piece));
    } else {
      ParseNextPair(before, a, b, args);
      if a == [] {
        assert before + a == before;
        NothingLeft(before, args);
        EmptyPair(args);
      } else {
        ParseLastPair(before, a, args);
      }
    }
  }

  lemma EmptyPair(args: Args)
    ensures AddPair(args, []) == args
  {
  }

  lemma AmpersandFound(a: Str, at: nat)
    requires AMPERSAND in a && at == Find(a, AMPERSAND, 0)
    ensures at < |a| && a[at] == AMPERSAND && AMPERSAND !in a[..at]
  {
    var i :| 0 <= i < |a| && a[i] == AMPERSAND;
  }

  lemma {:induction false} ParseFromShifted(before: Str, s: Str, args: Args, i: nat)
    requires i <= |s|
    ensures ParseFrom(before + s, |before| + i, args) == ParseFrom(s, i, args)
    decreases |s| - i
  {
    hide AddPair, Find;
    if i < |s| {
      var all, at := before + s, Find(s, AMPERSAND, i);
      assert all[|before| + i..|before| + at] == s[i..at];
      FindShifted(before, s, AMPERSAND, i);
      if at < |s| { ParseFromShifted(before, s, AddPair(args, s[i..at]), at + 1); }
    }
  }

  lemma {:induction false} FindShifted(before: Str, s: Str, c: Byte, i: nat)
    requires i <= |s|
    ensures Find(before + s, c, |before| + i) == |before| + Find(s, c, i)
    decreases |s| - i
  {
    if i < |s| && s[i] != c { FindShifted(before, s, c, i + 1); }
  }

  /** So the parser reads "a&b" as a and then b, for all strings a and b. */
  lemma ParseConcat(a: Str, b: Str, args: Args)
    ensures Parse(a + [AMPERSAND] + b, args) == Parse(b, Parse(a, args))
  {
    hide ParseFrom;
    ParseJoined([], a, b, args);
    assert [] + a + [AMPERSAND] + b == a + [AMPERSAND] + b && [] + a == a;
    ParseFromShifted(a + [AMPERSAND], b, Parse(a, args), 0);
  }

  // ---------- round trip ----------

  /** No '=' or '&' in a key, no '&' in a value. */
  predicate Plain(args: Args) {
    forall k <- args.Keys :: EQUALS !in k && AMPERSAND !in k && AMPERSAND !in args[k]
  }

  lemma PairParses(args: Args, into: Args, k: Str)
    requires k in args && EQUALS !in k
    ensures AddPair(into, Pair(args, k)) == into[k := args[k]]
  {
    var pair := Pair(args, k);
    assert pair[0..|k|] == k && pair[|k| + 1..] == args[k];
    FindAt(pair, EQUALS, 0, |k|);
    assert pair[..|k|] == k;
  }

  /** The first entries of args, in this order. */
  function Restrict(args: Args, keys: seq<Str>): Args
    requires forall k <- keys :: k in args
  {
    map k | k in keys :: args[k]
  }

  lemma ParseLastPair(before: Str, pair: Str, into: Args)
    requires pair != [] && AMPERSAND !in pair
    ensures ParseFrom(before + pair, |before|, into) == AddPair(into, pair)
  {
    hide AddPair, Find;
    var s := before + pair;
    assert s[|before|..] == pair == s[|before|..|s|];
    NotFound(s, AMPERSAND, |before|);
    assert ParseFrom(s, |before|, into) == AddPair(into, s[|before|..|s|]);
  }

  lemma ParseNextPair(before: Str, pair: Str, rest: Str, into: Args)
    requires AMPERSAND !in pair
    ensures var done := before + pair + [AMPERSAND];
            ParseFrom(done + rest, |before|, into) == ParseFrom(done + rest, |done|, AddPair(into, pair))
  {
    hide AddPair;
    var s := before + pair + [AMPERSAND] + rest;
    var at := |before| + |pair|;
    assert s[|before|..at] == pair;
    FindAt(s, AMPERSAND, |before|, at);
  }

  lemma {:induction false} PrintParses(before: Str, order: seq<Str>, args: Args, into: Args)
    requires Plain(args) && forall k <- order :: k in args
    ensures ParseFrom(before + Print(order, args), |before|, into) == into + Restrict(args, order)
    decreases |order|
  {
    hide ParseFrom, Pair, AddPair, Restrict;
    if order == [] {
      assert before + Print(order, args) == before;
      RestrictToNone(args, into);
      NothingLeft(before, into);
    } else {
      var k := order[0];
      var pair, next := Pair(args, k), into[k := args[k]];
      PairParses(args, into, k);
      PairHasNoAmpersand(args, k);
      if |order| == 1 {
        ParseLastPair(before, pair, into);
        RestrictStep(args, order, into);
        assert order[1..] == [];
        RestrictToNone(args, next);
      } else {
        var rest := Print(order[1..], args);
        assert before + Print(order, args) == before + pair + [AMPERSAND] + rest;
        ParseNextPair(before, pair, rest, into);
        PrintParses(before + pair + [AMPERSAND], order[1..], args, next);
        RestrictStep(args, order, into);
      }
    }
  }

  /** The printed form: nothing for no pair, the pair for one, and '&' between pairs, not behind the last. */
  lemma {:induction false} PrintJoins(a: seq<Str>, b: seq<Str>, args: Args)
    requires forall k <- a + b :: k in args
    requires a != [] && b != []
    ensures (forall k <- a :: k in args) && (forall k <- b :: k in args)
    ensures Print(a + b, args) == Print(a, args) + [AMPERSAND] + Print(b, args)
    ensures Print([], args) == [] && Print([a[0]], args) == a[0] + [EQUALS] + args[a[0]]
  {
    forall k | k in a || k in b ensures k in args { assert k in a + b; }
    assert (a + b)[1..] == a[1..] + b;
    if |a| > 1 {
      hide Pair;
      PrintJoins(a[1..], b, args);
    } else {
      assert a[1..] + b == b;
    }
    OnePair(a[0], args);
  }

  lemma OnePair(k: Str, args: Args)
    requires k in args
    ensures Print([], args) == [] && Print([k], args) == k + [EQUALS] + args[k]
  {
  }

  lemma RestrictToNone(args: Args, into: Args)
    ensures into + Restrict(args, []) == into
  {
  }

  lemma RestrictStep(args: Args, order: seq<Str>, into: Args)
    requires order != [] && forall k <- order :: k in args
    ensures into + Restrict(args, order) == into[order[0] := args[order[0]]] + Restrict(args, order[1..])
  {
    assert order == [order[0]] + order[1..];
  }

  lemma NothingLeft(s: Str, into: Args)
    ensures ParseFrom(s, |s|, into) == into
  {
  }

  lemma PairHasNoAmpersand(args: Args, k: Str)
    requires Plain(args) && k in args
    ensures AMPERSAND !in Pair(args, k) && |Pair(args, k)| > 0
  {
  }

  /** Parsing into a plain map leaves it plain: no separator ever gets inside a key, nor '&' into a value. */
  lemma {:induction false} ParsedIsPlain(s: Str, start: nat, args: Args)
    requires start <= |s| && Plain(args)
    ensures Plain(ParseFrom(s, start, args))
    decreases |s| - start
  {
    if start < |s| {
      var pos := Find(s, AMPERSAND, start);
      var pair := s[start..pos];
      var eq := Find(pair, EQUALS, 0);
      assert AMPERSAND !in pair;
      assert EQUALS !in pair[..eq];
      assert Plain(AddPair(args, pair));
      if pos < |s| { ParsedIsPlain(s, pos + 1, AddPair(args, pair)); }
    }
  }

  /**
   Reading the printed arguments into an empty map gives the arguments back, in whatever order
   they were printed, exactly when no separator is inside them.
   */
  lemma RoundTripIff(args: Args, order: seq<Str>)
    requires IsOrder(order, args.Keys)
    ensures Parse(Print(order, args), map[]) == args <==> Plain(args)
  {
    hide ParseFrom, Print, Plain, Restrict;
    PlainEmpty();
    ParsedIsPlain(Print(order, args), 0, map[]);
    if Plain(args) {
      PrintParses([], order, args, map[]);
      assert [] + Print(order, args) == Print(order, args);
      RestrictToAll(args, order);
    }
  }

  lemma PlainEmpty()
    ensures Plain(map[])
  {
  }

  lemma RestrictToAll(args: Args, order: seq<Str>)
    requires IsOrder(order, args.Keys)
    ensures map[] + Restrict(args, order) == args
  {
  }
}
