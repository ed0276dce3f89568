/** Which binding keys a routing key matches: the two-index topic matcher and what it means. */
module Route {
  import opened Bytes

  datatype ExchangeType = DIRECT | FANOUT | TOPIC | HEADERS

  // ---------- words ----------

  /** The words from index i on, as the matcher walks them: a final empty word is not one. */
  function WordsFrom(s: Str, i: nat): seq<Str>
    requires i <= |s|
    decreases |s| - i
  {
    if i == |s| then []
    else
      var dot := Find(s, DOT, i);
      [s[i..dot]] + (if dot == |s| then [] else WordsFrom(s, dot + 1))
  }

  function Words(s: Str): seq<Str> {
    WordsFrom(s, 0)
  }

  predicate EndsWithDot(s: Str) {
    s != [] && s[|s| - 1] == DOT
  }

  // ---------- what patterns mean ----------

  datatype Atom = Literal(word: Str) | One | ZeroOrOne | ZeroOrMore

  /** Some way of letting each atom take its share of the key's words uses all of them. */
  predicate Matches(key: seq<Str>, atoms: seq<Atom>)
    decreases |atoms|, |key|
  {
    if atoms == [] then key == []
    else match atoms[0]
      case Literal(w) => key != [] && key[0] == w && Matches(key[1..], atoms[1..])
      case One => key != [] && Matches(key[1..], atoms[1..])
      case ZeroOrOne => Matches(key, atoms[1..]) || (key != [] && Matches(key[1..], atoms[1..]))
      case ZeroOrMore => Matches(key, atoms[1..]) || (key != [] && Matches(key[1..], atoms))
  }

  const HASH_WORD: Str := [HASH]
  const STAR_WORD: Str := [STAR]

  function AtomOf(word: Str, hash: Atom): Atom {
    if word == HASH_WORD then hash else if word == STAR_WORD then One else Literal(word)
  }

  /** The meaning AMQP 0-9-1 gives a pattern in section 3.1.3.3: '#' takes any number of words. */
  function AmqpAtoms(pattern: seq<Str>): seq<Atom> {
    seq(|pattern|, i requires 0 <= i < |pattern| => AtomOf(pattern[i], ZeroOrMore))
  }

  predicate AllHash(pattern: seq<Str>) {
    pattern == [] || (pattern[0] == HASH_WORD && AllHash(pattern[1..]))
  }

  /**
   The meaning the matcher gives it: a '#' with a later word other than '#' takes exactly one
   word; the '#' of the trailing run take any number, or, before a trailing dot, at most one each.
   */
  function LoopAtoms(pattern: seq<Str>, trailingDot: bool): seq<Atom> {
    seq(|pattern|, i requires 0 <= i < |pattern| =>
      AtomOf(pattern[i], if !AllHash(pattern[i..]) then One else if trailingDot then ZeroOrOne else ZeroOrMore))
  }

  /** The matcher's result on words. */
  predicate WordMatch(key: seq<Str>, pattern: seq<Str>, trailingDot: bool)
    decreases |pattern|
  {
    if key == [] then AllHash(pattern)
    else if pattern == [] then false
    else if pattern[0] != HASH_WORD && pattern[0] != STAR_WORD && pattern[0] != key[0] then false
    else if pattern[0] == HASH_WORD && |pattern| == 1 && !trailingDot then true
    else WordMatch(key[1..], pattern[1..], trailingDot)
  }

  // ---------- the matcher ----------

  lemma WordsStep(s: Str, i: nat)
    requires i < |s|
    ensures var dot := Find(s, DOT, i);
            var next := if dot == |s| then |s| else dot + 1;
            && WordsFrom(s, i) != []
            && WordsFrom(s, i)[0] == s[i..dot]
            && WordsFrom(s, i)[1..] == WordsFrom(s, next)
            && (|WordsFrom(s, i)| == 1 <==> next == |s|)
            && (next == |s| ==> (dot == |s| <==> !EndsWithDot(s)))
  {
  }

  /** The TOPIC branch: matchSegments. */
  method MatchSegments(key: Str, pattern: Str) returns (r: bool)
    ensures r == WordMatch(Words(key), Words(pattern), EndsWithDot(pattern))
  {
    hide WordsFrom;
    var ki: nat, pi: nat := 0, 0;
    while ki < |key| && pi < |pattern|
      invariant ki <= |key| && pi <= |pattern|
      invariant WordMatch(Words(key), Words(pattern), EndsWithDot(pattern)) ==
                WordMatch(WordsFrom(key, ki), WordsFrom(pattern, pi), EndsWithDot(pattern))
    {
      WordsStep(key, ki);
      WordsStep(pattern, pi);
      var kdot, pdot := Find(key, DOT, ki), Find(pattern, DOT, pi);
      var ks, ps := key[ki..kdot], pattern[pi..pdot];
      if ps != HASH_WORD {
        if ps != STAR_WORD && ps != ks { return false; }
      }
      if pdot == |pattern| {
        if ps == HASH_WORD { return true; }
      }
      ki := if kdot == |key| then |key| else kdot + 1;
      pi := if pdot == |pattern| then |pattern| else pdot + 1;
    }
    NoWordsLeft(key);
    NoWordsLeft(pattern);
    if ki < |key| { WordsStep(key, ki); }
    ghost var left := WordsFrom(pattern, pi);
    while pi < |pattern|
      invariant pi <= |pattern|
      invariant AllHash(left) == AllHash(WordsFrom(pattern, pi))
    {
      WordsStep(pattern, pi);
      var pdot := Find(pattern, DOT, pi);
      var ps := pattern[pi..pdot];
      if ps != HASH_WORD { return false; }
      pi := if pdot == |pattern| then |pattern| else pdot + 1;
    }
    return ki >= |key|;
  }

  lemma NoWordsLeft(s: Str)
    ensures WordsFrom(s, |s|) == []
  {
  }

  predicate TopicMatch(key: Str, pattern: Str) {
    WordMatch(Words(key), Words(pattern), EndsWithDot(pattern))
  }

  /** What match_route decides, by exchange type; HEADERS falls to its default branch. */
  predicate RouteMatch(kind: ExchangeType, routingKey: Str, bindingKey: Str) {
    match kind
    case DIRECT => routingKey == bindingKey
    case FANOUT => true
    case TOPIC => TopicMatch(routingKey, bindingKey)
    case HEADERS => false
  }

  method MatchRoute(kind: ExchangeType, routingKey: Str, bindingKey: Str) returns (r: bool)
    ensures r == RouteMatch(kind, routingKey, bindingKey)
  {
    match kind
    case DIRECT => return routingKey == bindingKey;
    case FANOUT => return true;
    case TOPIC => r := MatchSegments(routingKey, bindingKey);
    case _ => return false;
  }

  // ---------- exactness ----------

  lemma LoopAtomsTail(pattern: seq<Str>, trailingDot: bool)
    requires pattern != []
    ensures LoopAtoms(pattern, trailingDot)[1..] == LoopAtoms(pattern[1..], trailingDot)
  {
    forall i | 0 <= i < |pattern| - 1 ensures pattern[i + 1..] == pattern[1..][i..] {}
  }

  /** A run of optional atoms takes any key that is not too long. */
  lemma {:induction false} TrailingRun(key: seq<Str>, pattern: seq<Str>, trailingDot: bool)
    requires AllHash(pattern)
    ensures Matches(key, LoopAtoms(pattern, trailingDot)) <==>
            key == [] || (pattern != [] && (!trailingDot || |key| <= |pattern|))
    decreases |pattern|, |key|
  {
    if pattern != [] {
      LoopAtomsTail(pattern, trailingDot);
      FirstAtom(pattern, trailingDot);
      hide LoopAtoms;
      TrailingRun(key, pattern[1..], trailingDot);
      if key != [] {
        TrailingRun(key[1..], if trailingDot then pattern[1..] else pattern, trailingDot);
      }
    }
  }

  lemma FirstAtom(pattern: seq<Str>, trailingDot: bool)
    requires pattern != [] && AllHash(pattern)
    ensures LoopAtoms(pattern, trailingDot)[0] == if trailingDot then ZeroOrOne else ZeroOrMore
  {
    assert pattern[0..] == pattern;
  }

  lemma {:induction false} TrailingRunLoop(key: seq<Str>, pattern: seq<Str>, trailingDot: bool)
    requires AllHash(pattern)
    ensures WordMatch(key, pattern, trailingDot) <==>
            key == [] || (pattern != [] && (!trailingDot || |key| <= |pattern|))
    decreases |pattern|
  {
    if key != [] && pattern != [] { TrailingRunLoop(key[1..], pattern[1..], trailingDot); }
  }

  lemma FirstFixedAtom(pattern: seq<Str>, trailingDot: bool)
    requires !AllHash(pattern)
    ensures LoopAtoms(pattern, trailingDot)[0] == AtomOf(pattern[0], One)
  {
    assert pattern[0..] == pattern;
  }

  /** On an empty key only patterns made of '#' match. */
  lemma NeedsAWord(pattern: seq<Str>, trailingDot: bool)
    requires !AllHash(pattern)
    ensures !Matches([], LoopAtoms(pattern, trailingDot))
  {
    assert pattern[0..] == pattern;
  }

  /** The index loop accepts exactly the keys its atoms match, for every key and every pattern. */
  lemma {:induction false} WordMatchExact(key: seq<Str>, pattern: seq<Str>, trailingDot: bool)
    ensures WordMatch(key, pattern, trailingDot) == Matches(key, LoopAtoms(pattern, trailingDot))
    decreases |pattern|
  {
    if AllHash(pattern) {
      TrailingRun(key, pattern, trailingDot);
      TrailingRunLoop(key, pattern, trailingDot);
    } else if key == [] {
      NeedsAWord(pattern, trailingDot);
    } else {
      hide LoopAtoms;
      FirstFixedAtom(pattern, trailingDot);
      LoopAtomsTail(pattern, trailingDot);
      assert |pattern| == 1 ==> AllHash(pattern[1..]);
      WordMatchExact(key[1..], pattern[1..], trailingDot);
    }
  }
}
