/** The topic matcher against the AMQP 0-9-1 rule, which the requirements document promises. */
module RouteAmqp {
  import opened Bytes
  import opened Route

  // ---------- AMQP's words and its rule ----------

  /** The words of s from index i on when every dot is a delimiter. */
  function SplitFrom(s: Str, i: nat): seq<Str>
    requires i <= |s|
    decreases |s| - i
  {
    var dot := Find(s, DOT, i);
    [s[i..dot]] + (if dot == |s| then [] else SplitFrom(s, dot + 1))
  }

  /** The empty string has no words. */
  function Split(s: Str): seq<Str> {
    if s == [] then [] else SplitFrom(s, 0)
  }

  /** '#' stands for zero or more words, '*' for one (AMQP 0-9-1, section 3.1.3.3). */
  predicate AmqpMatch(key: Str, pattern: Str) {
    Matches(Split(key), AmqpAtoms(Split(pattern)))
  }

  function Last<T>(s: seq<T>): T
    requires s != []
  {
    s[|s| - 1]
  }

  function Front<T>(s: seq<T>): seq<T>
    requires s != []
  {
    s[..|s| - 1]
  }

  /** The word after a final dot, which the matcher does not see. */
  function FinalWord(s: Str): seq<Str> {
    if EndsWithDot(s) then [[]] else []
  }

  /** One step of both walks. */
  lemma SplitStep(s: Str, i: nat)
    requires i < |s|
    ensures var dot, w := Find(s, DOT, i), s[i..Find(s, DOT, i)];
            if dot == |s| then !EndsWithDot(s) && SplitFrom(s, i) == [w] && WordsFrom(s, i) == [w]
            else SplitFrom(s, i) == [w] + SplitFrom(s, dot + 1) && WordsFrom(s, i) == [w] + WordsFrom(s, dot + 1)
    ensures Find(s, DOT, i) == |s| - 1 ==> EndsWithDot(s)
  {
    hide Find;
  }

  lemma SplitAtEnd(s: Str)
    ensures SplitFrom(s, |s|) == [[]] && WordsFrom(s, |s|) == []
  {
    assert s[|s|..|s|] == [];
  }

  lemma {:induction false} SplitFromIsWordsFrom(s: Str, i: nat)
    requires i < |s|
    ensures SplitFrom(s, i) == WordsFrom(s, i) + FinalWord(s)
    decreases |s| - i
  {
    hide Find, SplitFrom, WordsFrom, EndsWithDot;
    var dot := Find(s, DOT, i);
    SplitStep(s, i);
    if dot < |s| {
      if dot == |s| - 1 { SplitAtEnd(s); } else { SplitFromIsWordsFrom(s, dot + 1); }
      Associate([s[i..dot]], WordsFrom(s, dot + 1), FinalWord(s));
    }
  }

  lemma Associate<T>(a: seq<T>, b: seq<T>, c: seq<T>)
    ensures a + (b + c) == (a + b) + c
  {
  }

  lemma SplitIsWords(s: Str)
    ensures Split(s) == Words(s) + FinalWord(s)
  {
    if s != [] { SplitFromIsWordsFrom(s, 0); }
  }

  /** Only a string that ends in a dot has an empty last word. */
  lemma {:induction false} EmptyLastWord(s: Str, i: nat)
    requires i < |s|
    ensures WordsFrom(s, i) != []
    ensures Last(WordsFrom(s, i)) == [] ==> EndsWithDot(s)
    decreases |s| - i
  {
    hide Find, SplitFrom, WordsFrom, EndsWithDot;
    var dot := Find(s, DOT, i);
    SplitStep(s, i);
    if dot == |s| - 1 {
      SplitAtEnd(s);
    } else if dot < |s| {
      EmptyLastWord(s, dot + 1);
      LastOfConcat([s[i..dot]], WordsFrom(s, dot + 1));
    }
  }

  lemma LastOfConcat<T>(a: seq<T>, b: seq<T>)
    requires b != []
    ensures Last(a + b) == Last(b)
  {
  }

  // ---------- matching from the right ----------

  predicate IsFixed(a: Atom) {
    a.Literal? || a.One?
  }

  predicate Takes(a: Atom, word: Str)
    requires IsFixed(a)
  {
    a == One || a == Literal(word)
  }

  /** A last atom that stands for one word takes the last word. */
  lemma {:induction false} LastAtomTakesLastWord(key: seq<Str>, word: Str, atoms: seq<Atom>, a: Atom)
    requires IsFixed(a)
    ensures Matches(key + [word], atoms + [a]) <==> Takes(a, word) && Matches(key, atoms)
    ensures !Matches([], atoms + [a])
    decreases |atoms|, |key|
  {
    var all := atoms + [a];
    if atoms == [] {
      assert all[1..] == [];
      if key != [] { assert (key + [word])[1..] != []; } else { assert (key + [word])[1..] == []; }
    } else {
      assert all[1..] == atoms[1..] + [a] && all[0] == atoms[0];
      LastAtomTakesLastWord(key, word, atoms[1..], a);
      if key == [] {
        assert (key + [word])[1..] == [];
        if atoms[0] == ZeroOrMore { LastAtomIsOwed(atoms, a); }
        LastAtomIsOwed(atoms[1..], a);
      } else {
        assert (key + [word])[1..] == key[1..] + [word];
        LastAtomTakesLastWord(key[1..], word, atoms[1..], a);
        if atoms[0] == ZeroOrMore { LastAtomTakesLastWord(key[1..], word, atoms, a); }
      }
    }
  }

  lemma {:induction false} LastAtomIsOwed(atoms: seq<Atom>, a: Atom)
    requires IsFixed(a)
    ensures !Matches([], atoms + [a])
  {
    if atoms != [] {
      assert (atoms + [a])[1..] == atoms[1..] + [a];
      LastAtomIsOwed(atoms[1..], a);
    }
  }

  /** A last '#' takes one word more. */
  lemma {:induction false} LastHashTakesMore(key: seq<Str>, word: Str, atoms: seq<Atom>)
    requires Matches(key, atoms + [ZeroOrMore])
    ensures Matches(key + [word], atoms + [ZeroOrMore])
    decreases |atoms|, |key|
  {
    var all, longer := atoms + [ZeroOrMore], key + [word];
    if atoms == [] {
      AnythingMatchesHash(longer);
      assert all == [ZeroOrMore];
    } else {
      assert all[1..] == atoms[1..] + [ZeroOrMore] && all[0] == atoms[0];
      if key != [] { assert longer[1..] == key[1..] + [word] && longer[0] == key[0]; }
      if (atoms[0] == ZeroOrMore || atoms[0] == ZeroOrOne) && Matches(key, all[1..]) {
        LastHashTakesMore(key, word, atoms[1..]);
      } else if atoms[0] == ZeroOrMore {
        LastHashTakesMore(key[1..], word, atoms);
      } else {
        LastHashTakesMore(key[1..], word, atoms[1..]);
      }
    }
  }

  lemma {:induction false} AnythingMatchesHash(key: seq<Str>)
    ensures Matches(key, [ZeroOrMore])
  {
    if key != [] { AnythingMatchesHash(key[1..]); }
  }

  lemma AmqpAtomsConcat(a: seq<Str>, b: seq<Str>)
    ensures AmqpAtoms(a + b) == AmqpAtoms(a) + AmqpAtoms(b)
  {
  }

  /** AMQP's rule on the words the matcher sees. */
  predicate WordsAmqp(key: seq<Str>, pattern: seq<Str>) {
    Matches(key, AmqpAtoms(pattern))
  }

  /**
   What a trailing dot changes: in the binding key it asks for one in the routing key, and then both
   can be dropped; in the routing key alone it is one empty word more.
   */
  lemma TrailingDots(key: Str, pattern: Str)
    ensures AmqpMatch(key, pattern) <==>
            if EndsWithDot(pattern) then EndsWithDot(key) && WordsAmqp(Words(key), Words(pattern))
            else WordsAmqp(Words(key) + FinalWord(key), Words(pattern))
  {
    hide Matches;
    SplitIsWords(key);
    SplitIsWords(pattern);
    var ks, ps := Words(key), Words(pattern);
    if EndsWithDot(pattern) {
      AmqpAtomsConcat(ps, [[]]);
      assert AmqpAtoms([[]]) == [Literal([])];
      if EndsWithDot(key) {
        LastAtomTakesLastWord(ks, [], AmqpAtoms(ps), Literal([]));
      } else if key == [] {
        LastAtomIsOwed(AmqpAtoms(ps), Literal([]));
      } else {
        EmptyLastWord(key, 0);
        assert ks == Front(ks) + [Last(ks)] == Split(key);
        LastAtomTakesLastWord(Front(ks), Last(ks), AmqpAtoms(ps), Literal([]));
      }
    } else {
      assert ps + FinalWord(pattern) == ps;
    }
  }

  // ---------- accepting too much ----------

  predicate Covers(wide: Atom, narrow: Atom) {
    wide == narrow || (wide == ZeroOrMore && (narrow == One || narrow == ZeroOrOne))
  }

  lemma {:induction false} WiderAtomsMatchMore(key: seq<Str>, narrow: seq<Atom>, wide: seq<Atom>)
    requires |narrow| == |wide| && forall i :: 0 <= i < |narrow| ==> Covers(wide[i], narrow[i])
    requires Matches(key, narrow)
    ensures Matches(key, wide)
    decreases |narrow|, |key|
  {
    if narrow != [] {
      if narrow[0] == wide[0] == ZeroOrMore && key != [] && Matches(key[1..], narrow) {
        WiderAtomsMatchMore(key[1..], narrow, wide);
      } else if (narrow[0] == ZeroOrOne || narrow[0] == ZeroOrMore) && Matches(key, narrow[1..]) {
        WiderAtomsMatchMore(key, narrow[1..], wide[1..]);
      } else {
        WiderAtomsMatchMore(key[1..], narrow[1..], wide[1..]);
        if wide[0] == ZeroOrMore { SkipAll(key[1..], wide); }
      }
    }
  }

  lemma SkipAll(key: seq<Str>, atoms: seq<Atom>)
    requires atoms != [] && atoms[0] == ZeroOrMore && Matches(key, atoms[1..])
    ensures Matches(key, atoms)
  {
  }

  lemma TakeOne(key: seq<Str>, atoms: seq<Atom>)
    requires key != [] && atoms != [] && IsFixed(atoms[0]) && Takes(atoms[0], key[0])
    requires Matches(key[1..], atoms[1..])
    ensures Matches(key, atoms)
  {
  }

  /** On its own words the matcher never accepts more than AMQP. */
  lemma LoopIsSoundOnWords(key: seq<Str>, pattern: seq<Str>, trailingDot: bool)
    requires WordMatch(key, pattern, trailingDot)
    ensures WordsAmqp(key, pattern)
  {
    WordMatchExact(key, pattern, trailingDot);
    WiderAtomsMatchMore(key, LoopAtoms(pattern, trailingDot), AmqpAtoms(pattern));
  }

  /**
   With a trailing dot on both sides or on neither, every accept of the matcher is an accept of
   AMQP; with one on the binding key alone none is.
   */
  lemma TopicMatchIsSound(key: Str, pattern: Str)
    requires TopicMatch(key, pattern)
    ensures EndsWithDot(key) == EndsWithDot(pattern) ==> AmqpMatch(key, pattern)
    ensures EndsWithDot(pattern) && !EndsWithDot(key) ==> !AmqpMatch(key, pattern)
  {
    hide WordsAmqp, AmqpMatch;
    LoopIsSoundOnWords(Words(key), Words(pattern), EndsWithDot(pattern));
    TrailingDots(key, pattern);
    assert Words(key) + [] == Words(key);
  }

  /** A '#' with nothing but wildcards behind it can take any number of words more. */
  predicate FlexibleEnd(pattern: seq<Str>) {
    pattern != [] &&
    (Last(pattern) == HASH_WORD || (Last(pattern) == STAR_WORD && FlexibleEnd(Front(pattern))))
  }

  lemma AmqpAtomsSplitLast(pattern: seq<Str>)
    requires pattern != []
    ensures AmqpAtoms(pattern) == AmqpAtoms(Front(pattern)) + [AtomOf(Last(pattern), ZeroOrMore)]
  {
  }

  lemma {:induction false} FlexibleEndTakesMore(key: seq<Str>, word: Str, pattern: seq<Str>)
    requires FlexibleEnd(pattern) && WordsAmqp(key, pattern)
    ensures WordsAmqp(key + [word], pattern)
    decreases |pattern|
  {
    hide Matches, AmqpAtoms;
    var atoms := AmqpAtoms(Front(pattern));
    AmqpAtomsSplitLast(pattern);
    if Last(pattern) == HASH_WORD {
      LastHashTakesMore(key, word, atoms);
    } else {
      LastAtomIsOwed(atoms, One);
      assert key == Front(key) + [Last(key)];
      LastAtomTakesLastWord(Front(key), Last(key), atoms, One);
      FlexibleEndTakesMore(Front(key), Last(key), Front(pattern));
      LastAtomTakesLastWord(key, word, atoms, One);
    }
  }

  /** Every other pattern, read as a key with one word more, is refused by AMQP. */
  lemma {:induction false} StiffEndTakesNoMore(word: Str, pattern: seq<Str>)
    requires !FlexibleEnd(pattern)
    requires pattern != [] ==> word != Last(pattern) || Last(pattern) == STAR_WORD
    ensures !WordsAmqp(pattern + [word], pattern)
    decreases |pattern|
  {
    hide Matches, AmqpAtoms;
    if pattern == [] {
      assert AmqpAtoms(pattern) == [] by { NoAtoms(); }
      OneWordTooMany(word);
      assert pattern + [word] == [word];
    } else {
      var front, last := Front(pattern), Last(pattern);
      AmqpAtomsSplitLast(pattern);
      assert pattern == front + [last];
      LastAtomTakesLastWord(pattern, word, AmqpAtoms(front), AtomOf(last, ZeroOrMore));
      if last == STAR_WORD { StiffEndTakesNoMore(last, front); }
    }
  }

  lemma NoAtoms()
    ensures AmqpAtoms([]) == []
  {
  }

  lemma OneWordTooMany(word: Str)
    ensures !Matches([word], [])
  {
  }

  /** The matcher accepts every pattern read as a key. */
  lemma {:induction false} PatternMatchesItself(pattern: seq<Str>, trailingDot: bool)
    ensures WordMatch(pattern, pattern, trailingDot)
  {
    if pattern != [] { PatternMatchesItself(pattern[1..], trailingDot); }
  }

  // ---------- accepting too little ----------

  /** Each '#' is followed by nothing but '#'. */
  predicate HashOnlyAtTheEnd(pattern: seq<Str>) {
    forall i :: 0 <= i < |pattern| && pattern[i] == HASH_WORD ==> AllHash(pattern[i..])
  }

  /** The pattern's words without '#': the shortest key AMQP accepts. */
  function Skeleton(pattern: seq<Str>): seq<Str> {
    if pattern == [] then []
    else if pattern[0] == HASH_WORD then Skeleton(pattern[1..])
    else [pattern[0]] + Skeleton(pattern[1..])
  }

  /** The key is these words, with any word for a '*'. */
  predicate Like(key: seq<Str>, words: seq<Str>) {
    |key| == |words| && forall i :: 0 <= i < |words| ==> words[i] == STAR_WORD || words[i] == key[i]
  }

  lemma AmqpAtomsTail(pattern: seq<Str>)
    requires pattern != []
    ensures AmqpAtoms(pattern)[1..] == AmqpAtoms(pattern[1..])
    ensures AmqpAtoms(pattern)[0] == AtomOf(pattern[0], ZeroOrMore)
    ensures |AmqpAtoms(pattern)| == |pattern|
  {
  }

  lemma AmqpSkipsHash(pattern: seq<Str>, key: seq<Str>)
    requires pattern != [] && pattern[0] == HASH_WORD && WordsAmqp(key, pattern[1..])
    ensures WordsAmqp(key, pattern)
  {
    AmqpAtomsTail(pattern);
    hide AmqpAtoms;
    SkipAll(key, AmqpAtoms(pattern));
  }

  lemma AmqpTakesWord(pattern: seq<Str>, key: seq<Str>)
    requires pattern != [] && pattern[0] != HASH_WORD && key != []
    requires pattern[0] == STAR_WORD || pattern[0] == key[0]
    requires WordsAmqp(key[1..], pattern[1..])
    ensures WordsAmqp(key, pattern)
  {
    AmqpAtomsTail(pattern);
    hide AmqpAtoms, Matches;
    TakeOne(key, AmqpAtoms(pattern));
  }

  /** AMQP accepts keys like the skeleton, and with a final '#' any longer key that starts so. */
  lemma {:induction false} AmqpAcceptsSkeleton(pattern: seq<Str>, key: seq<Str>, more: seq<Str>)
    requires Like(key, Skeleton(pattern))
    requires more == [] || (pattern != [] && Last(pattern) == HASH_WORD)
    ensures WordsAmqp(key + more, pattern)
    decreases |pattern|
  {
    if |pattern| == 0 {
      assert key + more == [];
    } else if |pattern| == 1 && pattern[0] == HASH_WORD {
      assert AmqpAtoms(pattern) == [ZeroOrMore];
      AnythingMatchesHash(key + more);
    } else {
      hide WordsAmqp;
      var tail := pattern[1..];
      if pattern[0] == HASH_WORD {
        AmqpAcceptsSkeleton(tail, key, more);
        AmqpSkipsHash(pattern, key + more);
      } else {
        assert Skeleton(pattern)[1..] == Skeleton(tail);
        assert Skeleton(pattern)[0] == pattern[0];
        AmqpAcceptsSkeleton(tail, key[1..], more);
        assert (key + more)[1..] == key[1..] + more;
        AmqpTakesWord(pattern, key + more);
      }
    }
  }

  /** The number of words up to the last one that is not '#': each takes exactly one word of the key. */
  function Fixed(pattern: seq<Str>): nat {
    if AllHash(pattern) then 0 else 1 + Fixed(pattern[1..])
  }

  lemma {:induction false} AcceptedKeysAreLongEnough(key: seq<Str>, pattern: seq<Str>, trailingDot: bool)
    requires WordMatch(key, pattern, trailingDot)
    ensures Fixed(pattern) <= |key|
    ensures trailingDot ==> |key| <= |pattern|
    decreases |pattern|
  {
    if key != [] && pattern != [] && !(pattern[0] == HASH_WORD && |pattern| == 1 && !trailingDot) {
      AcceptedKeysAreLongEnough(key[1..], pattern[1..], trailingDot);
    } else if pattern != [] {
      assert |pattern| == 1 ==> pattern[1..] == [];
    }
  }

  lemma {:induction false} SkeletonIsShort(pattern: seq<Str>)
    ensures |Skeleton(pattern)| <= Fixed(pattern) <= |pattern|
    ensures Skeleton(pattern) == [] <==> AllHash(pattern)
    ensures HashOnlyAtTheEnd(pattern) <==> |Skeleton(pattern)| == Fixed(pattern)
  {
    if pattern != [] {
      SkeletonIsShort(pattern[1..]);
      HashOnlyTail(pattern);
    }
  }

  lemma HashOnlyTail(pattern: seq<Str>)
    requires pattern != []
    ensures HashOnlyAtTheEnd(pattern) <==>
            HashOnlyAtTheEnd(pattern[1..]) && (pattern[0] == HASH_WORD ==> AllHash(pattern))
  {
    var tail := pattern[1..];
    assert pattern[0..] == pattern;
    forall i | 0 < i < |pattern| ensures pattern[i..] == tail[i - 1..] && pattern[i] == tail[i - 1] {}
    if HashOnlyAtTheEnd(pattern) {
      forall i | 0 <= i < |tail| && tail[i] == HASH_WORD ensures AllHash(tail[i..]) {
        assert pattern[i + 1] == HASH_WORD;
      }
    }
  }

  /** A key of exactly that many words ends in one the last word that is not '#' takes. */
  lemma {:induction false} ShortestKeysEndLikeTheSkeleton(key: seq<Str>, pattern: seq<Str>, trailingDot: bool)
    requires WordMatch(key, pattern, trailingDot) && |key| == Fixed(pattern) > 0
    ensures Skeleton(pattern) != []
    ensures Last(Skeleton(pattern)) == STAR_WORD || Last(Skeleton(pattern)) == Last(key)
    decreases |pattern|
  {
    SkeletonIsShort(pattern);
    assert |pattern| == 1 ==> pattern[1..] == [];
    if AllHash(pattern[1..]) {
      SkeletonIsShort(pattern[1..]);
    } else {
      ShortestKeysEndLikeTheSkeleton(key[1..], pattern[1..], trailingDot);
    }
  }

  lemma {:induction false} SkeletonEnd(pattern: seq<Str>)
    requires pattern != [] && Last(pattern) != HASH_WORD
    ensures Skeleton(pattern) != [] && Last(Skeleton(pattern)) == Last(pattern)
    ensures Fixed(pattern) == |pattern|
  {
    NotAllHash(pattern);
    if |pattern| > 1 {
      SkeletonEnd(pattern[1..]);
    } else {
      assert pattern[1..] == [];
    }
  }

  lemma {:induction false} NotAllHash(pattern: seq<Str>)
    requires pattern != [] && Last(pattern) != HASH_WORD
    ensures !AllHash(pattern)
  {
    if |pattern| > 1 { NotAllHash(pattern[1..]); }
  }

  lemma {:induction false} AllHashEndsInHash(pattern: seq<Str>)
    requires pattern != [] && AllHash(pattern)
    ensures Last(pattern) == HASH_WORD
  {
    if |pattern| > 1 { AllHashEndsInHash(pattern[1..]); }
  }

  /** Words AMQP accepts and the matcher does not, for a '#' with another word behind it; the last is not empty. */
  function Separator(pattern: seq<Str>): seq<Str>
    requires Skeleton(pattern) != []
  {
    if Last(Skeleton(pattern)) == [] then Skeleton(pattern) + [STAR_WORD] else Skeleton(pattern)
  }

  lemma SeparatorSeparates(pattern: seq<Str>)
    requires !HashOnlyAtTheEnd(pattern) && (pattern == [] || Last(pattern) != [])
    ensures Skeleton(pattern) != []
    ensures var key := Separator(pattern);
            key != [] && Last(key) != [] && WordsAmqp(key, pattern) && !WordMatch(key, pattern, false)
  {
    hide WordsAmqp, AllHash;
    SkeletonIsShort(pattern);
    var bones := Skeleton(pattern);
    var more := if Last(bones) == [] then [STAR_WORD] else [];
    assert Separator(pattern) == bones + more;
    if Last(bones) == [] && Last(pattern) != HASH_WORD { SkeletonEnd(pattern); }
    AmqpAcceptsSkeleton(pattern, bones, more);
    if WordMatch(bones + more, pattern, false) {
      AcceptedKeysAreLongEnough(bones + more, pattern, false);
      ShortestKeysEndLikeTheSkeleton(bones + more, pattern, false);
    }
  }

  /** Words for a binding key with a trailing dot, to be followed by one themselves. */
  function DottedSeparator(pattern: seq<Str>): seq<Str> {
    if HashOnlyAtTheEnd(pattern) then Skeleton(pattern) + seq(|pattern| + 1, i => STAR_WORD) else Skeleton(pattern)
  }

  lemma DottedSeparatorSeparates(pattern: seq<Str>)
    requires HASH_WORD in pattern
    ensures var key := DottedSeparator(pattern);
            key != [] && WordsAmqp(key, pattern) && !WordMatch(key, pattern, true)
  {
    hide WordsAmqp, AllHash;
    SkeletonIsShort(pattern);
    var bones := Skeleton(pattern);
    var more := if HashOnlyAtTheEnd(pattern) then seq(|pattern| + 1, i => STAR_WORD) else [];
    assert DottedSeparator(pattern) == bones + more;
    if HashOnlyAtTheEnd(pattern) {
      var i :| 0 <= i < |pattern| && pattern[i] == HASH_WORD;
      AllHashEndsInHash(pattern[i..]);
    }
    AmqpAcceptsSkeleton(pattern, bones, more);
    if WordMatch(bones + more, pattern, true) { AcceptedKeysAreLongEnough(bones + more, pattern, true); }
  }

  // ---------- keys as strings ----------

  predicate DotFree(words: seq<Str>) {
    forall w <- words :: DOT !in w
  }

  /** Each word followed by a dot. */
  function Dotted(words: seq<Str>): Str {
    if words == [] then [] else words[0] + [DOT] + Dotted(words[1..])
  }

  /** The words with dots between them. */
  function Join(words: seq<Str>): Str
    requires words != []
  {
    Dotted(Front(words)) + Last(words)
  }

  lemma FirstWord(before: Str, w: Str, rest: Str)
    requires DOT !in w
    ensures var done := before + w + [DOT];
            WordsFrom(done + rest, |before|) == [w] + WordsFrom(done + rest, |done|)
  {
    var s, at := before + w + [DOT] + rest, |before| + |w|;
    assert s[|before|..at] == w;
    FindAt(s, DOT, |before|, at);
  }

  lemma Regroup<T>(a: seq<T>, b: seq<T>, c: seq<T>, d: seq<T>, e: seq<T>)
    ensures a + (b + c + d) + e == (a + b + c) + d + e
    ensures a + (b + c + d) == (a + b + c) + d
    ensures a + (b + c + d) + e == (a + b + c) + (d + e)
  {
  }

  lemma {:induction false} WordsOfDotted(before: Str, words: seq<Str>, rest: Str)
    requires DotFree(words)
    ensures var done := before + Dotted(words);
            WordsFrom(done + rest, |before|) == words + WordsFrom(done + rest, |done|)
    decreases words
  {
    hide WordsFrom;
    if words == [] {
      assert before + Dotted(words) == before;
    } else {
      var w, tail := words[0], words[1..];
      Regroup(before, w, [DOT], Dotted(tail), rest);
      FirstWord(before, w, Dotted(tail) + rest);
      WordsOfDotted(before + w + [DOT], tail, rest);
      assert words == [w] + tail;
    }
  }

  lemma LastWord(before: Str, w: Str)
    requires w != [] && DOT !in w
    ensures WordsFrom(before + w, |before|) == [w]
  {
    hide Find;
    var s := before + w;
    assert s[|before|..] == w == s[|before|..|s|];
    NotFound(s, DOT, |before|);
  }

  /** Splitting undoes joining. */
  lemma WordsOfJoin(words: seq<Str>)
    requires words != [] && DotFree(words) && Last(words) != []
    ensures Words(Join(words)) == words && !EndsWithDot(Join(words))
  {
    hide WordsFrom;
    var front, last := Front(words), Last(words);
    WordsOfDotted([], front, last);
    assert [] + Dotted(front) + last == Join(words) && [] + Dotted(front) == Dotted(front);
    LastWord(Dotted(front), last);
    assert words == front + [last];
    assert Last(Join(words)) == Last(last);
  }

  lemma WordsOfKeyWithDot(words: seq<Str>)
    requires words != [] && DotFree(words)
    ensures Words(Dotted(words)) == words && EndsWithDot(Dotted(words))
  {
    hide WordsFrom;
    WordsOfDotted([], words, []);
    assert [] + Dotted(words) + [] == Dotted(words) && [] + Dotted(words) == Dotted(words);
    NoWordsLeft(Dotted(words));
    DottedEndsWithDot(words);
  }

  lemma {:induction false} DottedEndsWithDot(words: seq<Str>)
    requires words != []
    ensures EndsWithDot(Dotted(words))
  {
    if |words| > 1 { DottedEndsWithDot(words[1..]); } else { assert Dotted(words[1..]) == []; }
  }

  lemma {:induction false} WordsAreDotFree(s: Str, i: nat)
    requires i <= |s|
    ensures DotFree(WordsFrom(s, i))
    decreases |s| - i
  {
    if i < |s| {
      var dot := Find(s, DOT, i);
      assert DOT !in s[i..dot];
      if dot < |s| { WordsAreDotFree(s, dot + 1); }
    }
  }

  lemma {:induction false} SkeletonIsDotFree(pattern: seq<Str>)
    requires DotFree(pattern)
    ensures DotFree(Skeleton(pattern))
  {
    if pattern != [] { SkeletonIsDotFree(pattern[1..]); }
  }
}
