/** For which binding keys the topic matcher keeps AMQP's promise, over all routing keys. */
module TopicPromise {
  import opened Bytes
  import opened Route
  import opened RouteAmqp

  lemma TopicOnWords(key: Str, pattern: Str)
    ensures TopicMatch(key, pattern) == WordMatch(Words(key), Words(pattern), EndsWithDot(pattern))
  {
  }

  /** What Words and trailing dots have to do with each other. */
  lemma WordsAtTheEnd(s: Str)
    ensures Words(s) == [] <==> s == []
    ensures s != [] && Last(Words(s)) == [] ==> EndsWithDot(s)
  {
    hide WordsFrom;
    if s != [] { EmptyLastWord(s, 0); } else { NoWordsLeft(s); }
  }

  lemma PatternWords(pattern: Str)
    ensures DotFree(Words(pattern)) && DotFree(Skeleton(Words(pattern)))
  {
    hide WordsFrom;
    WordsAreDotFree(pattern, 0);
    SkeletonIsDotFree(Words(pattern));
  }

  // ---------- keys without a trailing dot ----------

  /** Each '#' has nothing but '#' behind it; before a trailing dot the last word must be empty. */
  predicate AgreesOnPlainKeys(pattern: Str) {
    var ps := Words(pattern);
    if EndsWithDot(pattern) then ps != [] && Last(ps) == [] else HashOnlyAtTheEnd(ps)
  }

  lemma SameAtoms(key: seq<Str>, pattern: seq<Str>)
    requires HashOnlyAtTheEnd(pattern)
    ensures WordMatch(key, pattern, false) == WordsAmqp(key, pattern)
  {
    WordMatchExact(key, pattern, false);
    assert LoopAtoms(pattern, false) == AmqpAtoms(pattern);
  }

  lemma NoHashSameAtoms(key: seq<Str>, pattern: seq<Str>)
    requires HASH_WORD !in pattern
    ensures WordMatch(key, pattern, true) == WordsAmqp(key, pattern)
  {
    WordMatchExact(key, pattern, true);
    assert LoopAtoms(pattern, true) == AmqpAtoms(pattern);
  }

  /** A binding key ending in an empty word and a dot is matched by routing keys ending so only. */
  lemma EmptyWordNeedsADot(key: Str, pattern: Str)
    requires TopicMatch(key, pattern) && EndsWithDot(pattern)
    requires Words(pattern) != [] && Last(Words(pattern)) == []
    ensures EndsWithDot(key)
  {
    hide WordsFrom, WordMatch, AllHash;
    var ks, ps := Words(key), Words(pattern);
    TopicOnWords(key, pattern);
    SkeletonEnd(ps);
    AcceptedKeysAreLongEnough(ks, ps, true);
    ShortestKeysEndLikeTheSkeleton(ks, ps, true);
    WordsAtTheEnd(key);
  }

  lemma PlainKeyAgrees(key: Str, pattern: Str)
    requires AgreesOnPlainKeys(pattern) && !EndsWithDot(key)
    ensures TopicMatch(key, pattern) == AmqpMatch(key, pattern)
  {
    hide WordsFrom, WordsAmqp, AmqpMatch, TopicMatch, HashOnlyAtTheEnd;
    TrailingDots(key, pattern);
    TopicOnWords(key, pattern);
    if EndsWithDot(pattern) {
      if TopicMatch(key, pattern) { EmptyWordNeedsADot(key, pattern); }
    } else {
      SameAtoms(Words(key), Words(pattern));
      assert Words(key) + FinalWord(key) == Words(key);
    }
  }

  /** A routing key without trailing dot on which the two differ. */
  lemma PlainCounterexample(pattern: Str) returns (key: Str)
    requires !AgreesOnPlainKeys(pattern)
    ensures !EndsWithDot(key) && TopicMatch(key, pattern) != AmqpMatch(key, pattern)
    ensures EndsWithDot(pattern) ==> TopicMatch(key, pattern)
    ensures !EndsWithDot(pattern) ==> AmqpMatch(key, pattern)
  {
    hide WordsFrom, WordsAmqp, AmqpMatch, TopicMatch, HashOnlyAtTheEnd, Skeleton;
    var ps := Words(pattern);
    PatternWords(pattern);
    WordsAtTheEnd(pattern);
    var words := ps;
    if EndsWithDot(pattern) {
      PatternMatchesItself(ps, true);
    } else {
      SeparatorSeparates(ps);
      words := Separator(ps);
    }
    WordsOfJoin(words);
    key := Join(words);
    TopicOnWords(key, pattern);
    TrailingDots(key, pattern);
    assert words + FinalWord(key) == words;
  }

  /**
   On all routing keys that do not end in a dot, matcher and AMQP agree exactly for binding keys in
   which each '#' is followed only by '#', or which end in an empty word and a dot.
   */
  lemma PlainKeysIff(pattern: Str)
    ensures (forall key: Str :: !EndsWithDot(key) ==> TopicMatch(key, pattern) == AmqpMatch(key, pattern))
            <==> AgreesOnPlainKeys(pattern)
  {
    hide AmqpMatch, TopicMatch, AgreesOnPlainKeys;
    if AgreesOnPlainKeys(pattern) {
      forall key: Str | !EndsWithDot(key) ensures TopicMatch(key, pattern) == AmqpMatch(key, pattern) {
        PlainKeyAgrees(key, pattern);
      }
    } else {
      var key := PlainCounterexample(pattern);
    }
  }

  // ---------- accepting too much ----------

  /** Behind the last '#' there are only wildcards; before a trailing dot the last word must be empty. */
  predicate NeverTooMuch(pattern: Str) {
    var ps := Words(pattern);
    if EndsWithDot(pattern) then ps != [] && Last(ps) == [] else ps == [] || FlexibleEnd(ps)
  }

  lemma AcceptIsAmqp(key: Str, pattern: Str)
    requires NeverTooMuch(pattern) && TopicMatch(key, pattern)
    ensures AmqpMatch(key, pattern)
  {
    hide WordsFrom, WordsAmqp, AmqpMatch, TopicMatch, FlexibleEnd, WordMatch;
    if EndsWithDot(pattern) {
      EmptyWordNeedsADot(key, pattern);
      TopicMatchIsSound(key, pattern);
    } else if !EndsWithDot(key) {
      TopicMatchIsSound(key, pattern);
    } else {
      TopicOnWords(key, pattern);
      TrailingDots(key, pattern);
      LoopIsSoundOnWords(Words(key), Words(pattern), false);
      WordsAtTheEnd(key);
      if Words(pattern) == [] {
        NothingMatchesWords(Words(key));
      } else {
        FlexibleEndTakesMore(Words(key), [], Words(pattern));
      }
    }
  }

  lemma NothingMatchesWords(key: seq<Str>)
    ensures WordMatch(key, [], false) ==> key == []
  {
  }

  /** The binding key itself, without its trailing dot or with one more, is accepted against AMQP. */
  lemma TooMuch(pattern: Str) returns (key: Str)
    requires !NeverTooMuch(pattern)
    ensures TopicMatch(key, pattern) && !AmqpMatch(key, pattern)
  {
    hide WordsFrom, WordsAmqp, AmqpMatch, TopicMatch, FlexibleEnd, WordMatch;
    var ps := Words(pattern);
    WordsAtTheEnd(pattern);
    if EndsWithDot(pattern) {
      key := PlainCounterexample(pattern);
    } else {
      PatternWords(pattern);
      WordsOfKeyWithDot(ps);
      key := Dotted(ps);
      PatternMatchesItself(ps, false);
      TopicOnWords(key, pattern);
      TrailingDots(key, pattern);
      StiffEndTakesNoMore([], ps);
    }
  }

  lemma AcceptsOnlyAmqpIff(pattern: Str)
    ensures (forall key: Str :: TopicMatch(key, pattern) ==> AmqpMatch(key, pattern)) <==> NeverTooMuch(pattern)
  {
    hide AmqpMatch, TopicMatch, NeverTooMuch;
    if NeverTooMuch(pattern) {
      forall key: Str | TopicMatch(key, pattern) ensures AmqpMatch(key, pattern) { AcceptIsAmqp(key, pattern); }
    } else {
      var key := TooMuch(pattern);
    }
  }

  // ---------- accepting too little ----------

  /** With two or more words besides '#', the last of them would take an empty word. */
  predicate TakesFinalEmptyWord(pattern: seq<Str>) {
    var bones := Skeleton(pattern);
    |bones| > 1 && (Last(bones) == STAR_WORD || Last(bones) == [])
  }

  /** Each '#' has nothing but '#' behind it, and no word before that run takes a final empty word. */
  predicate NeverTooLittle(pattern: Str) {
    var ps := Words(pattern);
    if EndsWithDot(pattern) then HASH_WORD !in ps else HashOnlyAtTheEnd(ps) && !TakesFinalEmptyWord(ps)
  }

  lemma OneEmptyWord(pattern: seq<Str>)
    requires !AllHash(pattern) && HashOnlyAtTheEnd(pattern) && WordMatch([[]], pattern, false)
    ensures Skeleton(pattern) == [pattern[0]] && (pattern[0] == STAR_WORD || pattern[0] == [])
  {
    hide HashOnlyAtTheEnd;
    var key: seq<Str> := [[]];
    HashOnlyTail(pattern);
    assert key[1..] == [];
    assert AllHash(pattern[1..]);
    SkeletonIsShort(pattern[1..]);
  }

  lemma {:induction false} DropFinalEmptyWord(key: seq<Str>, pattern: seq<Str>)
    requires key != [] && HashOnlyAtTheEnd(pattern) && !TakesFinalEmptyWord(pattern)
    requires WordMatch(key + [[]], pattern, false)
    ensures WordMatch(key, pattern, false)
    decreases |pattern|
  {
    hide HashOnlyAtTheEnd;
    var longer := key + [[]];
    assert longer[0] == key[0] && longer[1..] == key[1..] + [[]];
    HashOnlyTail(pattern);
    if AllHash(pattern) {
      AllHashTakesAny(key, pattern);
    } else {
      var tail := pattern[1..];
      assert Skeleton(pattern) == [pattern[0]] + Skeleton(tail);
      if key[1..] != [] {
        DropFinalEmptyWord(key[1..], tail);
      } else if !AllHash(tail) {
        assert longer[1..] == [[]];
        OneEmptyWord(tail);
      }
    }
  }

  lemma AllHashTakesAny(key: seq<Str>, pattern: seq<Str>)
    requires AllHash(pattern) && pattern != []
    ensures WordMatch(key, pattern, false)
  {
    TrailingRunLoop(key, pattern, false);
  }

  lemma AmqpIsAccepted(key: Str, pattern: Str)
    requires NeverTooLittle(pattern) && AmqpMatch(key, pattern)
    ensures TopicMatch(key, pattern)
  {
    hide WordsFrom, WordsAmqp, AmqpMatch, TopicMatch, WordMatch, HashOnlyAtTheEnd, TakesFinalEmptyWord;
    var ks, ps := Words(key), Words(pattern);
    TrailingDots(key, pattern);
    TopicOnWords(key, pattern);
    if EndsWithDot(pattern) {
      NoHashSameAtoms(ks, ps);
    } else {
      SameAtoms(ks + FinalWord(key), ps);
      WordsAtTheEnd(key);
      if EndsWithDot(key) { DropFinalEmptyWord(ks, ps); } else { assert ks + FinalWord(key) == ks; }
    }
  }

  lemma TooLittle(pattern: Str) returns (key: Str)
    requires !NeverTooLittle(pattern)
    ensures AmqpMatch(key, pattern) && !TopicMatch(key, pattern)
  {
    hide WordsFrom, WordsAmqp, AmqpMatch, TopicMatch, WordMatch, HashOnlyAtTheEnd, TakesFinalEmptyWord, DottedSeparator;
    var ps := Words(pattern);
    if !EndsWithDot(pattern) && !HashOnlyAtTheEnd(ps) {
      key := PlainCounterexample(pattern);
    } else {
      var words;
      if EndsWithDot(pattern) {
        DottedSeparatorSeparates(ps);
        words := DottedSeparator(ps);
        DottedSeparatorIsDotFree(pattern);
      } else {
        words := ShortByOne(pattern);
      }
      WordsOfKeyWithDot(words);
      key := Dotted(words);
      TrailingDots(key, pattern);
      TopicOnWords(key, pattern);
    }
  }

  lemma DottedSeparatorIsDotFree(pattern: Str)
    ensures DotFree(DottedSeparator(Words(pattern)))
  {
    hide WordsFrom, HashOnlyAtTheEnd;
    PatternWords(pattern);
    assert DOT !in STAR_WORD;
  }

  /** The words before the one that would take the empty word. */
  lemma ShortByOne(pattern: Str) returns (words: seq<Str>)
    requires HashOnlyAtTheEnd(Words(pattern)) && TakesFinalEmptyWord(Words(pattern))
    ensures words != [] && DotFree(words)
    ensures WordsAmqp(words + [[]], Words(pattern)) && !WordMatch(words, Words(pattern), false)
  {
    hide WordsFrom, WordsAmqp, WordMatch, HashOnlyAtTheEnd;
    var ps := Words(pattern);
    var bones := Skeleton(ps);
    PatternWords(pattern);
    words := Front(bones);
    AmqpAcceptsSkeleton(ps, words + [[]], []);
    assert words + [[]] + [] == words + [[]];
    SkeletonIsShort(ps);
    if WordMatch(words, ps, false) { AcceptedKeysAreLongEnough(words, ps, false); }
  }

  lemma AcceptsAllAmqpIff(pattern: Str)
    ensures (forall key: Str :: AmqpMatch(key, pattern) ==> TopicMatch(key, pattern)) <==> NeverTooLittle(pattern)
  {
    hide AmqpMatch, TopicMatch, NeverTooLittle;
    if NeverTooLittle(pattern) {
      forall key: Str | AmqpMatch(key, pattern) ensures TopicMatch(key, pattern) { AmqpIsAccepted(key, pattern); }
    } else {
      var key := TooLittle(pattern);
    }
  }

  /**
   The documentation gives '#' and '*' their AMQP meaning. Over all routing keys a binding key has it
   exactly when it neither accepts too much nor too little.
   */
  lemma TopicMatchIsAmqpIff(pattern: Str)
    ensures (forall key: Str :: TopicMatch(key, pattern) == AmqpMatch(key, pattern))
            <==> NeverTooMuch(pattern) && NeverTooLittle(pattern)
  {
    hide AmqpMatch, TopicMatch, NeverTooMuch, NeverTooLittle;
    AcceptsOnlyAmqpIff(pattern);
    AcceptsAllAmqpIff(pattern);
  }
}
