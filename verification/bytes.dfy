/** Byte strings, as std::string holds them, and the one search the sources use on them. */
module Bytes {

  newtype Byte = b: int | 0 <= b < 256

  type Str = seq<Byte>

  datatype Option<+T> = None | Some(value: T)

  const HASH: Byte := 35       // '#'
  const AMPERSAND: Byte := 38  // '&'
  const STAR: Byte := 42       // '*'
  const DOT: Byte := 46        // '.'
  const ZERO: Byte := 48       // '0'
  const ONE: Byte := 49        // '1'
  const EQUALS: Byte := 61     // '='

  predicate Distinct<T(==)>(s: seq<T>) {
    forall i, j :: 0 <= i < j < |s| ==> s[i] != s[j]
  }

  /** order is one order in which a hash map yields its keys: every key once. */
  ghost predicate IsOrder(order: seq<Str>, keys: set<Str>) {
    && (forall k :: k in order <==> k in keys)
    && Distinct(order)
  }

  lemma DistinctCons<T>(x: T, s: seq<T>)
    requires Distinct(s) && x !in s
    ensures Distinct([x] + s)
  {
  }

  /** std::string::find(c, from); |s| stands for npos. */
  function Find(s: Str, c: Byte, from: nat): (r: nat)
    requires from <= |s|
    ensures from <= r <= |s|
    ensures forall i :: from <= i < r ==> s[i] != c
    ensures r < |s| ==> s[r] == c
    decreases |s| - from
  {
    if from == |s| || s[from] == c then from else Find(s, c, from + 1)
  }

  lemma FindAt(s: Str, c: Byte, from: nat, at: nat)
    requires from <= at < |s| && s[at] == c && c !in s[from..at]
    ensures Find(s, c, from) == at
  {
    forall i | from <= i < at ensures s[i] != c { assert s[i] == s[from..at][i - from]; }
  }

  lemma NotFound(s: Str, c: Byte, from: nat)
    requires from <= |s| && c !in s[from..]
    ensures Find(s, c, from) == |s|
  {
    forall i | from <= i < |s| ensures s[i] != c { assert s[i] == s[from..][i - from]; }
  }

  /** std::to_string of an unsigned number. */
  function Decimal(n: nat): (s: Str)
    ensures s != []
  {
    var last := [ZERO + (n % 10) as Byte];
    if n < 10 then last else Decimal(n / 10) + last
  }

  /** The number a string of digits spells. */
  function DecimalValue(s: Str): int
  {
    if s == [] then 0 else 10 * DecimalValue(s[..|s| - 1]) + (s[|s| - 1] as int - ZERO as int)
  }

  lemma {:induction false} DecimalValueOfDecimal(n: nat)
    ensures DecimalValue(Decimal(n)) == n
  {
    var s := Decimal(n);
    if n < 10 {
      assert DecimalValue(s[..0]) == 0;
    } else {
      assert s[..|s| - 1] == Decimal(n / 10);
      DecimalValueOfDecimal(n / 10);
    }
  }
}
