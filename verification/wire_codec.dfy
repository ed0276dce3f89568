/**
 The stored payload of a message and its binary form: the proto3 wire format restricted to
 varint and length-delimited fields, which are the only kinds these messages use.
 */
module WireCodec {
  import opened Bytes

  // ---------- messages ----------

  /** One field on the wire: wire type 0 (varint) or wire type 2 (length-delimited). */
  datatype Field = Num(num: nat, n: nat) | Len(num: nat, data: Str)

  /** Fields 4 to 18 of the properties (headers, priority, ...): carried along, never interpreted. */
  type OtherField = f: Field | f.num >= 4 witness Num(4, 0)

  datatype Properties = Properties(id: Str, deliveryMode: nat, routingKey: Str, others: seq<OtherField>)

  const DEFAULT_PROPERTIES := Properties([], 0, [], [])

  datatype Payload = Payload(properties: Option<Properties>, body: Str, valid: Str)
  {
    /** payload().properties().id(): the empty string when no properties are set. */
    function Id(): Str {
      if properties.Some? then properties.value.id else []
    }
  }

  const VALID: Str := [ONE]
  const INVALID: Str := [ZERO]

  // ---------- varints ----------

  function Varint(n: nat): (s: Str)
    ensures s != []
  {
    if n < 128 then [n as Byte] else [(n % 128 + 128) as Byte] + Varint(n / 128)
  }

  /** The value at the front of s and what follows it. */
  function ReadVarint(s: Str): (r: Option<(nat, Str)>)
    ensures r.Some? ==> |r.value.1| < |s|
  {
    if s == [] then None
    else if s[0] < 128 then Some((s[0] as nat, s[1..]))
    else match ReadVarint(s[1..])
      case None => None
      case Some((high, rest)) => Some((s[0] as nat - 128 + 128 * high, rest))
  }

  lemma {:induction false} VarintRoundTrip(n: nat, rest: Str)
    ensures ReadVarint(Varint(n) + rest) == Some((n, rest))
  {
    var s := Varint(n) + rest;
    if n < 128 {
      assert s[1..] == rest;
    } else {
      assert s[1..] == Varint(n / 128) + rest;
      VarintRoundTrip(n / 128, rest);
    }
  }

  // ---------- fields ----------

  function FieldBytes(f: Field): (s: Str)
    ensures s != []
  {
    match f
    case Num(num, n) => Varint(num * 8) + Varint(n)
    case Len(num, data) => Varint(num * 8 + 2) + Varint(|data|) + data
  }

  function FieldsBytes(fs: seq<Field>): Str {
    if fs == [] then [] else FieldBytes(fs[0]) + FieldsBytes(fs[1..])
  }

  function ReadField(s: Str): (r: Option<(Field, Str)>)
    ensures r.Some? ==> |r.value.1| < |s|
  {
    match ReadVarint(s)
    case None => None
    case Some((tag, rest)) =>
      if tag / 8 == 0 then None
      else if tag % 8 == 0 then
        match ReadVarint(rest)
        case None => None
        case Some((n, rest')) => Some((Num(tag / 8, n), rest'))
      else if tag % 8 == 2 then
        match ReadVarint(rest)
        case None => None
        case Some((n, rest')) => if n > |rest'| then None else Some((Len(tag / 8, rest'[..n]), rest'[n..]))
      else None
  }

  function ParseFields(s: Str): Option<seq<Field>>
    decreases |s|
  {
    if s == [] then Some([])
    else match ReadField(s)
      case None => None
      case Some((f, rest)) =>
        match ParseFields(rest)
        case None => None
        case Some(fs) => Some([f] + fs)
  }

  lemma FieldRoundTrip(f: Field, rest: Str)
    requires f.num > 0
    ensures ReadField(FieldBytes(f) + rest) == Some((f, rest))
  {
    hide Varint, ReadVarint;
    match f
    case Num(num, n) =>
      assert FieldBytes(f) + rest == Varint(num * 8) + (Varint(n) + rest);
      VarintRoundTrip(num * 8, Varint(n) + rest);
      VarintRoundTrip(n, rest);
    case Len(num, data) =>
      assert FieldBytes(f) + rest == Varint(num * 8 + 2) + (Varint(|data|) + (data + rest));
      VarintRoundTrip(num * 8 + 2, Varint(|data|) + (data + rest));
      VarintRoundTrip(|data|, data + rest);
  }

  lemma {:induction false} FieldsRoundTrip(fs: seq<Field>)
    requires forall f <- fs :: f.num > 0
    ensures ParseFields(FieldsBytes(fs)) == Some(fs)
  {
    if fs != [] {
      FieldRoundTrip(fs[0], FieldsBytes(fs[1..]));
      FieldsRoundTrip(fs[1..]);
      assert [fs[0]] + fs[1..] == fs;
    }
  }

  lemma {:induction false} FieldsBytesConcat(a: seq<Field>, b: seq<Field>)
    ensures FieldsBytes(a + b) == FieldsBytes(a) + FieldsBytes(b)
  {
    if a == [] {
      assert a + b == b;
    } else {
      assert (a + b)[1..] == a[1..] + b;
      FieldsBytesConcat(a[1..], b);
    }
  }

  // ---------- properties and payload ----------

  /** The last length-delimited field with this number; absent fields read as the default. */
  function LastLen(fs: seq<Field>, num: nat): Option<Str> {
    if fs == [] then None
    else
      var last := fs[|fs| - 1];
      if last.Len? && last.num == num then Some(last.data) else LastLen(fs[..|fs| - 1], num)
  }

  function LastNum(fs: seq<Field>, num: nat): nat {
    if fs == [] then 0
    else
      var last := fs[|fs| - 1];
      if last.Num? && last.num == num then last.n else LastNum(fs[..|fs| - 1], num)
  }

  function Others(fs: seq<Field>): seq<OtherField> {
    if fs == [] then []
    else if fs[|fs| - 1].num >= 4 then Others(fs[..|fs| - 1]) + [fs[|fs| - 1]]
    else Others(fs[..|fs| - 1])
  }

  function OrEmpty(o: Option<Str>): Str {
    if o.Some? then o.value else []
  }

  /** proto3 leaves out a string field that is empty. */
  function LenField(num: nat, data: Str): seq<Field> {
    if data == [] then [] else [Len(num, data)]
  }

  function PropertiesFields(p: Properties): (fs: seq<Field>)
    ensures forall f <- fs :: f.num > 0
  {
    NamedFields(p) + p.others
  }

  function PropertiesOf(fs: seq<Field>): Properties {
    Properties(OrEmpty(LastLen(fs, 1)), LastNum(fs, 2), OrEmpty(LastLen(fs, 3)), Others(fs))
  }

  lemma {:induction false} NoOthers(fs: seq<Field>)
    requires forall f <- fs :: f.num < 4
    ensures Others(fs) == []
  {
    if fs != [] { NoOthers(fs[..|fs| - 1]); }
  }

  lemma {:induction false} OthersAreTransparent(fs: seq<Field>, others: seq<OtherField>)
    requires forall f <- fs :: f.num < 4
    ensures LastLen(fs + others, 1) == LastLen(fs, 1)
    ensures LastNum(fs + others, 2) == LastNum(fs, 2)
    ensures LastLen(fs + others, 3) == LastLen(fs, 3)
    ensures Others(fs + others) == others
  {
    var all := fs + others;
    if others == [] {
      assert all == fs;
      NoOthers(fs);
    } else {
      var front, last := others[..|others| - 1], others[|others| - 1];
      assert all[..|all| - 1] == fs + front && all[|all| - 1] == last;
      OthersAreTransparent(fs, front);
      assert others == front + [last];
    }
  }

  /** Appending a string field changes only what a lookup of that number finds. */
  lemma LookupAfterLenField(fs: seq<Field>, num: nat, data: Str, wanted: nat)
    requires num < 4
    ensures var all := fs + LenField(num, data);
            && LastLen(all, wanted) == (if data != [] && wanted == num then Some(data) else LastLen(fs, wanted))
            && LastNum(all, wanted) == LastNum(fs, wanted)
  {
    var all := fs + LenField(num, data);
    if data != [] {
      assert all[..|all| - 1] == fs;
    } else {
      assert all == fs;
    }
  }

  /** The fields of the properties before the carried-along ones. */
  function NamedFields(p: Properties): (fs: seq<Field>)
    ensures forall f <- fs :: 0 < f.num < 4
  {
    LenField(1, p.id) + (if p.deliveryMode == 0 then [] else [Num(2, p.deliveryMode)]) + LenField(3, p.routingKey)
  }

  lemma NamedLookups(p: Properties)
    ensures var fs := NamedFields(p);
            && OrEmpty(LastLen(fs, 1)) == p.id
            && LastNum(fs, 2) == p.deliveryMode
            && OrEmpty(LastLen(fs, 3)) == p.routingKey
  {
    var id := LenField(1, p.id);
    var mode := id + (if p.deliveryMode == 0 then [] else [Num(2, p.deliveryMode)]);
    LookupAfterLenField(mode, 3, p.routingKey, 1);
    LookupAfterLenField(mode, 3, p.routingKey, 2);
    LookupAfterLenField(mode, 3, p.routingKey, 3);
    if p.deliveryMode == 0 {
      assert mode == id;
    } else {
      assert mode[..|mode| - 1] == id;
    }
    assert id != [] ==> id[..0] == [];
    assert LastLen(id, 3) == None;
  }

  lemma PropertiesRoundTrip(p: Properties)
    ensures PropertiesOf(PropertiesFields(p)) == p
  {
    NamedLookups(p);
    OthersAreTransparent(NamedFields(p), p.others);
  }

  function PayloadFields(p: Payload): (fs: seq<Field>)
    ensures forall f <- fs :: f.num > 0
  {
    (if p.properties.None? then [] else [Len(1, FieldsBytes(PropertiesFields(p.properties.value)))]) +
    LenField(2, p.body) + LenField(3, p.valid)
  }

  /** SerializeToString */
  function Serialize(p: Payload): Str {
    FieldsBytes(PayloadFields(p))
  }

  function PayloadOf(properties: Option<Str>, body: Str, valid: Str): Option<Payload> {
    match properties
    case None => Some(Payload(None, body, valid))
    case Some(sub) =>
      match ParseFields(sub)
      case None => None
      case Some(inner) => Some(Payload(Some(PropertiesOf(inner)), body, valid))
  }

  /** ParseFromString: None when it returns false. */
  function Parse(s: Str): Option<Payload> {
    match ParseFields(s)
    case None => None
    case Some(fs) => PayloadOf(LastLen(fs, 1), OrEmpty(LastLen(fs, 2)), OrEmpty(LastLen(fs, 3)))
  }

  lemma PayloadRoundTrip(p: Payload)
    ensures Parse(Serialize(p)) == Some(p)
  {
    hide FieldsBytes, ParseFields, PayloadFields, PropertiesFields, PropertiesOf, LastLen;
    FieldsRoundTrip(PayloadFields(p));
    PayloadLookups(p);
    if p.properties.Some? {
      FieldsRoundTrip(PropertiesFields(p.properties.value));
      PropertiesRoundTrip(p.properties.value);
    }
  }

  lemma PayloadLookups(p: Payload)
    ensures var fs := PayloadFields(p);
            && OrEmpty(LastLen(fs, 2)) == p.body && OrEmpty(LastLen(fs, 3)) == p.valid
            && LastLen(fs, 1) == match p.properties
                                 case None => None
                                 case Some(q) => Some(FieldsBytes(PropertiesFields(q)))
  {
    var props := if p.properties.None? then [] else [Len(1, FieldsBytes(PropertiesFields(p.properties.value)))];
    assert p.properties.Some? ==> props[..|props| - 1] == [];
    var body := props + LenField(2, p.body);
    LookupAfterLenField(props, 2, p.body, 1);
    LookupAfterLenField(props, 2, p.body, 2);
    LookupAfterLenField(props, 2, p.body, 3);
    LookupAfterLenField(body, 3, p.valid, 1);
    LookupAfterLenField(body, 3, p.valid, 2);
    LookupAfterLenField(body, 3, p.valid, 3);
  }

  /**
   Flipping valid from "1" to "0" changes the last byte of the binary form and nothing else;
   the length in particular stays.
   */
  lemma ValidIsTheLastByte(p: Payload)
    requires p.valid == VALID
    ensures var on, off := Serialize(p), Serialize(p.(valid := INVALID));
            |on| == |off| > 0 && on[|on| - 1] == ONE && off == on[..|on| - 1] + [ZERO]
  {
    var q := p.(valid := INVALID);
    var front := PayloadFields(p.(valid := []));
    assert PayloadFields(p) == front + [Len(3, VALID)];
    assert PayloadFields(q) == front + [Len(3, INVALID)];
    FieldsBytesConcat(front, [Len(3, VALID)]);
    FieldsBytesConcat(front, [Len(3, INVALID)]);
    LastFieldBytes(VALID);
    LastFieldBytes(INVALID);
  }

  lemma LastFieldBytes(v: Str)
    requires |v| == 1
    ensures FieldsBytes([Len(3, v)]) == [26, 1] + v
  {
    assert [Len(3, v)][1..] == [];
    assert Varint(26) == [26] && Varint(1) == [1];
  }

  /** A non-empty string field on the wire: its tag, its length, its bytes. */
  function TaggedString(tag: Byte, data: Str): Str {
    if data == [] then [] else [tag] + Varint(|data|) + data
  }

  /** Numbers below 128 are one byte; larger ones have their low seven bits first. */
  lemma VarintBytes(n: nat)
    ensures n < 128 ==> Varint(n) == [n as Byte]
    ensures 128 <= n < 16384 ==> Varint(n) == [(n % 128 + 128) as Byte, (n / 128) as Byte]
  {
  }

  lemma TaggedBytes(num: nat, data: Str)
    requires 0 < num < 4
    ensures FieldsBytes(LenField(num, data)) == TaggedString((num * 8 + 2) as Byte, data)
  {
    hide Varint;
    if data != [] {
      assert LenField(num, data)[1..] == [];
      VarintBytes(num * 8 + 2);
    }
  }

  /**
   The bytes of a payload, by the numbers of msg.proto: properties under tag 10, body under 18 and valid
   under 26; in the properties the id under 10, the delivery mode under 16, the routing key under 26,
   then the other fields.
   */
  lemma SerializedForm(p: Payload)
    ensures Serialize(p) ==
            (match p.properties
             case None => []
             case Some(q) => [10] + Varint(|FieldsBytes(PropertiesFields(q))|) + FieldsBytes(PropertiesFields(q)))
            + TaggedString(18, p.body) + TaggedString(26, p.valid)
    ensures p.properties.Some? ==> var q := p.properties.value;
            FieldsBytes(PropertiesFields(q)) ==
            TaggedString(10, q.id) + (if q.deliveryMode == 0 then [] else [16] + Varint(q.deliveryMode))
            + TaggedString(26, q.routingKey) + FieldsBytes(q.others)
  {
    hide FieldsBytes, FieldBytes, TaggedString, LenField, Varint;
    var first := if p.properties.None? then []
                 else [Len(1, FieldsBytes(PropertiesFields(p.properties.value)))];
    FieldsBytesConcat(first + LenField(2, p.body), LenField(3, p.valid));
    FieldsBytesConcat(first, LenField(2, p.body));
    TaggedBytes(2, p.body);
    TaggedBytes(3, p.valid);
    NoFieldBytes();
    if p.properties.Some? {
      PropertiesForm(p.properties.value);
      OneFieldBytes(Len(1, FieldsBytes(PropertiesFields(p.properties.value))));
    }
  }

  lemma NoFieldBytes()
    ensures FieldsBytes([]) == []
  {
  }

  lemma OneFieldBytes(f: Field)
    requires 0 < f.num < 4
    ensures FieldsBytes([f]) == match f
                                case Num(num, n) => [(num * 8) as Byte] + Varint(n)
                                case Len(num, data) => [(num * 8 + 2) as Byte] + Varint(|data|) + data
  {
    hide Varint;
    assert [f][1..] == [];
    VarintBytes(f.num * 8);
    VarintBytes(f.num * 8 + 2);
  }

  lemma PropertiesForm(q: Properties)
    ensures FieldsBytes(PropertiesFields(q)) ==
            TaggedString(10, q.id) + (if q.deliveryMode == 0 then [] else [16] + Varint(q.deliveryMode))
            + TaggedString(26, q.routingKey) + FieldsBytes(q.others)
  {
    hide FieldsBytes, FieldBytes, TaggedString, LenField, Varint;
    var mode := if q.deliveryMode == 0 then [] else [Num(2, q.deliveryMode)];
    FieldsBytesConcat(NamedFields(q), q.others);
    FieldsBytesConcat(LenField(1, q.id) + mode, LenField(3, q.routingKey));
    FieldsBytesConcat(LenField(1, q.id), mode);
    TaggedBytes(1, q.id);
    TaggedBytes(3, q.routingKey);
    NoFieldBytes();
    if q.deliveryMode != 0 { OneFieldBytes(Num(2, q.deliveryMode)); }
  }

  // ---------- the length prefix of a frame ----------

  const TWO32: nat := 0x1_0000_0000
  const TWO64: nat := 0x1_0000_0000_0000_0000

  /** static_cast<uint32_t>: the value modulo 2^32. */
  function Low32(n: nat): (r: nat)
    ensures r < TWO32 && (n < TWO32 ==> r == n)
  {
    if n < TWO32 then n else Low32(n - TWO32)
  }

  /** The four bytes of a uint32_t, least significant first; larger numbers lose their high bits. */
  function Le32(n: nat): (s: Str)
    ensures |s| == 4
  {
    [(n % 256) as Byte, (n / 256 % 256) as Byte, (n / 65536 % 256) as Byte, (n / 16777216 % 256) as Byte]
  }

  function FromLe32(s: Str): (n: nat)
    requires |s| == 4
    ensures n < TWO32
  {
    s[0] as nat + 256 * s[1] as nat + 65536 * s[2] as nat + 16777216 * s[3] as nat
  }

  lemma Le32RoundTrip(n: nat)
    ensures FromLe32(Le32(n)) == n % TWO32
  {
    var a, b, c := n / 256, n / 65536, n / 16777216;
    assert b == a / 256 && c == b / 256;
    assert n == n % 256 + 256 * (a % 256) + 65536 * (b % 256) + 16777216 * (c % 256) + TWO32 * (c / 256);
  }
}
