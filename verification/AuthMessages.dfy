/** A generated message object: each method against the codec. */
module AuthMessages {
  import opened Wire
  import opened UnknownFields
  import opened AuthCodec

  predicate AllRequired(schema: Schema, m: Message) {
    forall i :: 0 <= i < |schema| && schema[i].required ==> i + 1 in m.values
  }

  /** The bytes of one field, tag included, as ByteSizeLong counts them. */
  function FieldSize(v: Value): nat {
    match v
    case Num(n) => 1 + VarintSize(n)
    case Data(data) => 1 + (VarintSize(|data|) + |data|)
  }

  /** What the first n fields that are set, and of the given kind of requiredness, add up to. */
  function SizeSum(schema: Schema, m: Message, required: bool, n: nat): nat
    requires n <= |schema|
  {
    if n == 0 then 0
    else
      var counted := schema[n - 1].required == required && n in m.values;
      SizeSum(schema, m, required, n - 1) + if counted then FieldSize(m.values[n]) else 0
  }

  /** What the types of the fields allow; unknown fields are any the message may carry. */
  ghost predicate InTypes(schema: Schema, m: Message) {
    && (forall n :: n in m.values ==> 0 < n <= |schema| && SizedValue(m.values[n]))
    && AllEncodable(m.unknown)
  }

  ghost predicate SizedValue(v: Value) {
    match v
    case Num(n) => n < TWO_64
    case Data(data) => |data| < TWO_32
  }

  lemma {:induction false} FieldSizeExact(schema: Schema, n: nat, v: Value)
    requires ValidSchema(schema) && 0 < n <= |schema| && SizedValue(v)
    ensures FieldSize(v) == |FieldBytes(schema, n, v)|
  {
    TagParts(n, KindWireType(schema[n - 1].kind));
    match v
    case Num(k) => VarintSizeExact(k);
    case Data(data) => VarintSizeExact(|data|);
  }

  lemma {:induction false} SizeSumExact(schema: Schema, m: Message, n: nat)
    requires ValidSchema(schema) && InTypes(schema, m) && n <= |schema|
    ensures SizeSum(schema, m, true, n) + SizeSum(schema, m, false, n) == |KnownBytes(schema, m, n)|
  {
    if n > 0 {
      SizeSumExact(schema, m, n - 1);
      if n in m.values { FieldSizeExact(schema, n, m.values[n]); }
      hide FieldBytes, FieldSize, SizedValue;
    }
  }

  /** The counted size is the number of bytes written, for every message. */
  lemma {:induction false} SizeExact(schema: Schema, m: Message)
    requires ValidSchema(schema) && InTypes(schema, m)
    ensures SizeSum(schema, m, true, |schema|) + SizeSum(schema, m, false, |schema|) + FieldsSize(m.unknown)
      == |Serialize(schema, m)|
  {
    SizeSumExact(schema, m, |schema|);
    FieldsSizeExact(m.unknown);
  }

  lemma {:induction false} AllForeignEncodable(schema: Schema, us: seq<UnknownField>)
    requires forall i :: 0 <= i < |us| ==> Foreign(schema, us[i])
    ensures AllEncodable(us)
    decreases |us|
  {
    if us != [] {
      WellFormedIsEncodable(us[0], RECURSION_LIMIT);
      AllForeignEncodable(schema, us[1..]);
    }
  }

  /** Whatever can be parsed is among these messages. */
  lemma {:induction false} SaneIsInTypes(schema: Schema, m: Message)
    requires ValidSchema(schema) && Sane(schema, m)
    ensures InTypes(schema, m)
  {
    AllForeignEncodable(schema, m.unknown);
    forall n | n in m.values ensures 0 < n <= |schema| && SizedValue(m.values[n]) {
      assert Fits(schema[n - 1].kind, m.values[n]);
    }
    hide Foreign;
  }

  class AuthMessage {
    const schema: Schema
    var values: map<nat, Value>
    var unknown: seq<UnknownField>

    function View(): Message
      reads this
    {
      Message(values, unknown)
    }

    constructor (schema: Schema)
      ensures this.schema == schema && View() == EMPTY
    {
      this.schema := schema;
      values, unknown := map[], [];
    }

    method Clear()
      modifies this
      ensures View() == EMPTY
    {
      values, unknown := map[], [];
    }

    /** Copies the fields whose has-bit is set, appends the unknown fields. */
    method MergeFrom(from: Message)
      requires forall n :: n in from.values ==> 0 < n <= |schema|
      modifies this
      ensures View() == Merge(old(View()), from)
    {
      for n := 1 to |schema| + 1
        invariant unknown == old(unknown)
        invariant forall k :: k in values <==> k in old(values) || (k in from.values && k < n)
        invariant forall k :: k in values ==>
          values[k] == if k in from.values && k < n then from.values[k] else old(values)[k]
      {
        if n in from.values { values := values[n := from.values[n]]; }
      }
      assert values == old(values) + from.values;
      unknown := unknown + from.unknown;
    }

    method CopyFrom(from: Message)
      requires forall n :: n in from.values ==> 0 < n <= |schema|
      modifies this
      ensures View() == from
    {
      Clear();
      MergeFrom(from);
      assert map[] + from.values == from.values && [] + from.unknown == from.unknown;
    }

    method IsInitialized() returns (ok: bool)
      ensures ok <==> AllRequired(schema, View())
    {
      for i := 0 to |schema|
        invariant forall j :: 0 <= j < i && schema[j].required ==> j + 1 in values
      {
        if schema[i].required && i + 1 !in values { return false; }
      }
      ok := true;
    }

    method InternalParse(s: Bytes) returns (ok: bool)
      modifies this
      ensures ok <==> ParseInto(schema, old(View()), s).Parsed?
      ensures ok ==> View() == ParseInto(schema, old(View()), s).value
    {
      var ptr := s;
      while ptr != []
        invariant ParseInto(schema, View(), ptr) == ParseInto(schema, old(View()), s)
        decreases |ptr|
      {
        ParseStep(schema, View(), ptr);
        hide ParseInto, ReadDelta;
        ok, ptr := ParseField(ptr);
        if !ok { return false; }
      }
      ok := true;
    }

    /** The body of the loop: one field. */
    method ParseField(s: Bytes) returns (ok: bool, rest: Bytes)
      modifies this
      ensures ok <==> ReadDelta(schema, s).Read?
      ensures ok ==>
        View() == Apply(old(View()), ReadDelta(schema, s).value) && rest == s[ReadDelta(schema, s).length..]
    {
      var t := ParseVarint(s, 5, TWO_32);
      assert t == ReadTag(s);
      if t.Fail? { return false, s; }
      var tag, number, body := t.value, t.value / 8, s[t.length..];
      hide ReadField, ReadKnown, ReadTag;
      if KnownTag(schema, tag) {
        ok, rest := ParseKnown(schema[number - 1].kind, number, body);
      } else {
        if tag == 0 || tag % 8 == END_GROUP { return false, s; }
        var u := ReadField(tag, body, RECURSION_LIMIT);
        if u.Fail? { return false, s; }
        unknown := unknown + [u.value];
        ok, rest := true, body[u.length..];
      }
    }

    /** The cases of the switch. */
    method ParseKnown(kind: Kind, number: nat, s: Bytes) returns (ok: bool, rest: Bytes)
      modifies this
      ensures ok <==> ReadKnown(kind, number, s).Read?
      ensures ok ==> View() == Apply(old(View()), ReadKnown(kind, number, s).value)
      ensures ok ==> rest == s[ReadKnown(kind, number, s).length..]
    {
      rest := s;
      match kind {
        case Int64 =>
          var v := ParseVarint(s, 10, TWO_64);
          if v.Fail? { return false, s; }
          values := values[number := Num(v.value)];
          return true, s[v.length..];
        case Text =>
          var data := ReadData(s);
          if data.Fail? { return false, s; }
          values := values[number := Data(data.value)];
          return true, s[data.length..];
        case Enum(count) =>
          var v := ParseVarint(s, 10, TWO_64);
          if v.Fail? { return false, s; }
          if v.value % TWO_32 < count {
            values := values[number := Num(v.value % TWO_32)];
          } else {
            unknown := unknown + [VarintField(number, v.value)];
          }
          return true, s[v.length..];
      }
    }

    method InternalSerialize() returns (target: Bytes)
      ensures target == Serialize(schema, View())
    {
      target := [];
      for n := 0 to |schema|
        invariant target == KnownBytes(schema, View(), n)
      {
        if n + 1 in values { target := target + FieldBytes(schema, n + 1, values[n + 1]); }
      }
      ghost var known := target;
      assert known + Fields([]) == known && unknown[..0] == [];
      hide Fields, Body, WireType, KnownBytes, FieldBytes, Varint;
      for i := 0 to |unknown|
        invariant target == known + Fields(unknown[..i])
      {
        FieldsNext(unknown, i);
        Pieces(known, Fields(unknown[..i]), Varint(Tag(unknown[i].number, WireType(unknown[i]))) + Body(unknown[i]));
        target := target + (Varint(Tag(unknown[i].number, WireType(unknown[i]))) + Body(unknown[i]));
      }
      assert unknown[..|unknown|] == unknown;
    }

    method RequiredFieldsByteSizeFallback() returns (total: nat)
      ensures total == SizeSum(schema, View(), true, |schema|)
    {
      total := 0;
      for n := 0 to |schema|
        invariant total == SizeSum(schema, View(), true, n)
      {
        if schema[n].required && n + 1 in values { total := total + FieldSize(values[n + 1]); }
      }
    }

    /** With every required field present their has-bits are not asked one by one. */
    method ByteSizeLong() returns (total: nat)
      requires ValidSchema(schema) && InTypes(schema, View())
      ensures total == |Serialize(schema, View())|
    {
      SizeExact(schema, View());
      hide Serialize, InTypes, FieldSize, FieldsSize;
      total := 0;
      if AllRequired(schema, View()) {
        for n := 0 to |schema|
          invariant total == SizeSum(schema, View(), true, n)
        {
          if schema[n].required { total := total + FieldSize(values[n + 1]); }
        }
      } else {
        total := RequiredFieldsByteSizeFallback();
      }
      ghost var required := total;
      for n := 0 to |schema|
        invariant total == required + SizeSum(schema, View(), false, n)
      {
        if !schema[n].required && n + 1 in values { total := total + FieldSize(values[n + 1]); }
      }
      total := total + FieldsSize(unknown);
    }
  }

  lemma ParseStep(schema: Schema, m: Message, s: Bytes)
    requires s != []
    ensures ParseInto(schema, m, s) == match ReadDelta(schema, s)
      case Fail => Failed
      case Read(d, n) => ParseInto(schema, Apply(m, d), s[n..])
  {
    hide ReadDelta;
    if ReadDelta(schema, s).Read? && Deltas(schema, s).Parsed? {
      var d, ds := ReadDelta(schema, s).value, Deltas(schema, s).value;
      assert ds[1..] == Deltas(schema, s[ReadDelta(schema, s).length..]).value;
    }
  }

  lemma FieldsNext(us: seq<UnknownField>, i: nat)
    requires i < |us|
    ensures Fields(us[..i + 1]) == Fields(us[..i]) + (Varint(Tag(us[i].number, WireType(us[i]))) + Body(us[i]))
  {
    assert us[..i + 1] == us[..i] + [us[i]];
    FieldsAppend(us[..i], [us[i]]);
    assert [us[i]][1..] == [];
    hide Body, WireType;
  }
}
