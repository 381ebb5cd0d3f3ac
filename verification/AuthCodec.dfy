/** The six messages of the login protocol. Their generated code is one template filled in with a
    field table; the model is that template. */
module AuthCodec {
  import opened Sequences
  import opened Wire
  import opened UnknownFields

  datatype Kind = Int64 | Text | Enum(count: nat)
  datatype FieldDef = FieldDef(kind: Kind, required: bool)
  /** The fields with numbers 1, 2, 3, ... */
  type Schema = seq<FieldDef>

  const ACCOUNT_CREATION: Schema := [FieldDef(Int64, true), FieldDef(Text, true), FieldDef(Text, true)]
  const ACCOUNT_CREATION_SUCCESS: Schema := [FieldDef(Int64, true), FieldDef(Int64, false)]
  const ACCOUNT_CREATION_FAILURE: Schema := [FieldDef(Int64, true), FieldDef(Enum(3), false)]
  const AUTHENTICATE_ACCOUNT: Schema := [FieldDef(Int64, true), FieldDef(Text, true), FieldDef(Text, true)]
  const AUTHENTICATION_SUCCESS: Schema := [FieldDef(Int64, true), FieldDef(Int64, false), FieldDef(Text, false)]
  const AUTHENTICATION_FAILURE: Schema := [FieldDef(Int64, true), FieldDef(Enum(2), true)]

  /** Field numbers below 16 make one-byte tags; enum values are small and not negative. */
  ghost predicate ValidSchema(schema: Schema) {
    |schema| < 16 && forall i :: 0 <= i < |schema| && schema[i].kind.Enum? ==> schema[i].kind.count <= 0x8000_0000
  }

  lemma {:induction false} ProtocolSchemas()
    ensures ValidSchema(ACCOUNT_CREATION) && ValidSchema(ACCOUNT_CREATION_SUCCESS)
    ensures ValidSchema(ACCOUNT_CREATION_FAILURE)
    ensures ValidSchema(AUTHENTICATE_ACCOUNT) && ValidSchema(AUTHENTICATION_SUCCESS)
    ensures ValidSchema(AUTHENTICATION_FAILURE)
  {
  }

  /** A 64-bit pattern or an enum value, or the bytes of a string. */
  datatype Value = Num(n: nat) | Data(data: Bytes)

  /** `values` holds the fields whose has-bit is set. */
  datatype Message = Message(values: map<nat, Value>, unknown: seq<UnknownField>)
  const EMPTY := Message(map[], [])

  /** What reading one field does to a message. */
  datatype Delta = Set(number: nat, value: Value) | Keep(field: UnknownField)

  datatype Parsed<+T> = Failed | Parsed(value: T)

  function KindWireType(kind: Kind): nat {
    if kind.Text? then LENGTH_DELIMITED else VARINT
  }

  predicate KnownTag(schema: Schema, tag: nat) {
    0 < tag / 8 <= |schema| && tag % 8 == KindWireType(schema[tag / 8 - 1].kind)
  }

  /** An enum value is checked after truncation to 32 bits; one that is not valid is kept, whole,
      among the unknown fields. */
  function ReadKnown(kind: Kind, number: nat, s: Bytes): (r: Read<Delta>)
    ensures r.Read? ==> r.length <= |s|
  {
    match kind
    case Int64 => (match ReadVarint64(s) case Fail => Fail case Read(v, n) => Read(Set(number, Num(v)), n))
    case Text => (match ReadData(s) case Fail => Fail case Read(data, n) => Read(Set(number, Data(data)), n))
    case Enum(count) =>
      match ReadVarint64(s)
      case Fail => Fail
      case Read(v, n) =>
        if v % TWO_32 < count then Read(Set(number, Num(v % TWO_32)), n)
        else Read(Keep(VarintField(number, v)), n)
  }

  /** One round of the loop of _InternalParse. A zero tag or a stray end-group tag ends the message
      early, which a parse of whole bytes reports as failure. */
  function ReadDelta(schema: Schema, s: Bytes): (r: Read<Delta>)
    ensures r.Read? ==> 0 < r.length <= |s|
  {
    match ReadTag(s)
    case Fail => Fail
    case Read(tag, k) =>
      if KnownTag(schema, tag) then
        match ReadKnown(schema[tag / 8 - 1].kind, tag / 8, s[k..]) case Fail => Fail case Read(d, n) => Read(d, k + n)
      else if tag == 0 || tag % 8 == END_GROUP then Fail
      else
        match ReadField(tag, s[k..], RECURSION_LIMIT) case Fail => Fail case Read(u, n) => Read(Keep(u), k + n)
  }

  function Deltas(schema: Schema, s: Bytes): Parsed<seq<Delta>>
    decreases |s|
  {
    if s == [] then Parsed([])
    else
      match ReadDelta(schema, s)
      case Fail => Failed
      case Read(d, n) =>
        match Deltas(schema, s[n..])
        case Failed => Failed
        case Parsed(ds) => Parsed([d] + ds)
  }

  function Apply(m: Message, d: Delta): Message {
    match d
    case Set(number, v) => Message(m.values[number := v], m.unknown)
    case Keep(u) => Message(m.values, m.unknown + [u])
  }

  function ApplyAll(m: Message, ds: seq<Delta>): Message
    decreases |ds|
  {
    if ds == [] then m else ApplyAll(Apply(m, ds[0]), ds[1..])
  }

  /** Parsing into a message that may already hold something. */
  function ParseInto(schema: Schema, m: Message, s: Bytes): Parsed<Message> {
    match Deltas(schema, s)
    case Failed => Failed
    case Parsed(ds) => Parsed(ApplyAll(m, ds))
  }

  function Merge(m: Message, from: Message): Message {
    Message(m.values + from.values, m.unknown + from.unknown)
  }

  // ----- concatenation is merge -----

  lemma {:induction false} DeltaStable(schema: Schema, s: Bytes, more: Bytes)
    requires ReadDelta(schema, s).Read?
    ensures ReadDelta(schema, s + more) == ReadDelta(schema, s)
  {
    ReadsStable(s, more);
    hide ReadTag, ReadField, ReadKnown;
    var Read(tag, k) := ReadTag(s);
    if KnownTag(schema, tag) {
      KnownStable(schema[tag / 8 - 1].kind, tag / 8, s[k..], more);
    } else {
      hide KnownTag;
      FieldStable(tag, s[k..], more, RECURSION_LIMIT);
    }
    SliceAppend(s, more, k);
  }

  lemma KnownStable(kind: Kind, number: nat, s: Bytes, more: Bytes)
    requires ReadKnown(kind, number, s).Read?
    ensures ReadKnown(kind, number, s + more) == ReadKnown(kind, number, s)
  {
    ReadsStable(s, more);
    if ReadData(s).Read? { DataStable(s, more); }
    hide ReadVarint64, ReadData;
  }

  lemma DeltasStep(schema: Schema, s: Bytes, d: Delta, n: nat, ds: seq<Delta>)
    requires ReadDelta(schema, s) == Read(d, n) && Deltas(schema, s[n..]) == Parsed(ds)
    ensures Deltas(schema, s) == Parsed([d] + ds)
  {
    hide ReadDelta;
  }

  lemma DeltasSplit(schema: Schema, s: Bytes) returns (d: Delta, n: nat, ds: seq<Delta>)
    requires s != [] && Deltas(schema, s).Parsed?
    ensures ReadDelta(schema, s) == Read(d, n) && 0 < n <= |s| && Deltas(schema, s[n..]) == Parsed(ds)
    ensures Deltas(schema, s) == Parsed([d] + ds)
  {
    hide ReadDelta;
    d, n := ReadDelta(schema, s).value, ReadDelta(schema, s).length;
    ds := Deltas(schema, s[n..]).value;
  }

  lemma ReadOneMore(schema: Schema, a: Bytes, b: Bytes, d: Delta, n: nat, ds: seq<Delta>, db: seq<Delta>)
    requires n <= |a| && ReadDelta(schema, a + b) == Read(d, n) && Deltas(schema, a[n..] + b) == Parsed(ds + db)
    ensures Deltas(schema, a + b) == Parsed([d] + ds + db)
  {
    hide *;
    SliceAppend(a, b, n);
    DeltasStep(schema, a + b, d, n, ds + db);
    AppendAssociates([d], ds, db);
  }

  lemma {:induction false} DeltasAppend(schema: Schema, a: Bytes, b: Bytes)
    requires Deltas(schema, a).Parsed? && Deltas(schema, b).Parsed?
    ensures Deltas(schema, a + b) == Parsed(Deltas(schema, a).value + Deltas(schema, b).value)
    decreases |a|
  {
    if a == [] {
      assert a + b == b;
      assert Deltas(schema, a).value + Deltas(schema, b).value == Deltas(schema, b).value;
    } else {
      var d, n, ds := DeltasSplit(schema, a);
      hide *;
      DeltasAppend(schema, a[n..], b);
      DeltaStable(schema, a, b);
      ReadOneMore(schema, a, b, d, n, ds, Deltas(schema, b).value);
    }
  }

  lemma {:induction false} ApplyAllAppend(m: Message, a: seq<Delta>, b: seq<Delta>)
    ensures ApplyAll(m, a + b) == ApplyAll(ApplyAll(m, a), b)
    decreases |a|
  {
    if a == [] {
      assert a + b == b;
    } else {
      assert (a + b)[1..] == a[1..] + b;
      ApplyAllAppend(Apply(m, a[0]), a[1..], b);
    }
  }

  lemma MergeAssociates(a: Message, b: Message, c: Message)
    ensures Merge(Merge(a, b), c) == Merge(a, Merge(b, c))
  {
    assert a.unknown + b.unknown + c.unknown == a.unknown + (b.unknown + c.unknown);
    assert a.values + b.values + c.values == a.values + (b.values + c.values);
  }

  lemma ApplyIsMerge(m: Message, d: Delta)
    ensures Apply(m, d) == Merge(m, Apply(EMPTY, d))
  {
    match d
    case Set(number, v) =>
      assert m.values[number := v] == m.values + map[number := v];
      assert EMPTY.values[number := v] == map[number := v];
      assert m.unknown + [] == m.unknown;
    case Keep(u) =>
      assert m.values + map[] == m.values;
      assert [] + [u] == [u];
  }

  lemma {:induction false} ApplyAllIsMerge(m: Message, ds: seq<Delta>)
    ensures ApplyAll(m, ds) == Merge(m, ApplyAll(EMPTY, ds))
    decreases |ds|
  {
    if ds == [] {
      assert m.values + map[] == m.values && m.unknown + [] == m.unknown;
    } else {
      ApplyAllIsMerge(Apply(m, ds[0]), ds[1..]);
      ApplyAllIsMerge(Apply(EMPTY, ds[0]), ds[1..]);
      ApplyIsMerge(m, ds[0]);
      MergeAssociates(m, Apply(EMPTY, ds[0]), ApplyAll(EMPTY, ds[1..]));
    }
  }

  /** Parsing two byte strings one after the other is parsing them separately and merging. */
  lemma {:induction false} ConcatenationIsMerge(schema: Schema, a: Bytes, b: Bytes)
    requires ParseInto(schema, EMPTY, a).Parsed? && ParseInto(schema, EMPTY, b).Parsed?
    ensures ParseInto(schema, EMPTY, a + b)
      == Parsed(Merge(ParseInto(schema, EMPTY, a).value, ParseInto(schema, EMPTY, b).value))
  {
    hide Merge, Deltas, ApplyAll;
    DeltasAppend(schema, a, b);
    var da, db := Deltas(schema, a).value, Deltas(schema, b).value;
    ApplyAllAppend(EMPTY, da, db);
    ApplyAllIsMerge(ApplyAll(EMPTY, da), db);
  }

  // ----- serialization -----

  function Payload(kind: Kind, v: Value): Bytes {
    match v
    case Num(n) => Varint(n)
    case Data(data) => Varint(|data|) + data
  }

  function FieldBytes(schema: Schema, number: nat, v: Value): Bytes
    requires 0 < number <= |schema|
  {
    Varint(Tag(number, KindWireType(schema[number - 1].kind))) + Payload(schema[number - 1].kind, v)
  }

  /** The first n fields, those that are set, in order of number. */
  function KnownBytes(schema: Schema, m: Message, n: nat): Bytes
    requires n <= |schema|
  {
    if n == 0 then []
    else KnownBytes(schema, m, n - 1) + if n in m.values then FieldBytes(schema, n, m.values[n]) else []
  }

  function Serialize(schema: Schema, m: Message): Bytes {
    KnownBytes(schema, m, |schema|) + Fields(m.unknown)
  }

  ghost predicate Fits(kind: Kind, v: Value) {
    match kind
    case Int64 => v.Num? && v.n < TWO_64
    case Text => v.Data? && |v.data| <= MAX_SIZE
    case Enum(count) => v.Num? && v.n < count
  }

  /** An unknown field that reading it again keeps unknown. */
  ghost predicate Foreign(schema: Schema, u: UnknownField) {
    && WellFormed(u, RECURSION_LIMIT)
    && (KnownTag(schema, Tag(u.number, WireType(u))) ==>
          u.VarintField? && schema[u.number - 1].kind.Enum? && u.value % TWO_32 >= schema[u.number - 1].kind.count)
  }

  ghost predicate Sane(schema: Schema, m: Message) {
    && (forall n :: n in m.values ==> 0 < n <= |schema| && Fits(schema[n - 1].kind, m.values[n]))
    && (forall i :: 0 <= i < |m.unknown| ==> Foreign(schema, m.unknown[i]))
  }

  ghost predicate SaneDelta(schema: Schema, d: Delta) {
    match d
    case Set(n, v) => 0 < n <= |schema| && Fits(schema[n - 1].kind, v)
    case Keep(u) => Foreign(schema, u)
  }

  /** Everything a parse reads can be written and read again. */
  lemma {:induction false} DeltaIsSane(schema: Schema, s: Bytes)
    requires ValidSchema(schema) && ReadDelta(schema, s).Read?
    ensures SaneDelta(schema, ReadDelta(schema, s).value)
  {
    var Read(tag, k) := ReadTag(s);
    TagParts(tag / 8, tag % 8);
    if KnownTag(schema, tag) {
      hide ReadData;
    } else {
      ReadIsWellFormed(tag, s[k..], RECURSION_LIMIT);
      hide KnownTag, ReadField, ReadKnown;
    }
  }

  lemma {:induction false} ParsedIsSane(schema: Schema, m: Message, s: Bytes)
    requires ValidSchema(schema) && Sane(schema, m) && ParseInto(schema, m, s).Parsed?
    ensures Sane(schema, ParseInto(schema, m, s).value)
    decreases |s|
  {
    if s != [] {
      DeltaIsSane(schema, s);
      var Read(d, n) := ReadDelta(schema, s);
      hide ReadDelta, Fits, Foreign;
      ParsedIsSane(schema, Apply(m, d), s[n..]);
    }
  }

  function DeltaBytes(schema: Schema, d: Delta): Bytes
    requires d.Set? ==> 0 < d.number <= |schema|
  {
    match d
    case Set(n, v) => FieldBytes(schema, n, v)
    case Keep(u) => Varint(Tag(u.number, WireType(u))) + Body(u)
  }

  lemma PayloadReadBack(kind: Kind, number: nat, v: Value, rest: Bytes)
    requires Fits(kind, v) && (kind.Enum? ==> kind.count <= 0x8000_0000)
    ensures ReadKnown(kind, number, Payload(kind, v) + rest) == Read(Set(number, v), |Payload(kind, v)|)
  {
    hide ReadVarint64, ReadData, Varint;
    match kind {
      case Int64 => ReadBack(v.n, rest);
      case Text => DataReadBack(v.data, rest);
      case Enum(_) =>
        ReadBack(v.n, rest);
        assert v.n % TWO_32 == v.n;
    }
  }

  lemma {:induction false} SetReadBack(schema: Schema, n: nat, v: Value, rest: Bytes)
    requires ValidSchema(schema) && 0 < n <= |schema| && Fits(schema[n - 1].kind, v)
    ensures ReadDelta(schema, FieldBytes(schema, n, v) + rest) == Read(Set(n, v), |FieldBytes(schema, n, v)|)
  {
    var kind := schema[n - 1].kind;
    var tag, body := Tag(n, KindWireType(kind)), Payload(kind, v);
    TagParts(n, KindWireType(kind));
    assert KnownTag(schema, tag) && tag < TWO_32;
    PayloadReadBack(kind, n, v, rest);
    ReadBack(tag, body + rest);
    Pieces(Varint(tag), body, rest);
    hide KnownTag, Payload, Varint, ReadKnown, ReadTag, ReadField;
  }

  /** The tag has been read; the field behind it is kept whole. */
  lemma KeptAfterTag(schema: Schema, s: Bytes, tag: nat, k: nat, u: UnknownField, n: nat)
    requires k <= |s| && ReadTag(s) == Read(tag, k) && tag != 0 && tag % 8 != END_GROUP
    requires if KnownTag(schema, tag) then ReadKnown(schema[tag / 8 - 1].kind, tag / 8, s[k..]) == Read(Keep(u), n)
      else ReadField(tag, s[k..], RECURSION_LIMIT) == Read(u, n)
    ensures ReadDelta(schema, s) == Read(Keep(u), k + n)
  {
    hide KnownTag, ReadTag, ReadKnown, ReadField;
  }

  lemma KeptKnown(schema: Schema, u: UnknownField, rest: Bytes)
    requires Foreign(schema, u) && KnownTag(schema, Tag(u.number, WireType(u)))
    ensures ReadKnown(schema[u.number - 1].kind, u.number, Body(u) + rest) == Read(Keep(u), |Body(u)|)
  {
    TagParts(u.number, WireType(u));
    ReadBack(u.value, rest);
    hide KnownTag, Varint, ReadVarint64;
  }

  lemma {:induction false} KeepReadBack(schema: Schema, u: UnknownField, rest: Bytes)
    requires ValidSchema(schema) && Foreign(schema, u)
    ensures ReadDelta(schema, DeltaBytes(schema, Keep(u)) + rest) == Read(Keep(u), |DeltaBytes(schema, Keep(u))|)
  {
    var tag, body := Tag(u.number, WireType(u)), Body(u);
    TagParts(u.number, WireType(u));
    assert 0 < tag < TWO_32 && tag % 8 != END_GROUP && tag / 8 == u.number;
    if KnownTag(schema, tag) { KeptKnown(schema, u, rest); } else { FieldReadBack(u, rest, RECURSION_LIMIT); }
    ReadBack(tag, body + rest);
    Pieces(Varint(tag), body, rest);
    hide KnownTag, Varint, ReadKnown, ReadTag, ReadField, ReadDelta, Body, Foreign;
    KeptAfterTag(schema, Varint(tag) + body + rest, tag, |Varint(tag)|, u, |body|);
  }

  // ----- a message as the fields it is written in -----

  function Sets(m: Message, n: nat): seq<Delta> {
    if n == 0 then [] else Sets(m, n - 1) + if n in m.values then [Set(n, m.values[n])] else []
  }

  function Keeps(us: seq<UnknownField>): seq<Delta> {
    seq(|us|, i requires 0 <= i < |us| => Keep(us[i]))
  }

  ghost predicate AllSane(schema: Schema, ds: seq<Delta>) {
    forall i :: 0 <= i < |ds| ==> SaneDelta(schema, ds[i])
  }

  ghost function AllBytes(schema: Schema, ds: seq<Delta>): Bytes
    requires AllSane(schema, ds)
    decreases |ds|
  {
    if ds == [] then [] else DeltaBytes(schema, ds[0]) + AllBytes(schema, ds[1..])
  }

  lemma DeltaReadBack(schema: Schema, d: Delta, rest: Bytes)
    requires ValidSchema(schema) && SaneDelta(schema, d)
    ensures ReadDelta(schema, DeltaBytes(schema, d) + rest) == Read(d, |DeltaBytes(schema, d)|)
  {
    match d {
      case Set(n, v) =>
        hide ReadDelta, FieldBytes, Foreign, Fits, ValidSchema;
        SetReadBack(schema, n, v, rest);
      case Keep(u) =>
        hide ReadDelta, DeltaBytes, Foreign, ValidSchema;
        KeepReadBack(schema, u, rest);
    }
  }

  lemma AllBytesStep(schema: Schema, ds: seq<Delta>)
    requires ds != [] && AllSane(schema, ds)
    ensures SaneDelta(schema, ds[0]) && AllSane(schema, ds[1..]) && ds == [ds[0]] + ds[1..]
    ensures AllBytes(schema, ds) == DeltaBytes(schema, ds[0]) + AllBytes(schema, ds[1..])
  {
    hide DeltaBytes, SaneDelta;
  }

  lemma {:induction false} DeltasReadBack(schema: Schema, ds: seq<Delta>)
    requires ValidSchema(schema) && AllSane(schema, ds)
    ensures Deltas(schema, AllBytes(schema, ds)) == Parsed(ds)
    decreases |ds|
  {
    if ds != [] {
      hide *;
      AllBytesStep(schema, ds);
      var head, tail := DeltaBytes(schema, ds[0]), AllBytes(schema, ds[1..]);
      DeltaReadBack(schema, ds[0], tail);
      DeltasReadBack(schema, ds[1..]);
      assert (head + tail)[|head|..] == tail;
      DeltasStep(schema, head + tail, ds[0], |head|, ds[1..]);
    }
  }

  lemma AllSaneAppend(schema: Schema, a: seq<Delta>, b: seq<Delta>)
    requires AllSane(schema, a) && AllSane(schema, b)
    ensures AllSane(schema, a + b)
  {
    hide SaneDelta;
  }

  lemma {:induction false} AllBytesAppend(schema: Schema, a: seq<Delta>, b: seq<Delta>)
    requires AllSane(schema, a) && AllSane(schema, b)
    ensures AllSane(schema, a + b) && AllBytes(schema, a + b) == AllBytes(schema, a) + AllBytes(schema, b)
    decreases |a|
  {
    AllSaneAppend(schema, a, b);
    if a == [] {
      assert a + b == b;
    } else {
      assert (a + b)[0] == a[0] && (a + b)[1..] == a[1..] + b;
      hide *;
      AllBytesStep(schema, a);
      AllBytesStep(schema, a + b);
      AllBytesAppend(schema, a[1..], b);
      AppendAssociates(DeltaBytes(schema, a[0]), AllBytes(schema, a[1..]), AllBytes(schema, b));
    }
  }

  lemma SetsStep(schema: Schema, m: Message, n: nat)
    requires 0 < n <= |schema| && n in m.values && SaneDelta(schema, Set(n, m.values[n]))
    ensures Sets(m, n) == Sets(m, n - 1) + [Set(n, m.values[n])]
    ensures KnownBytes(schema, m, n) == KnownBytes(schema, m, n - 1) + FieldBytes(schema, n, m.values[n])
    ensures var last := [Set(n, m.values[n])];
      AllSane(schema, last) && AllBytes(schema, last) == FieldBytes(schema, n, m.values[n])
  {
    hide FieldBytes, SaneDelta;
    var last := [Set(n, m.values[n])];
    assert AllSane(schema, last) && last[1..] == [] && AllBytes(schema, last[1..]) == [];
  }

  lemma {:induction false} KnownIsSets(schema: Schema, m: Message, n: nat)
    requires Sane(schema, m) && n <= |schema|
    ensures AllSane(schema, Sets(m, n)) && KnownBytes(schema, m, n) == AllBytes(schema, Sets(m, n))
  {
    if n > 0 {
      KnownIsSets(schema, m, n - 1);
      if n in m.values {
        assert SaneDelta(schema, Set(n, m.values[n]));
        hide *;
        SetsStep(schema, m, n);
        AllBytesAppend(schema, Sets(m, n - 1), [Set(n, m.values[n])]);
      } else {
        assert Sets(m, n) == Sets(m, n - 1);
        hide Sane, SaneDelta, AllBytes, FieldBytes;
      }
    }
  }

  lemma KeepsStep(schema: Schema, us: seq<UnknownField>)
    requires us != [] && Foreign(schema, us[0]) && AllSane(schema, Keeps(us[1..]))
    ensures Keeps(us) != [] && Keeps(us)[0] == Keep(us[0]) && Keeps(us)[1..] == Keeps(us[1..])
    ensures AllSane(schema, Keeps(us))
    ensures DeltaBytes(schema, Keep(us[0])) == Varint(Tag(us[0].number, WireType(us[0]))) + Body(us[0])
  {
    hide Foreign, Body, WireType, Tag, Varint;
    var rest := Keeps(us[1..]);
    assert Keeps(us) == [Keep(us[0])] + rest;
    assert SaneDelta(schema, Keep(us[0]));
    hide Keeps, SaneDelta;
  }

  lemma {:induction false} FieldsAreKeeps(schema: Schema, us: seq<UnknownField>)
    requires forall i :: 0 <= i < |us| ==> Foreign(schema, us[i])
    ensures AllSane(schema, Keeps(us)) && Fields(us) == AllBytes(schema, Keeps(us))
    decreases |us|
  {
    if us != [] {
      hide *;
      FieldsAreKeeps(schema, us[1..]);
      KeepsStep(schema, us);
      AllBytesStep(schema, Keeps(us));
      FieldsStep(us);
    }
  }

  /** The fields with numbers up to n. */
  ghost function Upto(m: map<nat, Value>, n: nat): map<nat, Value> {
    map k | k in m && k <= n :: m[k]
  }

  lemma {:induction false} ApplySets(m: Message, n: nat)
    requires forall k :: k in m.values ==> 0 < k
    ensures ApplyAll(EMPTY, Sets(m, n)) == Message(Upto(m.values, n), [])
  {
    if n == 0 {
      assert Upto(m.values, 0) == map[];
    } else {
      ApplySets(m, n - 1);
      if n in m.values {
        var last := [Set(n, m.values[n])];
        ApplyAllAppend(EMPTY, Sets(m, n - 1), last);
        assert last[1..] == [];
        assert Upto(m.values, n) == Upto(m.values, n - 1)[n := m.values[n]];
      } else {
        assert Upto(m.values, n) == Upto(m.values, n - 1) && Sets(m, n) == Sets(m, n - 1);
      }
    }
  }

  lemma {:induction false} ApplyKeeps(m: Message, us: seq<UnknownField>)
    ensures ApplyAll(m, Keeps(us)) == Message(m.values, m.unknown + us)
    decreases |us|
  {
    if us == [] {
      assert m.unknown + us == m.unknown;
    } else {
      assert Keeps(us)[1..] == Keeps(us[1..]);
      ApplyKeeps(Apply(m, Keep(us[0])), us[1..]);
      assert m.unknown + [us[0]] + us[1..] == m.unknown + us;
    }
  }

  /** A message whose fields are in range, and whose unknown fields are such as a parse leaves, is
      restored by parsing what it is serialized to. */
  lemma {:induction false} RoundTrip(schema: Schema, m: Message)
    requires ValidSchema(schema) && Sane(schema, m)
    ensures ParseInto(schema, EMPTY, Serialize(schema, m)) == Parsed(m)
  {
    var sets, keeps := Sets(m, |schema|), Keeps(m.unknown);
    KnownIsSets(schema, m, |schema|);
    FieldsAreKeeps(schema, m.unknown);
    AllBytesAppend(schema, sets, keeps);
    DeltasReadBack(schema, sets + keeps);
    ApplyAllAppend(EMPTY, sets, keeps);
    ApplySets(m, |schema|);
    ApplyKeeps(Message(Upto(m.values, |schema|), []), m.unknown);
    assert Upto(m.values, |schema|) == m.values;
    assert [] + m.unknown == m.unknown;
    hide Sets, Keeps, AllSane, AllBytes, Deltas, ApplyAll, KnownBytes, Fields, Upto;
  }

  /** ... and no other message is. */
  lemma {:induction false} RoundTripExactly(schema: Schema, m: Message)
    requires ValidSchema(schema)
    ensures ParseInto(schema, EMPTY, Serialize(schema, m)) == Parsed(m) <==> Sane(schema, m)
  {
    assert Sane(schema, EMPTY);
    hide *;
    if ParseInto(schema, EMPTY, Serialize(schema, m)) == Parsed(m) {
      ParsedIsSane(schema, EMPTY, Serialize(schema, m));
    }
    if Sane(schema, m) { RoundTrip(schema, m); }
  }

  /** Whatever bytes a message was parsed from, writing it and parsing that gives it back: fields,
      has-bits and unknown fields in order, invalid enum values among them. */
  lemma {:induction false} ReparseIsStable(schema: Schema, s: Bytes)
    requires ValidSchema(schema) && ParseInto(schema, EMPTY, s).Parsed?
    ensures ParseInto(schema, EMPTY, Serialize(schema, ParseInto(schema, EMPTY, s).value))
      == ParseInto(schema, EMPTY, s)
  {
    assert Sane(schema, EMPTY);
    hide *;
    ParsedIsSane(schema, EMPTY, s);
    RoundTrip(schema, ParseInto(schema, EMPTY, s).value);
  }
}
