/** What the bytes of a login message mean, byte by byte and without the readers: lengths of numbers,
    tag bytes, which inputs are refused, and what each known field does to the message. */
module WireMeaning {
  import opened Sequences
  import opened Wire
  import opened UnknownFields
  import opened AuthCodec

  // ----- numbers -----

  /** s starts with a number of n bytes: all but the last have their high bit set. */
  ghost predicate NumberOf(s: Bytes, n: nat) {
    0 < n <= |s| && s[n - 1] < 128 && forall i :: 0 <= i < n - 1 ==> s[i] >= 128
  }

  /** The low seven bits of each byte, the first ones least significant. */
  ghost function SevenBits(s: Bytes, n: nat): nat
    requires n <= |s|
  {
    if n == 0 then 0 else SevenBits(s, n - 1) + (s[n - 1] % 128) * Power128(n - 1)
  }

  lemma {:induction false} LowIsSevenBits(s: Bytes, i: nat)
    requires i <= |s| && forall j :: 0 <= j < i ==> s[j] >= 128
    ensures Low(s, i) == SevenBits(s, i)
  {
    if i > 0 {
      LowIsSevenBits(s, i - 1);
      assert s[i - 1] % 128 == s[i - 1] - 128;
    }
  }

  lemma LastByte(s: Bytes, limit: nat)
    requires s != [] && s[0] < 128 && limit > 0
    ensures Base128(s, limit) == Read(s[0], 1)
  {
  }

  lemma NoneLeft(s: Bytes)
    ensures Base128(s, 0) == Fail
  {
  }

  lemma {:induction false} NumberRead(s: Bytes, n: nat, limit: nat)
    requires NumberOf(s, n)
    ensures Base128(s, limit) == if n <= limit then Read(SevenBits(s, n), n) else Fail
  {
    hide Base128, Low, Power128;
    if n <= limit {
      Base128Split(s, n - 1, limit);
      LowIsSevenBits(s, n - 1);
      LastByte(s[n - 1..], limit - n + 1);
    } else {
      Base128Split(s, limit, limit);
      NoneLeft(s[limit..]);
    }
  }

  lemma {:induction false} NoNumber(s: Bytes, limit: nat)
    requires forall n :: !NumberOf(s, n)
    ensures Base128(s, limit) == Fail
  {
    AllHigh(s, |s|);
    Base128Split(s, if limit < |s| then limit else |s|, limit);
  }

  lemma {:induction false} AllHigh(s: Bytes, n: nat)
    requires n <= |s| && forall m :: !NumberOf(s, m)
    ensures forall i :: 0 <= i < n ==> s[i] >= 128
  {
    if n > 0 {
      AllHigh(s, n - 1);
      assert !NumberOf(s, n);
    }
  }

  /** A 64-bit number has at most ten bytes, a tag and a size at most five; what does not fit 64 or
      32 bits is cut off in numbers and tags and refused in sizes. */
  lemma {:induction false} NumbersMean(s: Bytes, n: nat)
    requires NumberOf(s, n)
    ensures ReadVarint64(s) == if n <= 10 then Read(SevenBits(s, n) % 0x1_0000_0000_0000_0000, n) else Fail
    ensures ReadTag(s) == if n <= 5 then Read(SevenBits(s, n) % 0x1_0000_0000, n) else Fail
    ensures ReadSize(s) == if n <= 5 && SevenBits(s, n) < 0x7FFF_FFF0 then Read(SevenBits(s, n), n) else Fail
  {
    NumberRead(s, n, 10);
    NumberRead(s, n, 5);
    hide Base128, SevenBits, NumberOf;
  }

  /** Bytes that end inside a number, or are none, are refused by all three. */
  lemma {:induction false} CutOffRefused(s: Bytes)
    requires forall n :: !NumberOf(s, n)
    ensures ReadVarint64(s) == Fail && ReadTag(s) == Fail && ReadSize(s) == Fail
  {
    NoNumber(s, 10);
    NoNumber(s, 5);
    hide Base128, NumberOf;
  }

  // ----- tag bytes -----

  lemma OneByte(v: nat, rest: Bytes)
    requires v < 128
    ensures Varint(v) == [v] && ReadTag([v] + rest) == Read(v, 1) && ([v] + rest)[1..] == rest
  {
  }

  lemma FixedBytes(v: nat)
    ensures Fixed(v, 4) == [v % 256, v / 256 % 256, v / 256 / 256 % 256, v / 256 / 256 / 256 % 256]
    ensures Fixed(v, 8) == Fixed(v, 4) + Fixed(v / 256 / 256 / 256 / 256, 4)
  {
    FourBytes(v, 0);
    FourBytes(v, 4);
    hide Fixed;
  }

  lemma FourBytes(v: nat, more: nat)
    ensures Fixed(v, more + 4) ==
      [v % 256, v / 256 % 256, v / 256 / 256 % 256, v / 256 / 256 / 256 % 256]
      + Fixed(v / 256 / 256 / 256 / 256, more)
  {
    var a := v / 256;
    var b := a / 256;
    var c := b / 256;
    assert Fixed(v, more + 4) == [v % 256] + Fixed(a, more + 3);
    assert Fixed(a, more + 3) == [a % 256] + Fixed(b, more + 2);
    assert Fixed(b, more + 2) == [b % 256] + Fixed(c, more + 1);
    assert Fixed(c, more + 1) == [c % 256] + Fixed(c / 256, more);
  }

  /** What an unknown field is written as: the low three bits of the first number are 0 for a
      varint, 1 for eight bytes, 2 for a counted string, 3 and 4 around a group, 5 for four bytes;
      the field number is above them. */
  lemma {:induction false} UnknownBytes(u: UnknownField)
    ensures Fields([u]) ==
      match u
      case VarintField(number, v) => Varint(8 * number) + Varint(v)
      case Fixed64Field(number, v) => Varint(8 * number + 1) + Fixed(v, 8)
      case LengthField(number, data) => Varint(8 * number + 2) + (Varint(|data|) + data)
      case GroupField(number, fields) => Varint(8 * number + 3) + (Fields(fields) + Varint(8 * number + 4))
      case Fixed32Field(number, v) => Varint(8 * number + 5) + Fixed(v, 4)
  {
    FieldsStep([u]);
    assert Fields([u][1..]) == [];
  }

  /** A known field is written as one tag byte - number times 8, plus 2 for a string - and its value. */
  lemma {:induction false} KnownFieldBytes(schema: Schema, number: nat, v: Value)
    requires ValidSchema(schema) && 0 < number <= |schema| && v.Data? == schema[number - 1].kind.Text?
    ensures FieldBytes(schema, number, v) ==
      match v
      case Num(n) => [8 * number] + Varint(n)
      case Data(data) => [8 * number + 2] + (Varint(|data|) + data)
  {
    OneByte(if v.Data? then 8 * number + 2 else 8 * number, []);
    hide Varint;
  }

  // ----- what known fields do -----

  lemma AfterTag(schema: Schema, tag: nat, body: Bytes)
    requires tag < 128 && KnownTag(schema, tag)
    ensures var r := ReadKnown(schema[tag / 8 - 1].kind, tag / 8, body);
      ReadDelta(schema, [tag] + body) == if r.Read? then Read(r.value, r.length + 1) else Fail
  {
    hide ReadKnown, ReadTag, Varint;
    OneByte(tag, body);
  }

  lemma AfterOtherTag(schema: Schema, tag: nat, body: Bytes)
    requires 0 < tag < 128 && !KnownTag(schema, tag) && tag % 8 != END_GROUP
    ensures var r := ReadField(tag, body, RECURSION_LIMIT);
      ReadDelta(schema, [tag] + body) == if r.Read? then Read(Keep(r.value), r.length + 1) else Fail
  {
    hide ReadField, ReadTag, Varint, KnownTag;
    OneByte(tag, body);
  }

  lemma NumberForKnown(kind: Kind, number: nat, v: nat, rest: Bytes)
    requires v < TWO_64 && !kind.Text?
    ensures ReadKnown(kind, number, Varint(v) + rest) ==
      Read(match kind
           case Int64 => Set(number, Num(v))
           case Enum(count) =>
             if v % 0x1_0000_0000 < count then Set(number, Num(v % 0x1_0000_0000)) else Keep(VarintField(number, v)),
           |Varint(v)|)
  {
    hide Varint, ReadVarint64;
    ReadBack(v, rest);
  }

  lemma NumberUnknown(number: nat, v: nat, rest: Bytes)
    requires v < TWO_64 && number > 0
    ensures ReadField(8 * number, Varint(v) + rest, RECURSION_LIMIT) == Read(VarintField(number, v), |Varint(v)|)
  {
    hide Varint, ReadVarint64;
    ReadBack(v, rest);
  }

  lemma TextUnknown(number: nat, data: Bytes, rest: Bytes)
    requires |data| <= MAX_SIZE && number > 0
    ensures var body := Varint(|data|) + data;
      ReadField(8 * number + 2, body + rest, RECURSION_LIMIT) == Read(LengthField(number, data), |body|)
  {
    hide Varint, ReadData;
    DataReadBack(data, rest);
  }

  lemma TextForKnown(number: nat, data: Bytes, rest: Bytes)
    requires |data| <= MAX_SIZE
    ensures var body := Varint(|data|) + data;
      ReadKnown(Text, number, body + rest) == Read(Set(number, Data(data)), |body|)
  {
    hide Varint, ReadData;
    DataReadBack(data, rest);
  }

  /** A number for field `number`: an integer field is set to it; an enum field is set to its low 32
      bits when they are a value of the enum, and otherwise the whole number is kept as an unknown
      field; a string field does not match, and the number is kept too. */
  lemma {:induction false} NumberForField(schema: Schema, number: nat, v: nat, rest: Bytes)
    requires ValidSchema(schema) && 0 < number <= |schema| && v < TWO_64
    ensures ReadDelta(schema, [8 * number] + (Varint(v) + rest)) ==
      Read(match schema[number - 1].kind
           case Int64 => Set(number, Num(v))
           case Text => Keep(VarintField(number, v))
           case Enum(count) =>
             if v % 0x1_0000_0000 < count then Set(number, Num(v % 0x1_0000_0000)) else Keep(VarintField(number, v)),
           |Varint(v)| + 1)
  {
    hide Varint, ReadDelta, ReadKnown, ReadField;
    var kind := schema[number - 1].kind;
    if kind.Text? {
      NumberUnknown(number, v, rest);
      AfterOtherTag(schema, 8 * number, Varint(v) + rest);
    } else {
      NumberForKnown(kind, number, v, rest);
      AfterTag(schema, 8 * number, Varint(v) + rest);
    }
  }

  /** A string for field `number`: a string field is set to it, any other field does not match. */
  lemma {:induction false} TextForField(schema: Schema, number: nat, data: Bytes, rest: Bytes)
    requires ValidSchema(schema) && 0 < number <= |schema| && |data| <= MAX_SIZE
    ensures var body := Varint(|data|) + data;
      ReadDelta(schema, [8 * number + 2] + (body + rest)) ==
        Read(if schema[number - 1].kind.Text? then Set(number, Data(data)) else Keep(LengthField(number, data)),
             |body| + 1)
  {
    hide Varint, ReadDelta, ReadKnown, ReadField;
    var body, kind := Varint(|data|) + data, schema[number - 1].kind;
    if kind.Text? {
      TextForKnown(number, data, rest);
      AfterTag(schema, 8 * number + 2, body + rest);
    } else {
      TextUnknown(number, data, rest);
      AfterOtherTag(schema, 8 * number + 2, body + rest);
    }
  }

  /** A field whose number is not in the table, or that is neither a number nor a string, is kept as
      it is. */
  lemma {:induction false} OtherFieldsKept(schema: Schema, u: UnknownField, rest: Bytes)
    requires ValidSchema(schema) && WellFormed(u, RECURSION_LIMIT)
    requires u.number > |schema| || !(u.VarintField? || u.LengthField?)
    ensures ReadDelta(schema, Fields([u]) + rest) == Read(Keep(u), |Fields([u])|)
  {
    TagParts(u.number, WireType(u));
    assert Foreign(schema, u);
    KeepReadBack(schema, u, rest);
    FieldsStep([u]);
    assert Fields([u][1..]) == [];
    assert Fields([u]) == DeltaBytes(schema, Keep(u));
    hide *;
  }

  // ----- what is refused -----

  /** Field number 0, an end of group without its start, and wire types 6 and 7. */
  lemma {:induction false} BadTagsRefused(schema: Schema, s: Bytes)
    requires ReadTag(s).Read? && (ReadTag(s).value / 8 == 0 || ReadTag(s).value % 8 in {4, 6, 7})
    ensures ReadDelta(schema, s) == Fail
  {
    hide ReadTag;
  }

  /** A group that ends with the number of another. */
  lemma {:induction false} WrongEndRefused(number: nat, other: nat, rest: Bytes, depth: nat)
    requires number != other && 8 * other + 4 < TWO_32
    ensures ReadGroup(number, Varint(8 * other + 4) + rest, depth) == Fail
  {
    hide Varint, ReadTag, ReadField, ReadGroup, Tag;
    ReadBack(8 * other + 4, rest);
    TagParts(other, END_GROUP);
    TagIs(other, END_GROUP);
    TagIs(number, END_GROUP);
    EndOfGroup(number, Varint(8 * other + 4) + rest, depth, 8 * other + 4, |Varint(8 * other + 4)|);
  }

  lemma TagIs(number: nat, wireType: nat)
    ensures Tag(number, wireType) == 8 * number + wireType
  {
  }

  lemma EndOfGroup(number: nat, s: Bytes, depth: nat, tag: nat, k: nat)
    requires ReadTag(s) == Read(tag, k) && tag != 0 && tag % 8 == END_GROUP
    ensures ReadGroup(number, s, depth) == if tag == Tag(number, END_GROUP) then Read([], k) else Fail
  {
    hide ReadTag, ReadField, Tag;
  }

  /** A group that the input ends in. */
  lemma {:induction false} OpenGroupRefused(number: nat, depth: nat)
    ensures ReadGroup(number, [], depth) == Fail
  {
    assert Base128([], 5) == Fail;
  }

  /** s starts with n bytes that each open a group of this number. */
  ghost predicate Opens(s: Bytes, n: nat, number: nat) {
    n <= |s| && forall i :: 0 <= i < n ==> s[i] == 8 * number + 3
  }

  lemma {:induction false} TooDeep(number: nat, s: Bytes, depth: nat)
    requires 0 < number < 16 && Opens(s, depth, number)
    ensures ReadField(8 * number + 3, s, depth) == Fail
    decreases depth
  {
    if depth > 0 {
      TooDeep(number, s[1..], depth - 1);
      OneByte(s[0], s[1..]);
      assert [s[0]] + s[1..] == s;
      hide ReadTag, Opens;
    }
  }

  /** A hundred groups inside a group are one too many. */
  lemma {:induction false} DeepGroupsRefused(schema: Schema, number: nat, s: Bytes)
    requires 0 < number < 16 && Opens(s, 101, number)
    ensures ReadDelta(schema, s) == Fail
  {
    OneByte(s[0], s[1..]);
    assert [s[0]] + s[1..] == s;
    TooDeep(number, s[1..], 100);
    hide ReadTag, ReadField, Opens;
  }

  // ----- the six messages -----

  /** The bytes of an integer and of a string field. */
  function IntegerField(number: nat, n: nat): Bytes
    requires 0 < number < 16
  {
    [8 * number] + Varint(n)
  }

  function StringField(number: nat, data: Bytes): Bytes
    requires 0 < number < 16
  {
    [8 * number + 2] + (Varint(|data|) + data)
  }

  /** What the messages look like on the wire with all their fields set: an account creation and an
      authentication request, the two kinds of success, and the failures, whose reason is an enum. */
  lemma {:induction false} MessageBytes(id: nat, email: Bytes, password: Bytes, user: nat, date: Bytes, reason: nat)
    ensures
      var request := Message(map[1 := Num(id), 2 := Data(email), 3 := Data(password)], []);
      var bytes := IntegerField(1, id) + StringField(2, email) + StringField(3, password);
      Serialize(ACCOUNT_CREATION, request) == bytes && Serialize(AUTHENTICATE_ACCOUNT, request) == bytes
    ensures Serialize(ACCOUNT_CREATION_SUCCESS, Message(map[1 := Num(id), 2 := Num(user)], []))
      == IntegerField(1, id) + IntegerField(2, user)
    ensures Serialize(AUTHENTICATION_SUCCESS, Message(map[1 := Num(id), 2 := Num(user), 3 := Data(date)], []))
      == IntegerField(1, id) + IntegerField(2, user) + StringField(3, date)
    ensures
      var failure := Message(map[1 := Num(id), 2 := Num(reason)], []);
      var bytes := IntegerField(1, id) + IntegerField(2, reason);
      Serialize(ACCOUNT_CREATION_FAILURE, failure) == bytes && Serialize(AUTHENTICATION_FAILURE, failure) == bytes
  {
    ProtocolSchemas();
    var request := Message(map[1 := Num(id), 2 := Data(email), 3 := Data(password)], []);
    ThreeFields(ACCOUNT_CREATION, request);
    ThreeFields(AUTHENTICATE_ACCOUNT, request);
    TwoFields(ACCOUNT_CREATION_SUCCESS, Message(map[1 := Num(id), 2 := Num(user)], []));
    ThreeFields(AUTHENTICATION_SUCCESS, Message(map[1 := Num(id), 2 := Num(user), 3 := Data(date)], []));
    TwoFields(ACCOUNT_CREATION_FAILURE, Message(map[1 := Num(id), 2 := Num(reason)], []));
    TwoFields(AUTHENTICATION_FAILURE, Message(map[1 := Num(id), 2 := Num(reason)], []));
    hide Serialize, Varint, ValidSchema;
  }

  ghost function FieldText(number: nat, v: Value): Bytes
    requires 0 < number < 16
  {
    match v
    case Num(n) => IntegerField(number, n)
    case Data(data) => StringField(number, data)
  }

  lemma KnownField(schema: Schema, m: Message, n: nat)
    requires ValidSchema(schema) && 0 < n <= |schema| && n in m.values
    requires m.values[n].Data? <==> schema[n - 1].kind.Text?
    ensures KnownBytes(schema, m, n) == KnownBytes(schema, m, n - 1) + FieldText(n, m.values[n])
  {
    hide FieldBytes, Varint;
    KnownFieldBytes(schema, n, m.values[n]);
  }

  lemma NothingUnknown(schema: Schema, m: Message)
    requires m.unknown == []
    ensures Serialize(schema, m) == KnownBytes(schema, m, |schema|) && KnownBytes(schema, m, 0) == []
  {
    hide FieldBytes;
    assert Fields([]) == [];
  }

  lemma TwoFields(schema: Schema, m: Message)
    requires ValidSchema(schema) && |schema| == 2 && m.unknown == [] && 1 in m.values && 2 in m.values
    requires forall n :: n in {1, 2} ==> (m.values[n].Data? <==> schema[n - 1].kind.Text?)
    ensures Serialize(schema, m) == FieldText(1, m.values[1]) + FieldText(2, m.values[2])
  {
    hide *;
    NothingUnknown(schema, m);
    KnownField(schema, m, 1);
    KnownField(schema, m, 2);
    assert [] + FieldText(1, m.values[1]) == FieldText(1, m.values[1]);
  }

  lemma ThreeFields(schema: Schema, m: Message)
    requires ValidSchema(schema) && |schema| == 3 && m.unknown == [] && 1 in m.values && 2 in m.values && 3 in m.values
    requires forall n :: n in {1, 2, 3} ==> (m.values[n].Data? <==> schema[n - 1].kind.Text?)
    ensures Serialize(schema, m) == FieldText(1, m.values[1]) + FieldText(2, m.values[2]) + FieldText(3, m.values[3])
  {
    hide *;
    NothingUnknown(schema, m);
    KnownField(schema, m, 1);
    KnownField(schema, m, 2);
    KnownField(schema, m, 3);
    assert [] + FieldText(1, m.values[1]) == FieldText(1, m.values[1]);
  }
}
