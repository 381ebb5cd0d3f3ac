/** Fields a message does not know: kept as read, and written back. */
module UnknownFields {
  import opened Sequences
  import opened Wire

  const VARINT := 0
  const FIXED64 := 1
  const LENGTH_DELIMITED := 2
  const START_GROUP := 3
  const END_GROUP := 4
  const FIXED32 := 5

  /** Field numbers have 29 bits: with the wire type they make a 32-bit tag. */
  const MAX_NUMBER := 0x1FFF_FFFF
  /** CodedInputStream::GetDefaultRecursionLimit(). */
  const RECURSION_LIMIT := 100

  datatype UnknownField =
    | VarintField(number: nat, value: nat)
    | Fixed64Field(number: nat, value: nat)
    | LengthField(number: nat, data: Bytes)
    | GroupField(number: nat, fields: seq<UnknownField>)
    | Fixed32Field(number: nat, value: nat)

  function WireType(u: UnknownField): nat {
    match u
    case VarintField(_, _) => VARINT
    case Fixed64Field(_, _) => FIXED64
    case LengthField(_, _) => LENGTH_DELIMITED
    case GroupField(_, _) => START_GROUP
    case Fixed32Field(_, _) => FIXED32
  }

  function Tag(number: nat, wireType: nat): nat { number * 8 + wireType }

  // ----- reading -----

  function ReadData(s: Bytes): (r: Read<Bytes>)
    ensures r.Read? ==> r.length <= |s| && |r.value| <= MAX_SIZE
  {
    match ReadSize(s)
    case Fail => Fail
    case Read(size, n) => if size <= |s| - n then Read(s[n..n + size], n + size) else Fail
  }

  /** FieldParser: what follows the tag. `depth` is how many groups may still be opened. */
  function ReadField(tag: nat, s: Bytes, depth: nat): (r: Read<UnknownField>)
    ensures r.Read? ==> r.length <= |s|
    decreases |s|, 1
  {
    var number := tag / 8;
    if number == 0 then Fail
    else if tag % 8 == VARINT then
      match ReadVarint64(s) case Fail => Fail case Read(v, n) => Read(VarintField(number, v), n)
    else if tag % 8 == FIXED64 then
      match ReadFixed(s, 8) case Fail => Fail case Read(v, n) => Read(Fixed64Field(number, v), n)
    else if tag % 8 == LENGTH_DELIMITED then
      match ReadData(s) case Fail => Fail case Read(data, n) => Read(LengthField(number, data), n)
    else if tag % 8 == START_GROUP then
      if depth == 0 then Fail
      else match ReadGroup(number, s, depth - 1)
        case Fail => Fail
        case Read(fields, n) => Read(GroupField(number, fields), n)
    else if tag % 8 == FIXED32 then
      match ReadFixed(s, 4) case Fail => Fail case Read(v, n) => Read(Fixed32Field(number, v), n)
    else Fail
  }

  /** WireFormatParser on a group: fields up to the end tag with the same number. A zero tag, another
      end tag or the end of the input inside the group is an error. */
  function ReadGroup(number: nat, s: Bytes, depth: nat): (r: Read<seq<UnknownField>>)
    ensures r.Read? ==> r.length <= |s|
    decreases |s|, 0
  {
    match ReadTag(s)
    case Fail => Fail
    case Read(tag, k) =>
      if tag == 0 then Fail
      else if tag % 8 == END_GROUP then if tag == Tag(number, END_GROUP) then Read([], k) else Fail
      else
        match ReadField(tag, s[k..], depth)
        case Fail => Fail
        case Read(u, n) =>
          match ReadGroup(number, s[k + n..], depth)
          case Fail => Fail
          case Read(us, m) => Read([u] + us, k + n + m)
  }

  // ----- writing -----

  function Body(u: UnknownField): Bytes
    decreases u, 0
  {
    match u
    case VarintField(_, v) => Varint(v)
    case Fixed64Field(_, v) => Fixed(v, 8)
    case LengthField(_, data) => Varint(|data|) + data
    case GroupField(number, fields) => Fields(fields) + Varint(Tag(number, END_GROUP))
    case Fixed32Field(_, v) => Fixed(v, 4)
  }

  /** InternalSerializeUnknownFieldsToArray. */
  function Fields(us: seq<UnknownField>): Bytes
    decreases us
  {
    if us == [] then [] else Varint(Tag(us[0].number, WireType(us[0]))) + Body(us[0]) + Fields(us[1..])
  }

  /** ComputeUnknownFieldsSize. */
  function FieldsSize(us: seq<UnknownField>): nat
    decreases us
  {
    if us == [] then 0 else VarintSize(Tag(us[0].number, WireType(us[0]))) + BodySize(us[0]) + FieldsSize(us[1..])
  }

  function BodySize(u: UnknownField): nat
    decreases u, 0
  {
    match u
    case VarintField(_, v) => VarintSize(v)
    case Fixed64Field(_, _) => 8
    case LengthField(_, data) => VarintSize(|data|) + |data|
    case GroupField(number, fields) => FieldsSize(fields) + VarintSize(Tag(number, END_GROUP))
    case Fixed32Field(_, _) => 4
  }

  // ----- what a parse can leave -----

  ghost predicate WellFormed(u: UnknownField, depth: nat)
    decreases u, 0
  {
    && 0 < u.number <= MAX_NUMBER
    && match u
       case VarintField(_, v) => v < TWO_64
       case Fixed64Field(_, v) => v < Power256(8)
       case LengthField(_, data) => |data| <= MAX_SIZE
       case GroupField(_, fields) => depth > 0 && AllWellFormed(fields, depth - 1)
       case Fixed32Field(_, v) => v < Power256(4)
  }

  ghost predicate AllWellFormed(us: seq<UnknownField>, depth: nat)
    decreases us
  {
    us == [] || (WellFormed(us[0], depth) && AllWellFormed(us[1..], depth))
  }

  lemma TagParts(number: nat, wireType: nat)
    requires wireType < 8
    ensures Tag(number, wireType) / 8 == number && Tag(number, wireType) % 8 == wireType
    ensures number <= MAX_NUMBER ==> Tag(number, wireType) < TWO_32
  {
  }

  lemma DataReadBack(data: Bytes, rest: Bytes)
    requires |data| <= MAX_SIZE
    ensures ReadData(Varint(|data|) + data + rest) == Read(data, |Varint(|data|) + data|)
  {
    var head := Varint(|data|);
    assert head + data + rest == head + (data + rest);
    ReadBack(|data|, data + rest);
    assert (head + (data + rest))[|head|..|head| + |data|] == data;
  }

  /** A well-formed field is read back from its encoding, whatever follows. */
  lemma {:induction false} FieldReadBack(u: UnknownField, rest: Bytes, depth: nat)
    requires WellFormed(u, depth)
    ensures ReadField(Tag(u.number, WireType(u)), Body(u) + rest, depth) == Read(u, |Body(u)|)
    decreases u, 0
  {
    TagParts(u.number, WireType(u));
    match u
    case VarintField(_, v) => ReadBack(v, rest);
    case Fixed64Field(_, v) => FixedReadBack(v, 8, rest);
    case LengthField(_, data) => DataReadBack(data, rest);
    case GroupField(number, fields) => GroupReadBack(number, fields, rest, depth - 1);
    case Fixed32Field(_, v) => FixedReadBack(v, 4, rest);
  }

  lemma GroupStep(number: nat, s: Bytes, depth: nat, tag: nat, k: nat, u: UnknownField, n: nat, us: seq<UnknownField>,
                  m: nat)
    requires ReadTag(s) == Read(tag, k) && tag != 0 && tag % 8 != END_GROUP
    requires ReadField(tag, s[k..], depth) == Read(u, n) && ReadGroup(number, s[k + n..], depth) == Read(us, m)
    ensures ReadGroup(number, s, depth) == Read([u] + us, k + n + m)
  {
    hide ReadField, ReadTag;
  }

  /** How a group that was read, and did not end at once, was read. */
  lemma GroupSplit(number: nat, s: Bytes, depth: nat)
      returns (tag: nat, k: nat, u: UnknownField, n: nat, us: seq<UnknownField>, m: nat)
    requires ReadGroup(number, s, depth).Read? && ReadTag(s).value % 8 != END_GROUP
    ensures ReadTag(s) == Read(tag, k) && tag != 0 && k + n <= |s| && k + n > 0
    ensures ReadField(tag, s[k..], depth) == Read(u, n) && ReadGroup(number, s[k + n..], depth) == Read(us, m)
    ensures ReadGroup(number, s, depth) == Read([u] + us, k + n + m)
  {
    hide ReadField, ReadTag;
    tag, k := ReadTag(s).value, ReadTag(s).length;
    u, n := ReadField(tag, s[k..], depth).value, ReadField(tag, s[k..], depth).length;
    us, m := ReadGroup(number, s[k + n..], depth).value, ReadGroup(number, s[k + n..], depth).length;
  }

  lemma GroupEnd(number: nat, s: Bytes, depth: nat, k: nat)
    requires ReadTag(s) == Read(Tag(number, END_GROUP), k)
    ensures ReadGroup(number, s, depth) == Read([], k)
  {
    TagParts(number, END_GROUP);
    hide ReadField, ReadTag;
  }

  lemma Pieces(a: Bytes, b: Bytes, c: Bytes)
    ensures (a + (b + c))[|a|..] == b + c && (a + (b + c))[|a| + |b|..] == c && a + (b + c) == a + b + c
  {
  }

  lemma FieldsStep(us: seq<UnknownField>)
    requires us != []
    ensures Fields(us) == Varint(Tag(us[0].number, WireType(us[0]))) + Body(us[0]) + Fields(us[1..])
    ensures us == [us[0]] + us[1..]
  {
  }

  /** A group whose first field, and whose remainder, are read back is read back. */
  lemma GroupAssembled(number: nat, depth: nat, tag: nat, u: UnknownField, us: seq<UnknownField>,
                       head: Bytes, body: Bytes, inner: Bytes, rest: Bytes)
    requires tag != 0 && tag % 8 != END_GROUP && ReadTag(head + (body + (inner + rest))) == Read(tag, |head|)
    requires ReadField(tag, body + (inner + rest), depth) == Read(u, |body|)
    requires ReadGroup(number, inner + rest, depth) == Read(us, |inner|)
    ensures ReadGroup(number, head + body + inner + rest, depth) == Read([u] + us, |head + body + inner|)
  {
    hide *;
    var s := head + (body + (inner + rest));
    Pieces(head, body, inner + rest);
    GroupStep(number, s, depth, tag, |head|, u, |body|, us, |inner|);
    assert head + body + inner + rest == s;
  }

  lemma {:induction false} GroupReadBack(number: nat, us: seq<UnknownField>, rest: Bytes, depth: nat)
    requires 0 < number <= MAX_NUMBER && AllWellFormed(us, depth)
    ensures var text := Fields(us) + Varint(Tag(number, END_GROUP));
      ReadGroup(number, text + rest, depth) == Read(us, |text|)
    decreases us
  {
    var end, tag := Varint(Tag(number, END_GROUP)), if us == [] then 0 else Tag(us[0].number, WireType(us[0]));
    TagParts(number, END_GROUP);
    if us == [] {
      assert Fields(us) + end == end;
      hide *;
      ReadBack(Tag(number, END_GROUP), rest);
      GroupEnd(number, end + rest, depth, |end|);
    } else {
      TagParts(us[0].number, WireType(us[0]));
      assert WellFormed(us[0], depth) && AllWellFormed(us[1..], depth) && 0 < tag < TWO_32 && tag % 8 != END_GROUP;
      FieldsStep(us);
      hide *;
      var body, inner := Body(us[0]), Fields(us[1..]) + end;
      FieldReadBack(us[0], inner + rest, depth);
      GroupReadBack(number, us[1..], rest, depth);
      ReadBack(tag, body + (inner + rest));
      GroupAssembled(number, depth, tag, us[0], us[1..], Varint(tag), body, inner, rest);
      AppendAssociates(Varint(tag) + body, Fields(us[1..]), end);
    }
  }

  lemma DataStable(s: Bytes, more: Bytes)
    requires ReadData(s).Read?
    ensures ReadData(s + more) == ReadData(s)
  {
    ReadsStable(s, more);
    var Read(size, n) := ReadSize(s);
    assert (s + more)[n..n + size] == s[n..n + size];
  }

  lemma SliceAppend(s: Bytes, more: Bytes, k: nat)
    requires k <= |s|
    ensures (s + more)[k..] == s[k..] + more
  {
  }

  /** More input after a field or group changes nothing in how it is read. */
  lemma {:induction false} FieldStable(tag: nat, s: Bytes, more: Bytes, depth: nat)
    requires ReadField(tag, s, depth).Read?
    ensures ReadField(tag, s + more, depth) == ReadField(tag, s, depth)
    decreases |s|, 1
  {
    hide ReadVarint64, ReadTag, ReadSize, ReadFixed, ReadData, ReadGroup;
    if tag % 8 == VARINT {
      ReadsStable(s, more);
    } else if tag % 8 == LENGTH_DELIMITED {
      DataStable(s, more);
    } else if tag % 8 == START_GROUP {
      GroupStable(tag / 8, s, more, depth - 1);
    } else {
      FixedStable(s, if tag % 8 == FIXED64 then 8 else 4, more);
    }
  }

  lemma {:induction false} GroupStable(number: nat, s: Bytes, more: Bytes, depth: nat)
    requires ReadGroup(number, s, depth).Read?
    ensures ReadGroup(number, s + more, depth) == ReadGroup(number, s, depth)
    decreases |s|, 0
  {
    ReadsStable(s, more);
    if ReadTag(s).value % 8 == END_GROUP {
      assert ReadTag(s).value == Tag(number, END_GROUP) && ReadGroup(number, s, depth) == Read([], ReadTag(s).length);
      hide *;
      GroupEnd(number, s + more, depth, ReadTag(s).length);
    } else {
      var tag, k, u, n, us, m := GroupSplit(number, s, depth);
      hide *;
      SliceAppend(s, more, k);
      SliceAppend(s, more, k + n);
      FieldStable(tag, s[k..], more, depth);
      GroupStable(number, s[k + n..], more, depth);
      GroupStep(number, s + more, depth, tag, k, u, n, us, m);
    }
  }

  /** Whatever was read is well-formed. */
  lemma {:induction false} ReadIsWellFormed(tag: nat, s: Bytes, depth: nat)
    requires tag < TWO_32 && ReadField(tag, s, depth).Read?
    ensures WellFormed(ReadField(tag, s, depth).value, depth)
    ensures ReadField(tag, s, depth).value.number == tag / 8 && WireType(ReadField(tag, s, depth).value) == tag % 8
    decreases |s|, 1
  {
    if tag % 8 == START_GROUP { GroupIsWellFormed(tag / 8, s, depth - 1); }
  }

  lemma {:induction false} GroupIsWellFormed(number: nat, s: Bytes, depth: nat)
    requires ReadGroup(number, s, depth).Read?
    ensures AllWellFormed(ReadGroup(number, s, depth).value, depth)
    decreases |s|, 0
  {
    var Read(tag, k) := ReadTag(s);
    if tag % 8 != END_GROUP {
      ReadIsWellFormed(tag, s[k..], depth);
      var n := ReadField(tag, s[k..], depth).length;
      GroupIsWellFormed(number, s[k + n..], depth);
      var us := ReadGroup(number, s, depth).value;
      assert us[1..] == ReadGroup(number, s[k + n..], depth).value;
    }
  }

  /** What the integer types of the fields allow: nothing is said of depth or of zero numbers. */
  ghost predicate Encodable(u: UnknownField)
    decreases u, 0
  {
    && u.number <= MAX_NUMBER
    && match u
       case VarintField(_, v) => v < TWO_64
       case LengthField(_, data) => |data| < TWO_32
       case GroupField(_, fields) => AllEncodable(fields)
       case _ => true
  }

  ghost predicate AllEncodable(us: seq<UnknownField>)
    decreases us
  {
    us == [] || (Encodable(us[0]) && AllEncodable(us[1..]))
  }

  /** The computed size of unknown fields is the number of bytes they are written in, however deep
      their groups are nested. */
  lemma {:induction false} FieldsSizeExact(us: seq<UnknownField>)
    requires AllEncodable(us)
    ensures FieldsSize(us) == |Fields(us)|
    decreases us
  {
    if us != [] {
      TagParts(us[0].number, WireType(us[0]));
      VarintSizeExact(Tag(us[0].number, WireType(us[0])));
      BodySizeExact(us[0]);
      FieldsSizeExact(us[1..]);
    }
  }

  lemma {:induction false} BodySizeExact(u: UnknownField)
    requires Encodable(u)
    ensures BodySize(u) == |Body(u)|
    decreases u, 0
  {
    match u
    case VarintField(_, v) => VarintSizeExact(v);
    case LengthField(_, data) => VarintSizeExact(|data|);
    case GroupField(number, fields) =>
      TagParts(number, END_GROUP);
      VarintSizeExact(Tag(number, END_GROUP));
      FieldsSizeExact(fields);
    case _ =>
  }

  lemma {:induction false} WellFormedIsEncodable(u: UnknownField, depth: nat)
    requires WellFormed(u, depth)
    ensures Encodable(u)
    decreases u, 0
  {
    if u.GroupField? { AllWellFormedAreEncodable(u.fields, depth - 1); }
  }

  lemma {:induction false} AllWellFormedAreEncodable(us: seq<UnknownField>, depth: nat)
    requires AllWellFormed(us, depth)
    ensures AllEncodable(us)
    decreases us
  {
    if us != [] {
      WellFormedIsEncodable(us[0], depth);
      AllWellFormedAreEncodable(us[1..], depth);
    }
  }

  lemma {:induction false} FieldsAppend(a: seq<UnknownField>, b: seq<UnknownField>)
    ensures Fields(a + b) == Fields(a) + Fields(b)
    decreases a
  {
    if a == [] {
      assert a + b == b;
    } else {
      assert (a + b)[1..] == a[1..] + b;
      FieldsAppend(a[1..], b);
    }
  }
}
