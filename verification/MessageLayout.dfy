/** The memory layout that DynamicMessageFactory computes for a message type: where the has-bits,
    the oneof cases, the extension set, the fields and the oneof slots go. */
module MessageLayout {
  import opened Alignment

  const SAFE_ALIGNMENT := 8
  const MAX_ONEOF_UNION_SIZE := 8
  const INVALID_FIELD_OFFSET_TAG := 0x4000_0000
  const NO_HASBIT := 0xFFFF_FFFF
  const NO_OFFSET := -1

  datatype CppType = Int32 | Int64 | UInt32 | UInt64 | Double | Float | Bool | Enum | String | Message

  datatype Field = Field(repeated: bool, cppType: CppType, isMap: bool, optionalKeyword: bool, isRequired: bool,
                         weak: bool, inOneof: bool, oneof: nat)

  /** `fields` are the indices of the oneof's fields in the message. */
  datatype Oneof = Oneof(synthetic: bool, fields: seq<nat>)

  datatype Descriptor = Descriptor(fields: seq<Field>, oneofs: seq<Oneof>, extensionRanges: nat)

  /** sizeof the classes the layout makes room for. */
  datatype Sizes = Sizes(dynamicMessage: nat, repeatedField: nat, repeatedPtrField: nat, dynamicMapField: nat,
                         extensionSet: nat)

  ghost predicate ValidSizes(z: Sizes) {
    z.repeatedField > 0 && z.repeatedPtrField > 0 && z.dynamicMapField > 0
  }

  /** What the descriptor builder guarantees: synthetic oneofs come last, and oneofs and their fields
      name each other. */
  ghost predicate ValidDescriptor(d: Descriptor) {
    && (forall i :: 0 <= i < |d.fields| && d.fields[i].inOneof ==>
          d.fields[i].oneof < |d.oneofs| && i in d.oneofs[d.fields[i].oneof].fields)
    && (forall i, j :: 0 <= i < |d.oneofs| && 0 <= j < |d.oneofs[i].fields| ==>
          var f := d.oneofs[i].fields[j]; f < |d.fields| && d.fields[f].inOneof && d.fields[f].oneof == i)
    && (forall i, j :: 0 <= i < j < |d.oneofs| && d.oneofs[i].synthetic ==> d.oneofs[j].synthetic)
  }

  predicate HasHasbit(f: Field) { (f.optionalKeyword || f.isRequired) && !f.weak }

  predicate InRealOneof(d: Descriptor, f: Field) {
    f.inOneof && f.oneof < |d.oneofs| && !d.oneofs[f.oneof].synthetic
  }

  function FieldSpaceUsed(z: Sizes, f: Field): (size: nat)
    ensures ValidSizes(z) ==> size > 0
  {
    if f.repeated then
      match f.cppType
      case Message => if f.isMap then z.dynamicMapField else z.repeatedPtrField
      case String => z.repeatedPtrField
      case _ => z.repeatedField
    else
      match f.cppType
      case Int32 => 4 case UInt32 => 4 case Float => 4 case Enum => 4
      case Int64 => 8 case UInt64 => 8 case Double => 8
      case Bool => 1
      case Message => 8
      case String => 8
  }

  function Min(a: nat, b: nat): nat { if a < b then a else b }

  function AlignOffset(offset: nat): nat { AlignTo(offset, SAFE_ALIGNMENT) }

  // ----- where everything goes -----

  function HasBitCount(fields: seq<Field>, n: nat): nat
    requires n <= |fields|
  {
    if n == 0 then 0 else HasBitCount(fields, n - 1) + if HasHasbit(fields[n - 1]) then 1 else 0
  }

  function RealOneofCount(oneofs: seq<Oneof>, n: nat): nat
    requires n <= |oneofs|
  {
    if n == 0 then 0 else RealOneofCount(oneofs, n - 1) + if oneofs[n - 1].synthetic then 0 else 1
  }

  function HasBitsSize(d: Descriptor): nat { DivideRoundingUp(HasBitCount(d.fields, |d.fields|), 32) * 4 }

  function CasesSize(d: Descriptor): nat { RealOneofCount(d.oneofs, |d.oneofs|) * 4 }

  function AfterHeader(z: Sizes): nat { AlignOffset(z.dynamicMessage) }

  function AfterHasBits(d: Descriptor, z: Sizes): nat {
    if HasBitCount(d.fields, |d.fields|) > 0 then AlignOffset(AfterHeader(z) + HasBitsSize(d)) else AfterHeader(z)
  }

  function AfterCases(d: Descriptor, z: Sizes): nat {
    if RealOneofCount(d.oneofs, |d.oneofs|) > 0 then AlignOffset(AfterHasBits(d, z) + CasesSize(d))
    else AfterHasBits(d, z)
  }

  function AfterExtensions(d: Descriptor, z: Sizes): nat {
    if d.extensionRanges > 0 then AlignOffset(AfterCases(d, z) + z.extensionSet) else AfterCases(d, z)
  }

  function FieldAlignment(z: Sizes, f: Field): (alignment: nat)
    requires ValidSizes(z)
    ensures alignment > 0
  {
    Min(SAFE_ALIGNMENT, FieldSpaceUsed(z, f))
  }

  function FieldStart(d: Descriptor, z: Sizes, i: nat): nat
    requires ValidSizes(z) && i < |d.fields|
    decreases i, 1
  {
    AlignTo(FieldsEnd(d, z, i), FieldAlignment(z, d.fields[i]))
  }

  /** Where the first n fields end. */
  function FieldsEnd(d: Descriptor, z: Sizes, n: nat): nat
    requires ValidSizes(z) && n <= |d.fields|
    decreases n, 0
  {
    if n == 0 then AfterExtensions(d, z)
    else if InRealOneof(d, d.fields[n - 1]) then FieldsEnd(d, z, n - 1)
    else FieldStart(d, z, n - 1) + FieldSpaceUsed(z, d.fields[n - 1])
  }

  function SlotStart(d: Descriptor, z: Sizes, i: nat): nat
    requires ValidSizes(z) && i < |d.oneofs|
    decreases i, 1
  {
    AlignTo(SlotsEnd(d, z, i), SAFE_ALIGNMENT)
  }

  function SlotsEnd(d: Descriptor, z: Sizes, n: nat): nat
    requires ValidSizes(z) && n <= |d.oneofs|
    decreases n, 0
  {
    if n == 0 then FieldsEnd(d, z, |d.fields|)
    else if d.oneofs[n - 1].synthetic then SlotsEnd(d, z, n - 1)
    else SlotStart(d, z, n - 1) + MAX_ONEOF_UNION_SIZE
  }

  function Size(d: Descriptor, z: Sizes): nat
    requires ValidSizes(z)
  {
    SlotsEnd(d, z, |d.oneofs|)
  }

  // ----- the positions are ordered and aligned -----

  lemma PartsInOrder(d: Descriptor, z: Sizes)
    ensures z.dynamicMessage <= AfterHeader(z) <= AfterHasBits(d, z) <= AfterCases(d, z) <= AfterExtensions(d, z)
    ensures AfterHeader(z) % 8 == 0 && AfterHasBits(d, z) % 8 == 0 && AfterCases(d, z) % 8 == 0
    ensures AfterExtensions(d, z) % 8 == 0
    ensures HasBitCount(d.fields, |d.fields|) > 0 ==> AfterHeader(z) + HasBitsSize(d) <= AfterHasBits(d, z)
    ensures RealOneofCount(d.oneofs, |d.oneofs|) > 0 ==> AfterHasBits(d, z) + CasesSize(d) <= AfterCases(d, z)
    ensures d.extensionRanges > 0 ==> AfterCases(d, z) + z.extensionSet <= AfterExtensions(d, z)
  {
    AlignToBounds(z.dynamicMessage, 8);
    AlignToBounds(AfterHeader(z) + HasBitsSize(d), 8);
    AlignToBounds(AfterHasBits(d, z) + CasesSize(d), 8);
    AlignToBounds(AfterCases(d, z) + z.extensionSet, 8);
    hide AlignTo, DivideRoundingUp, HasBitsSize, CasesSize;
  }

  lemma {:induction false} FieldsInOrder(d: Descriptor, z: Sizes, i: nat, n: nat)
    requires ValidSizes(z) && i <= n <= |d.fields|
    ensures AfterExtensions(d, z) <= FieldsEnd(d, z, i) <= FieldsEnd(d, z, n)
    ensures i < n && !InRealOneof(d, d.fields[i]) ==>
      && FieldsEnd(d, z, i) <= FieldStart(d, z, i)
      && FieldStart(d, z, i) % FieldAlignment(z, d.fields[i]) == 0
      && FieldStart(d, z, i) + FieldSpaceUsed(z, d.fields[i]) <= FieldsEnd(d, z, n)
    decreases n
  {
    hide AlignTo, AfterExtensions, FieldSpaceUsed;
    if n > 0 {
      AlignToBounds(FieldsEnd(d, z, n - 1), FieldAlignment(z, d.fields[n - 1]));
      FieldsInOrder(d, z, if i < n then i else n - 1, n - 1);
    }
  }

  lemma {:induction false} SlotsInOrder(d: Descriptor, z: Sizes, i: nat, n: nat)
    requires ValidSizes(z) && i <= n <= |d.oneofs|
    ensures FieldsEnd(d, z, |d.fields|) <= SlotsEnd(d, z, i) <= SlotsEnd(d, z, n)
    ensures i < n && !d.oneofs[i].synthetic ==>
      && SlotsEnd(d, z, i) <= SlotStart(d, z, i) && SlotStart(d, z, i) % 8 == 0
      && SlotStart(d, z, i) + MAX_ONEOF_UNION_SIZE <= SlotsEnd(d, z, n)
    decreases n
  {
    hide AlignTo, FieldsEnd;
    if n > 0 {
      AlignToBounds(SlotsEnd(d, z, n - 1), SAFE_ALIGNMENT);
      SlotsInOrder(d, z, if i < n then i else n - 1, n - 1);
    }
  }

  // ----- what occupies memory in a message -----

  datatype Region = Header | HasBits | Cases | Extensions | FieldAt(i: nat) | Slot(i: nat)

  ghost predicate IsRegion(d: Descriptor, r: Region) {
    match r
    case Header => true
    case HasBits => HasBitCount(d.fields, |d.fields|) > 0
    case Cases => RealOneofCount(d.oneofs, |d.oneofs|) > 0
    case Extensions => d.extensionRanges > 0
    case FieldAt(i) => i < |d.fields| && !InRealOneof(d, d.fields[i])
    case Slot(i) => i < |d.oneofs| && !d.oneofs[i].synthetic
  }

  ghost function Start(d: Descriptor, z: Sizes, r: Region): nat
    requires ValidSizes(z) && IsRegion(d, r)
  {
    match r
    case Header => 0
    case HasBits => AfterHeader(z)
    case Cases => AfterHasBits(d, z)
    case Extensions => AfterCases(d, z)
    case FieldAt(i) => FieldStart(d, z, i)
    case Slot(i) => SlotStart(d, z, i)
  }

  ghost function Length(d: Descriptor, z: Sizes, r: Region): nat
    requires ValidSizes(z) && IsRegion(d, r)
  {
    match r
    case Header => z.dynamicMessage
    case HasBits => HasBitsSize(d)
    case Cases => CasesSize(d)
    case Extensions => z.extensionSet
    case FieldAt(i) => FieldSpaceUsed(z, d.fields[i])
    case Slot(i) => MAX_ONEOF_UNION_SIZE
  }

  ghost function End(d: Descriptor, z: Sizes, r: Region): nat
    requires ValidSizes(z) && IsRegion(d, r)
  {
    Start(d, z, r) + Length(d, z, r)
  }

  ghost function RequiredAlignment(d: Descriptor, z: Sizes, r: Region): (alignment: nat)
    requires ValidSizes(z) && IsRegion(d, r)
    ensures alignment > 0
  {
    if r.FieldAt? then FieldAlignment(z, d.fields[r.i]) else 8
  }

  /** Position of a region in the packing order. */
  ghost function Rank(d: Descriptor, r: Region): nat {
    match r
    case Header => 0
    case HasBits => 1
    case Cases => 2
    case Extensions => 3
    case FieldAt(i) => 4 + i
    case Slot(i) => 4 + |d.fields| + i
  }

  /** Every region is aligned and lies inside the message. */
  lemma {:induction false} RegionInside(d: Descriptor, z: Sizes, r: Region)
    requires ValidSizes(z) && IsRegion(d, r)
    ensures End(d, z, r) <= Size(d, z) && Start(d, z, r) % RequiredAlignment(d, z, r) == 0
  {
    PartsInOrder(d, z);
    FieldsInOrder(d, z, if r.FieldAt? then r.i else 0, |d.fields|);
    SlotsInOrder(d, z, if r.Slot? then r.i else 0, |d.oneofs|);
    hide AfterHeader, AfterHasBits, AfterCases, AfterExtensions;
    hide FieldsEnd, SlotsEnd, FieldStart, SlotStart, FieldSpaceUsed;
  }

  /** What comes before the fields ends before they start. */
  lemma PartsBeforeFields(d: Descriptor, z: Sizes, a: Region)
    requires ValidSizes(z) && IsRegion(d, a) && !a.FieldAt? && !a.Slot?
    ensures End(d, z, a) <= AfterExtensions(d, z)
  {
    PartsInOrder(d, z);
    hide AfterHeader, AfterHasBits, AfterCases, AfterExtensions, HasBitCount, RealOneofCount, HasBitsSize, CasesSize;
  }

  lemma PartsOrdered(d: Descriptor, z: Sizes, a: Region, b: Region)
    requires ValidSizes(z) && IsRegion(d, a) && IsRegion(d, b) && Rank(d, a) < Rank(d, b) < 4
    ensures End(d, z, a) <= Start(d, z, b)
  {
    PartsInOrder(d, z);
    hide AfterHeader, AfterHasBits, AfterCases, AfterExtensions, HasBitCount, RealOneofCount, HasBitsSize, CasesSize;
  }

  lemma BeforeField(d: Descriptor, z: Sizes, a: Region, i: nat)
    requires ValidSizes(z) && IsRegion(d, a) && IsRegion(d, FieldAt(i)) && Rank(d, a) < Rank(d, FieldAt(i))
    ensures End(d, z, a) <= FieldStart(d, z, i)
  {
    if !a.FieldAt? { PartsBeforeFields(d, z, a); }
    FieldsInOrder(d, z, if a.FieldAt? then a.i else 0, i);
    FieldsInOrder(d, z, i, i + 1);
    hide FieldsEnd, FieldStart, FieldSpaceUsed, AfterExtensions, SlotStart;
  }

  lemma BeforeSlot(d: Descriptor, z: Sizes, a: Region, i: nat)
    requires ValidSizes(z) && IsRegion(d, a) && IsRegion(d, Slot(i)) && Rank(d, a) < Rank(d, Slot(i))
    ensures End(d, z, a) <= SlotStart(d, z, i)
  {
    if !a.FieldAt? && !a.Slot? { PartsBeforeFields(d, z, a); }
    FieldsInOrder(d, z, if a.FieldAt? then a.i else 0, |d.fields|);
    SlotsInOrder(d, z, if a.Slot? then a.i else 0, i);
    SlotsInOrder(d, z, i, i + 1);
    hide FieldsEnd, FieldStart, FieldSpaceUsed, AfterExtensions, SlotStart, SlotsEnd;
  }

  /** A region ends before the next one in packing order starts. */
  lemma {:induction false} RegionsInOrder(d: Descriptor, z: Sizes, a: Region, b: Region)
    requires ValidSizes(z) && IsRegion(d, a) && IsRegion(d, b) && Rank(d, a) < Rank(d, b)
    ensures End(d, z, a) <= Start(d, z, b)
  {
    hide End, FieldStart, SlotStart, AfterHeader, AfterHasBits, AfterCases;
    match b {
      case FieldAt(i) => BeforeField(d, z, a, i);
      case Slot(i) => BeforeSlot(d, z, a, i);
      case _ => PartsOrdered(d, z, a, b);
    }
  }

  /** No two regions overlap. */
  lemma {:induction false} RegionsDisjoint(d: Descriptor, z: Sizes, a: Region, b: Region)
    requires ValidSizes(z) && IsRegion(d, a) && IsRegion(d, b) && a != b
    ensures End(d, z, a) <= Start(d, z, b) || End(d, z, b) <= Start(d, z, a)
  {
    if Rank(d, a) < Rank(d, b) { RegionsInOrder(d, z, a, b); } else { RegionsInOrder(d, z, b, a); }
  }

  // ----- the final size -----

  /** The classes the layout makes room for hold pointers, so their sizes are multiples of 8. */
  ghost predicate WordSizes(z: Sizes) {
    z.repeatedField % 8 == 0 && z.repeatedPtrField % 8 == 0 && z.dynamicMapField % 8 == 0
  }

  /** How far past a multiple of 8 the first n fields end, read off their types alone. */
  ghost function Residue(d: Descriptor, n: nat): nat
    requires n <= |d.fields|
  {
    if n == 0 then 0
    else
      var f, r := d.fields[n - 1], Residue(d, n - 1);
      if InRealOneof(d, f) then r
      else if f.repeated then 0
      else match f.cppType
        case Bool => (r + 1) % 8
        case Int32 | UInt32 | Float | Enum => if 1 <= r <= 4 then 0 else 4
        case _ => 0
  }

  lemma FourResidue(x: nat, y: nat, r: nat)
    requires x % 8 == r && y % 4 == 0 && x <= y < x + 4
    ensures (y + 4) % 8 == if 1 <= r <= 4 then 0 else 4
  {
    var q, k := x / 8, y / 4;
    assert k == if r == 0 then 2 * q else if r <= 4 then 2 * q + 1 else 2 * q + 2;
  }

  lemma OneResidue(x: nat, r: nat)
    requires x % 8 == r
    ensures (x + 1) % 8 == (r + 1) % 8
  {
  }

  lemma WordResidue(y: nat, size: nat)
    requires y % 8 == 0 && size % 8 == 0
    ensures (y + size) % 8 == 0
  {
  }

  lemma AlignedResidue(x: nat, size: nat, r: nat)
    requires size > 0 && (size % 8 == 0 || size == 1 || size == 4) && x % 8 == r
    ensures var y := AlignTo(x, Min(8, size)) + size;
      y % 8 == if size == 1 then (r + 1) % 8 else if size == 4 then if 1 <= r <= 4 then 0 else 4 else 0
  {
    hide AlignTo;
    AlignToBounds(x, Min(8, size));
    if size == 1 {
      OneResidue(x, r);
    } else if size == 4 {
      FourResidue(x, AlignTo(x, 4), r);
    } else {
      WordResidue(AlignTo(x, 8), size);
    }
  }

  lemma {:induction false} FieldsEndResidue(d: Descriptor, z: Sizes, n: nat)
    requires ValidSizes(z) && WordSizes(z) && n <= |d.fields|
    ensures FieldsEnd(d, z, n) % 8 == Residue(d, n)
  {
    if n == 0 {
      PartsInOrder(d, z);
    } else {
      FieldsEndResidue(d, z, n - 1);
      AlignedResidue(FieldsEnd(d, z, n - 1), FieldSpaceUsed(z, d.fields[n - 1]), Residue(d, n - 1));
      hide AlignTo;
    }
  }

  lemma {:induction false} SlotsEndAligned(d: Descriptor, z: Sizes, n: nat)
    requires ValidSizes(z) && n <= |d.oneofs|
    ensures if RealOneofCount(d.oneofs, n) == 0 then SlotsEnd(d, z, n) == FieldsEnd(d, z, |d.fields|)
      else SlotsEnd(d, z, n) % 8 == 0
  {
    if n > 0 {
      SlotsEndAligned(d, z, n - 1);
      AlignToBounds(SlotsEnd(d, z, n - 1), SAFE_ALIGNMENT);
      hide AlignTo, FieldsEnd;
    }
  }

  /** The comment in the code promises an aligned final size, but nothing rounds it: it is aligned
      exactly when a real oneof comes last or the fields happen to end on a boundary. */
  lemma {:induction false} FinalSizeAligned(d: Descriptor, z: Sizes)
    requires ValidSizes(z) && WordSizes(z)
    ensures Size(d, z) % 8 == 0 <==> RealOneofCount(d.oneofs, |d.oneofs|) > 0 || Residue(d, |d.fields|) == 0
  {
    FieldsEndResidue(d, z, |d.fields|);
    SlotsEndAligned(d, z, |d.oneofs|);
    hide FieldsEnd, SlotsEnd, Residue, RealOneofCount;
  }

  /** For example, a message whose only field is a bool ends one past a multiple of 8. */
  lemma {:induction false} FinalSizeUnaligned(z: Sizes)
    requires ValidSizes(z)
    ensures var d := Descriptor([Field(false, Bool, false, false, false, false, false, 0)], [], 0);
      ValidDescriptor(d) && Size(d, z) % 8 == 1
  {
    var d := Descriptor([Field(false, Bool, false, false, false, false, false, 0)], [], 0);
    PartsInOrder(d, z);
    assert FieldAlignment(z, d.fields[0]) == 1;
    assert FieldsEnd(d, z, 1) == FieldStart(d, z, 0) + 1;
    assert SlotsEnd(d, z, 0) == FieldsEnd(d, z, 1);
    AlignToBounds(FieldsEnd(d, z, 0), 1);
    hide AlignTo, AfterExtensions;
  }

  // ----- has-bits -----

  /** The fields with a has-bit get indices 0, 1, 2, ... in order, each below 32 times the number
      of words; two fields never share one. */
  lemma {:induction false} HasBitsFit(fields: seq<Field>, i: nat, n: nat)
    requires i < n <= |fields| && HasHasbit(fields[i])
    ensures HasBitCount(fields, i) < HasBitCount(fields, n) <= 32 * DivideRoundingUp(HasBitCount(fields, n), 32)
  {
    HasBitsGrow(fields, i + 1, n);
    AlignToBounds(HasBitCount(fields, n), 32);
  }

  lemma {:induction false} HasBitsGrow(fields: seq<Field>, i: nat, n: nat)
    requires i <= n <= |fields|
    ensures HasBitCount(fields, i) <= HasBitCount(fields, n)
  {
    if i < n { HasBitsGrow(fields, i, n - 1); }
  }

  lemma {:induction false} HasBitsDistinct(fields: seq<Field>, i: nat, j: nat)
    requires i < j < |fields| && HasHasbit(fields[i]) && HasHasbit(fields[j])
    ensures HasBitCount(fields, i) != HasBitCount(fields, j)
  {
    HasBitsFit(fields, i, j);
  }

  // ----- the oneof slots fit the offsets array -----

  lemma {:induction false} AllReal(d: Descriptor, i: nat)
    requires ValidDescriptor(d) && i < |d.oneofs| && !d.oneofs[i].synthetic
    ensures RealOneofCount(d.oneofs, i + 1) == i + 1
  {
    if i > 0 { AllReal(d, i - 1); }
  }

  lemma {:induction false} RealCountGrows(oneofs: seq<Oneof>, i: nat, n: nat)
    requires i <= n <= |oneofs|
    ensures RealOneofCount(oneofs, i) <= RealOneofCount(oneofs, n)
  {
    if i < n { RealCountGrows(oneofs, i, n - 1); }
  }

  /** Because synthetic oneofs come last, field_count() + i stays inside an array with one entry
      per field and one per real oneof. */
  lemma {:induction false} SlotIndexInRange(d: Descriptor, i: nat)
    requires ValidDescriptor(d) && i < |d.oneofs| && !d.oneofs[i].synthetic
    ensures i < RealOneofCount(d.oneofs, |d.oneofs|)
  {
    AllReal(d, i);
    RealCountGrows(d.oneofs, i + 1, |d.oneofs|);
  }

  // ----- the computation -----

  /** oneofCaseOffset of a message without real oneofs keeps whatever the memory held. */
  datatype TypeInfo = TypeInfo(size: nat, hasBitsOffset: int, oneofCaseOffset: int, extensionsOffset: int,
                               weakFieldMapOffset: int)

  ghost predicate OffsetsOf(d: Descriptor, z: Sizes, offsets: seq<int>)
    requires ValidSizes(z)
  {
    && |offsets| == |d.fields| + RealOneofCount(d.oneofs, |d.oneofs|)
    && (forall i :: 0 <= i < |d.fields| ==>
          offsets[i] == if InRealOneof(d, d.fields[i]) then INVALID_FIELD_OFFSET_TAG else FieldStart(d, z, i))
    && (forall i :: 0 <= i < |d.oneofs| && !d.oneofs[i].synthetic ==>
          |d.fields| + i < |offsets| && offsets[|d.fields| + i] == SlotStart(d, z, i))
  }

  ghost predicate HasBitsOf(d: Descriptor, indices: seq<int>) {
    |indices| == |d.fields| && forall i :: 0 <= i < |d.fields| ==>
      indices[i] == if HasHasbit(d.fields[i]) then HasBitCount(d.fields, i) else NO_HASBIT
  }

  method CountRealOneofs(d: Descriptor) returns (count: nat)
    ensures count == RealOneofCount(d.oneofs, |d.oneofs|)
  {
    count := 0;
    for i := 0 to |d.oneofs|
      invariant count == RealOneofCount(d.oneofs, i)
    {
      if !d.oneofs[i].synthetic { count := count + 1; }
    }
  }

  /** The array is made when the first field that needs a has-bit comes up. */
  method AssignHasBits(d: Descriptor) returns (indices: array?<int>, maxHasbit: nat)
    ensures maxHasbit == HasBitCount(d.fields, |d.fields|)
    ensures indices == null <==> maxHasbit == 0
    ensures indices != null ==> fresh(indices) && HasBitsOf(d, indices[..])
  {
    indices, maxHasbit := null, 0;
    for i := 0 to |d.fields|
      invariant maxHasbit == HasBitCount(d.fields, i) && (indices == null <==> maxHasbit == 0)
      invariant indices != null ==> fresh(indices) && indices.Length == |d.fields|
      invariant forall j :: 0 <= j < i && indices == null ==> !HasHasbit(d.fields[j])
      invariant forall j :: 0 <= j < |d.fields| && indices != null ==>
        indices[j] == if j < i && HasHasbit(d.fields[j]) then HasBitCount(d.fields, j) else NO_HASBIT
    {
      if HasHasbit(d.fields[i]) {
        if indices == null { indices := new int[|d.fields|](_ => NO_HASBIT); }
        indices[i] := maxHasbit;
        maxHasbit := maxHasbit + 1;
      }
    }
  }

  method PlaceFields(d: Descriptor, z: Sizes, offsets: array<int>, start: nat) returns (size: nat)
    requires ValidSizes(z) && start == FieldsEnd(d, z, 0) && |d.fields| <= offsets.Length
    modifies offsets
    ensures size == FieldsEnd(d, z, |d.fields|)
    ensures forall i :: 0 <= i < |d.fields| && !InRealOneof(d, d.fields[i]) ==> offsets[i] == FieldStart(d, z, i)
  {
    size := start;
    for i := 0 to |d.fields|
      invariant size == FieldsEnd(d, z, i)
      invariant forall j :: 0 <= j < i && !InRealOneof(d, d.fields[j]) ==> offsets[j] == FieldStart(d, z, j)
    {
      if !InRealOneof(d, d.fields[i]) {
        var fieldSize := FieldSpaceUsed(z, d.fields[i]);
        size := AlignTo(size, Min(SAFE_ALIGNMENT, fieldSize));
        offsets[i] := size;
        size := size + fieldSize;
      }
    }
  }

  method PlaceOneofs(d: Descriptor, z: Sizes, offsets: array<int>, start: nat) returns (size: nat)
    requires ValidSizes(z) && ValidDescriptor(d) && start == SlotsEnd(d, z, 0)
    requires offsets.Length == |d.fields| + RealOneofCount(d.oneofs, |d.oneofs|)
    modifies offsets
    ensures size == SlotsEnd(d, z, |d.oneofs|)
    ensures forall i :: 0 <= i < |d.fields| ==> offsets[i] == old(offsets[i])
    ensures forall i :: 0 <= i < |d.oneofs| && !d.oneofs[i].synthetic ==>
      |d.fields| + i < offsets.Length && offsets[|d.fields| + i] == SlotStart(d, z, i)
  {
    size := start;
    forall j | 0 <= j < |d.oneofs| && !d.oneofs[j].synthetic ensures |d.fields| + j < offsets.Length {
      SlotIndexInRange(d, j);
    }
    hide AlignTo, FieldsEnd, ValidDescriptor, RealOneofCount;
    for i := 0 to |d.oneofs|
      invariant size == SlotsEnd(d, z, i)
      invariant forall k :: 0 <= k < |d.fields| ==> offsets[k] == old(offsets[k])
      invariant forall k ::
        |d.fields| <= k < |d.fields| + i && k < offsets.Length && !d.oneofs[k - |d.fields|].synthetic ==>
        offsets[k] == SlotStart(d, z, k - |d.fields|)
    {
      if !d.oneofs[i].synthetic {
        size := AlignTo(size, SAFE_ALIGNMENT);
        offsets[|d.fields| + i] := size;
        size := size + MAX_ONEOF_UNION_SIZE;
      }
    }
  }

  /** Real oneof fields are not reached through their own offset. */
  method InvalidateOneofFields(d: Descriptor, offsets: array<int>)
    requires ValidDescriptor(d) && |d.fields| <= offsets.Length
    modifies offsets
    ensures forall i :: 0 <= i < |d.fields| ==>
      offsets[i] == if InRealOneof(d, d.fields[i]) then INVALID_FIELD_OFFSET_TAG else old(offsets[i])
    ensures forall i :: |d.fields| <= i < offsets.Length ==> offsets[i] == old(offsets[i])
  {
    for i := 0 to |d.oneofs|
      invariant forall f :: 0 <= f < |d.fields| ==>
        offsets[f]
          == if InRealOneof(d, d.fields[f]) && d.fields[f].oneof < i then INVALID_FIELD_OFFSET_TAG else old(offsets[f])
      invariant forall k :: |d.fields| <= k < offsets.Length ==> offsets[k] == old(offsets[k])
    {
      if !d.oneofs[i].synthetic {
        var members := d.oneofs[i].fields;
        for j := 0 to |members|
          invariant forall f :: 0 <= f < |d.fields| ==>
            offsets[f] == if InRealOneof(d, d.fields[f]) && (d.fields[f].oneof < i || f in members[..j])
                          then INVALID_FIELD_OFFSET_TAG else old(offsets[f])
          invariant forall k :: |d.fields| <= k < offsets.Length ==> offsets[k] == old(offsets[k])
        {
          offsets[members[j]] := INVALID_FIELD_OFFSET_TAG;
          assert members[..j + 1] == members[..j] + [members[j]];
        }
        assert members[..|members|] == members;
      }
    }
  }

  /** The parts in front of the fields. */
  method PlaceParts(d: Descriptor, z: Sizes, maxHasbit: nat, realOneofCount: nat, junk: int)
    returns (size: nat, hasBitsOffset: int, oneofCaseOffset: int, extensionsOffset: int)
    requires ValidSizes(z) && maxHasbit == HasBitCount(d.fields, |d.fields|)
    requires realOneofCount == RealOneofCount(d.oneofs, |d.oneofs|)
    ensures size == AfterExtensions(d, z)
    ensures hasBitsOffset == if IsRegion(d, HasBits) then Start(d, z, HasBits) else NO_OFFSET
    ensures oneofCaseOffset == if IsRegion(d, Cases) then Start(d, z, Cases) else junk
    ensures extensionsOffset == if IsRegion(d, Extensions) then Start(d, z, Extensions) else NO_OFFSET
  {
    hide AlignTo, DivideRoundingUp;
    size := AlignOffset(z.dynamicMessage);
    hasBitsOffset, oneofCaseOffset, extensionsOffset := NO_OFFSET, junk, NO_OFFSET;
    if maxHasbit > 0 {
      hasBitsOffset := size;
      size := size + DivideRoundingUp(maxHasbit, 32) * 4;
      size := AlignOffset(size);
    }
    if realOneofCount > 0 {
      oneofCaseOffset := size;
      size := size + realOneofCount * 4;
      size := AlignOffset(size);
    }
    if d.extensionRanges > 0 {
      extensionsOffset := size;
      size := size + z.extensionSet;
      size := AlignOffset(size);
    }
  }

  /** The layout part of GetPrototypeNoLock. */
  method ComputeLayout(d: Descriptor, z: Sizes, junk: int)
      returns (info: TypeInfo, offsets: array<int>, hasBits: array?<int>)
    requires ValidSizes(z) && ValidDescriptor(d)
    ensures info.size == Size(d, z) && OffsetsOf(d, z, offsets[..])
    ensures hasBits != null <==> IsRegion(d, HasBits)
    ensures hasBits != null ==> HasBitsOf(d, hasBits[..])
    ensures info.hasBitsOffset == if IsRegion(d, HasBits) then Start(d, z, HasBits) else NO_OFFSET
    ensures info.oneofCaseOffset == if IsRegion(d, Cases) then Start(d, z, Cases) else junk
    ensures info.extensionsOffset == if IsRegion(d, Extensions) then Start(d, z, Extensions) else NO_OFFSET
  {
    hide AlignTo, DivideRoundingUp, FieldSpaceUsed, Start;
    hide HasBitsOf, HasHasbit, HasBitCount, RealOneofCount, AfterExtensions;
    var realOneofCount := CountRealOneofs(d);
    offsets := new int[|d.fields| + realOneofCount];
    var hasBitsOffset, oneofCaseOffset, extensionsOffset, maxHasbit, size;
    hasBits, maxHasbit := AssignHasBits(d);
    size, hasBitsOffset, oneofCaseOffset, extensionsOffset := PlaceParts(d, z, maxHasbit, realOneofCount, junk);
    size := PlaceFields(d, z, offsets, size);
    size := PlaceOneofs(d, z, offsets, size);
    info := TypeInfo(size, hasBitsOffset, oneofCaseOffset, extensionsOffset, -1);
    hide SlotStart, FieldStart, InRealOneof, SlotsEnd, FieldsEnd;
    InvalidateOneofFields(d, offsets);
  }
}
