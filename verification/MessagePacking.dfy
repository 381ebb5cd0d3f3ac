/** The layout of a message is the tightest one: which parts it has, how large they are and that
    only alignment separates them, in terms of the descriptor alone. */
module MessagePacking {
  import opened Alignment
  import opened MessageLayout

  // ----- which fields and oneofs count -----

  /** Of the first n fields, those that track presence: written `optional` or `required`, and not weak. */
  ghost function Tracked(d: Descriptor, n: nat): set<nat> {
    set i: nat | i < n && i < |d.fields| &&
                 (d.fields[i].optionalKeyword || d.fields[i].isRequired) && !d.fields[i].weak
  }

  /** Of the first n oneofs, those that the user wrote. */
  ghost function Written(d: Descriptor, n: nat): set<nat> {
    set i: nat | i < n && i < |d.oneofs| && !d.oneofs[i].synthetic
  }

  /** Field i has memory of its own: it is in no oneof, or in one made up for `optional`. */
  ghost predicate OwnMemory(d: Descriptor, i: nat) {
    && i < |d.fields|
    && (d.fields[i].inOneof && d.fields[i].oneof < |d.oneofs| ==> d.oneofs[d.fields[i].oneof].synthetic)
  }

  lemma {:induction false} TrackedCounted(d: Descriptor, n: nat)
    requires n <= |d.fields|
    ensures HasBitCount(d.fields, n) == |Tracked(d, n)|
  {
    if n > 0 {
      TrackedCounted(d, n - 1);
      assert Tracked(d, n) == Tracked(d, n - 1) + if HasHasbit(d.fields[n - 1]) then {n - 1} else {};
    }
  }

  lemma {:induction false} WrittenCounted(d: Descriptor, n: nat)
    requires n <= |d.oneofs|
    ensures RealOneofCount(d.oneofs, n) == |Written(d, n)|
  {
    if n > 0 {
      WrittenCounted(d, n - 1);
      assert Written(d, n) == Written(d, n - 1) + if d.oneofs[n - 1].synthetic then {} else {n - 1};
    }
  }

  /** A has-bit index counts the tracked fields in front; every other field has all bits set. */
  lemma {:induction false} HasBitIndices(d: Descriptor, indices: seq<int>, i: nat)
    requires HasBitsOf(d, indices) && i < |d.fields|
    ensures indices[i] == if i in Tracked(d, |d.fields|) then |Tracked(d, i)| else 0xFFFF_FFFF
  {
    TrackedCounted(d, i);
  }

  /** Which parts a message has. */
  lemma {:induction false} PartsPresent(d: Descriptor, r: Region)
    ensures IsRegion(d, r) <==>
      match r
      case Header => true
      case HasBits => Tracked(d, |d.fields|) != {}
      case Cases => Written(d, |d.oneofs|) != {}
      case Extensions => d.extensionRanges > 0
      case FieldAt(i) => OwnMemory(d, i)
      case Slot(i) => i in Written(d, |d.oneofs|)
  {
    TrackedCounted(d, |d.fields|);
    WrittenCounted(d, |d.oneofs|);
  }

  // ----- how large they are -----

  /** size is the least number of 32-bit words with one bit for each of n fields. */
  ghost predicate LeastWords(size: nat, n: nat) {
    size % 4 == 0 && n <= 8 * size < n + 32
  }

  lemma {:induction false} HasBitsAreLeast(d: Descriptor)
    ensures LeastWords(HasBitsSize(d), |Tracked(d, |d.fields|)|)
  {
    TrackedCounted(d, |d.fields|);
    AlignToBounds(HasBitCount(d.fields, |d.fields|), 32);
  }

  /** The size of the slot of a field: a map has a map field, a repeated message or string a
      repeated pointer field, any other repeated field a repeated field. */
  ghost predicate SizedFor(z: Sizes, f: Field, size: nat) {
    && (f.repeated && f.isMap && f.cppType == Message ==> size == z.dynamicMapField)
    && (f.repeated && !f.isMap && f.cppType == Message ==> size == z.repeatedPtrField)
    && (f.repeated && f.cppType == String ==> size == z.repeatedPtrField)
    && (f.repeated && f.cppType !in {Message, String} ==> size == z.repeatedField)
    && (!f.repeated && f.cppType in {Int64, UInt64, Double, Message, String} ==> size == 8)
    && (!f.repeated && f.cppType in {Int32, UInt32, Float, Enum} ==> size == 4)
    && (!f.repeated && f.cppType == Bool ==> size == 1)
  }

  /** How large each part is. */
  lemma {:induction false} PartSizes(d: Descriptor, z: Sizes, r: Region)
    requires ValidSizes(z) && IsRegion(d, r)
    ensures
      match r
      case Header => Length(d, z, r) == z.dynamicMessage
      case HasBits => LeastWords(Length(d, z, r), |Tracked(d, |d.fields|)|)
      case Cases => Length(d, z, r) == 4 * |Written(d, |d.oneofs|)|
      case Extensions => Length(d, z, r) == z.extensionSet
      case FieldAt(i) => SizedFor(z, d.fields[i], Length(d, z, r))
      case Slot(i) => Length(d, z, r) == 8
  {
    HasBitsAreLeast(d);
    WrittenCounted(d, |d.oneofs|);
  }

  /** A field is aligned to its size, at most to 8; all other parts are aligned to 8. */
  lemma {:induction false} PartAlignments(d: Descriptor, z: Sizes, r: Region)
    requires ValidSizes(z) && IsRegion(d, r)
    ensures RequiredAlignment(d, z, r) == if r.FieldAt? && Length(d, z, r) < 8 then Length(d, z, r) else 8
  {
  }

  // ----- that nothing but alignment separates them -----

  /** Where the next part may start: what comes before the fields is padded to 8. */
  ghost function Behind(d: Descriptor, z: Sizes, r: Region): nat
    requires ValidSizes(z) && IsRegion(d, r)
  {
    if r.FieldAt? || r.Slot? then End(d, z, r) else AlignTo(End(d, z, r), 8)
  }

  ghost function RegionOf(d: Descriptor, rank: nat): Region {
    if rank == 0 then Header
    else if rank == 1 then HasBits
    else if rank == 2 then Cases
    else if rank == 3 then Extensions
    else if rank < 4 + |d.fields| then FieldAt(rank - 4)
    else Slot(rank - 4 - |d.fields|)
  }

  /** The running size when all parts up to a rank are placed. */
  ghost function Running(d: Descriptor, z: Sizes, rank: nat): nat
    requires ValidSizes(z) && rank <= 4 + |d.fields| + |d.oneofs|
  {
    if rank == 0 then 0
    else if rank == 1 then AfterHeader(z)
    else if rank == 2 then AfterHasBits(d, z)
    else if rank == 3 then AfterCases(d, z)
    else if rank <= 4 + |d.fields| then FieldsEnd(d, z, rank - 4)
    else SlotsEnd(d, z, rank - 4 - |d.fields|)
  }

  lemma Placed(d: Descriptor, z: Sizes, rank: nat)
    requires ValidSizes(z) && rank < 4 + |d.fields| + |d.oneofs|
    ensures var r := RegionOf(d, rank);
      if IsRegion(d, r) then Rank(d, r) == rank && Running(d, z, rank + 1) == Behind(d, z, r)
      else Running(d, z, rank + 1) == Running(d, z, rank)
  {
    hide AlignTo, HasBitsSize, CasesSize, FieldSpaceUsed;
  }

  lemma StartsAt(d: Descriptor, z: Sizes, r: Region)
    requires ValidSizes(z) && IsRegion(d, r)
    ensures Rank(d, r) < 4 + |d.fields| + |d.oneofs| && RegionOf(d, Rank(d, r)) == r
    ensures Running(d, z, Rank(d, r)) <= Start(d, z, r) < Running(d, z, Rank(d, r)) + RequiredAlignment(d, z, r)
  {
    hide AlignTo, HasBitsSize, CasesSize, FieldSpaceUsed, AfterHeader, AfterHasBits, AfterCases, AfterExtensions;
    match r {
      case FieldAt(i) => AlignToBounds(FieldsEnd(d, z, i), FieldAlignment(z, d.fields[i]));
      case Slot(i) => AlignToBounds(SlotsEnd(d, z, i), SAFE_ALIGNMENT);
      case _ =>
    }
  }

  /** No part has a rank from m up to n. */
  ghost predicate NoneBetween(d: Descriptor, m: nat, n: nat) {
    forall r: Region :: IsRegion(d, r) ==> !(m <= Rank(d, r) < n)
  }

  lemma {:induction false} RunningKept(d: Descriptor, z: Sizes, m: nat, n: nat)
    requires ValidSizes(z) && m <= n <= 4 + |d.fields| + |d.oneofs| && NoneBetween(d, m, n)
    ensures Running(d, z, n) == Running(d, z, m)
    decreases n
  {
    hide Running, Behind;
    if m < n {
      RunningKept(d, z, m, n - 1);
      Placed(d, z, n - 1);
    }
  }

  /** A part starts less than its alignment behind the part before it. */
  lemma {:induction false} RegionsPacked(d: Descriptor, z: Sizes, a: Region, b: Region)
    requires ValidSizes(z) && IsRegion(d, a) && IsRegion(d, b)
    requires Rank(d, a) < Rank(d, b) && NoneBetween(d, Rank(d, a) + 1, Rank(d, b))
    ensures Behind(d, z, a) <= Start(d, z, b) < Behind(d, z, a) + RequiredAlignment(d, z, b)
  {
    hide *;
    StartsAt(d, z, a);
    StartsAt(d, z, b);
    Placed(d, z, Rank(d, a));
    RunningKept(d, z, Rank(d, a) + 1, Rank(d, b));
  }

  /** The message ends where the last part does. */
  lemma {:induction false} SizeIsTight(d: Descriptor, z: Sizes, last: Region)
    requires ValidSizes(z) && IsRegion(d, last)
    requires forall r: Region :: IsRegion(d, r) ==> Rank(d, r) <= Rank(d, last)
    ensures Size(d, z) == Behind(d, z, last)
  {
    hide Running, Behind, Rank, IsRegion;
    StartsAt(d, z, last);
    Placed(d, z, Rank(d, last));
    RunningKept(d, z, Rank(d, last) + 1, 4 + |d.fields| + |d.oneofs|);
    RunningIsSize(d, z);
  }

  lemma RunningIsSize(d: Descriptor, z: Sizes)
    requires ValidSizes(z)
    ensures Running(d, z, 4 + |d.fields| + |d.oneofs|) == Size(d, z)
  {
  }
}
