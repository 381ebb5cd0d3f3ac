/** EncodedDescriptorDatabase::DescriptorIndex: three tables, each split into a tree that takes
    insertions and a flat sorted vector that answers lookups, against one plain map per table. */
module EncodedIndex {
  import opened Symbols
  import opened OrderedTables
  import opened SymbolOrder
  import Simple = SimpleIndex

  type Option<T> = Simple.Option<T>

  // ----- descriptors, as far as the index reads them -----

  datatype FieldProto = FieldProto(name: string, extendee: string, number: int)
  datatype MessageProto = MessageProto(name: string, nested: seq<MessageProto>, extensions: seq<FieldProto>)
  datatype FileProto = FileProto(name: string, package: string, messages: seq<MessageProto>, enums: seq<string>,
                                 extensions: seq<FieldProto>, services: seq<string>)

  // ----- the stored entries -----

  /** `value` stands for the pair of pointer and size of the encoded file. */
  datatype EncodedEntry = EncodedEntry(value: int, package: string)
  datatype FileEntry = FileEntry(dataOffset: nat, encodedName: string)
  datatype SymbolEntry = SymbolEntry(dataOffset: nat, encodedSymbol: string)
  datatype ExtensionEntry = ExtensionEntry(dataOffset: nat, encodedExtendee: string, number: int)

  datatype Index = Index(
    values: seq<EncodedEntry>,
    byName: seq<FileEntry>, byNameFlat: seq<FileEntry>,
    bySymbol: seq<SymbolEntry>, bySymbolFlat: seq<SymbolEntry>,
    byExtension: seq<ExtensionEntry>, byExtensionFlat: seq<ExtensionEntry>)

  const EMPTY := Index([], [], [], [], [], [], [])

  function ValueAt(values: seq<EncodedEntry>, offset: nat): int {
    if offset < |values| then values[offset].value else 0
  }

  function PackageAt(values: seq<EncodedEntry>, offset: nat): string {
    if offset < |values| then values[offset].package else ""
  }

  function SymbolKeyOf(values: seq<EncodedEntry>, e: SymbolEntry): SymbolKey {
    Stored(PackageAt(values, e.dataOffset), e.encodedSymbol)
  }

  function FileName(e: FileEntry): string { e.encodedName }

  function ExtensionKey(e: ExtensionEntry): (string, int) {
    (if e.encodedExtendee == "" then "" else e.encodedExtendee[1..], e.number)
  }

  predicate PairLess(a: (string, int), b: (string, int)) {
    Less(a.0, b.0) || (a.0 == b.0 && a.1 < b.1)
  }

  predicate FileCompare(a: FileEntry, b: FileEntry) { Less(a.encodedName, b.encodedName) }
  predicate ExtensionCompare(a: ExtensionEntry, b: ExtensionEntry) { PairLess(ExtensionKey(a), ExtensionKey(b)) }
  function SymbolComparator(values: seq<EncodedEntry>): (SymbolEntry, SymbolEntry) -> bool {
    (a: SymbolEntry, b: SymbolEntry) => SymbolCompare(SymbolKeyOf(values, a), SymbolKeyOf(values, b))
  }

  function SortsAfter(values: seq<EncodedEntry>, key: SymbolKey): SymbolEntry -> bool {
    (e: SymbolEntry) => SymbolCompare(key, SymbolKeyOf(values, e))
  }

  function NameNotBefore(name: string): FileEntry -> bool {
    (e: FileEntry) => !Less(e.encodedName, name)
  }

  function ExtensionNotBefore(k: (string, int)): ExtensionEntry -> bool {
    (e: ExtensionEntry) => !PairLess(ExtensionKey(e), k)
  }

  // ----- the steps of AddFile -----

  /** std::binary_search: lower_bound, then a look at the element it stops at. */
  predicate NameInFlat(s: seq<FileEntry>, name: string) {
    var i := FirstWhere(s, NameNotBefore(name));
    i < |s| && !Less(name, s[i].encodedName)
  }

  predicate ExtensionKeyInFlat(s: seq<ExtensionEntry>, k: (string, int)) {
    var i := FirstWhere(s, ExtensionNotBefore(k));
    i < |s| && !PairLess(k, ExtensionKey(s[i]))
  }

  function NameAdded(x: Index, name: string): (bool, Index)
    requires x.values != []
  {
    var (ok, tree) := SetInsert(x.byName, FileEntry(|x.values| - 1, name), FileCompare);
    (ok && !NameInFlat(x.byNameFlat, name), x.(byName := tree))
  }

  /** FindLastLessOrEqual with the symbol comparator. */
  function Predecessor(values: seq<EncodedEntry>, s: seq<SymbolEntry>, key: SymbolKey): (i: nat)
    ensures i <= |s| && (i == |s| <==> s == [])
  {
    var u := FirstWhere(s, SortsAfter(values, key));
    if u != 0 then u - 1 else u
  }

  function DottedName(values: seq<EncodedEntry>, e: SymbolEntry): string {
    AsString(SymbolKeyOf(values, e))
  }

  predicate NoMutualSubsymbols(values: seq<EncodedEntry>, s: seq<SymbolEntry>, key: SymbolKey) {
    s != [] ==>
      var i := Predecessor(values, s, key);
      && !IsSubSymbol(DottedName(values, s[i]), AsString(key))
      && !(i + 1 < |s| && IsSubSymbol(AsString(key), DottedName(values, s[i + 1])))
  }

  ghost predicate SymbolAccepted(x: Index, symbol: string)
    requires x.values != []
  {
    var key := Stored(x.values[|x.values| - 1].package, symbol);
    && ValidName(symbol)
    && NoMutualSubsymbols(x.values, x.bySymbol, key)
    && NoMutualSubsymbols(x.values, x.bySymbolFlat, key)
  }

  function WithSymbol(x: Index, symbol: string): Index
    requires x.values != []
  {
    x.(bySymbol := SetInsert(x.bySymbol, SymbolEntry(|x.values| - 1, symbol), SymbolComparator(x.values)).1)
  }

  ghost function SymbolAdded(x: Index, symbol: string): (bool, Index)
    requires x.values != []
  {
    if SymbolAccepted(x, symbol) then (true, WithSymbol(x, symbol)) else (false, x)
  }

  predicate FullyQualified(extendee: string) {
    extendee != "" && extendee[0] == '.'
  }

  function ExtensionAdded(x: Index, extendee: string, number: int): (bool, Index)
    requires x.values != []
  {
    if FullyQualified(extendee) then
      var (ok, tree) := SetInsert(x.byExtension, ExtensionEntry(|x.values| - 1, extendee, number), ExtensionCompare);
      (ok && !ExtensionKeyInFlat(x.byExtensionFlat, (extendee[1..], number)), x.(byExtension := tree))
    else
      (true, x)
  }

  /** The index operations a file causes, in the order the loops of AddFile perform them. */
  datatype Op = Symbol(name: string) | Extension(extendee: string, number: int)

  function ExtensionOps(fields: seq<FieldProto>): seq<Op> {
    if fields == [] then [] else [Extension(fields[0].extendee, fields[0].number)] + ExtensionOps(fields[1..])
  }

  function NestedOps(m: MessageProto): seq<Op>
    decreases m, 1
  {
    AllNestedOps(m.nested) + ExtensionOps(m.extensions)
  }

  function AllNestedOps(ms: seq<MessageProto>): seq<Op>
    decreases ms, 0
  {
    if ms == [] then [] else NestedOps(ms[0]) + AllNestedOps(ms[1..])
  }

  function MessageOps(ms: seq<MessageProto>): seq<Op> {
    if ms == [] then [] else [Symbol(ms[0].name)] + NestedOps(ms[0]) + MessageOps(ms[1..])
  }

  function NameOps(names: seq<string>): seq<Op> {
    if names == [] then [] else [Symbol(names[0])] + NameOps(names[1..])
  }

  function TopExtensionOps(fields: seq<FieldProto>): seq<Op> {
    if fields == [] then []
    else [Symbol(fields[0].name), Extension(fields[0].extendee, fields[0].number)] + TopExtensionOps(fields[1..])
  }

  function FileOps(f: FileProto): seq<Op> {
    MessageOps(f.messages) + NameOps(f.enums) + TopExtensionOps(f.extensions) + NameOps(f.services)
  }

  ghost function Apply(x: Index, op: Op): (bool, Index)
    requires x.values != []
    ensures Apply(x, op).1.values == x.values
  {
    match op
    case Symbol(name) => SymbolAdded(x, name)
    case Extension(extendee, number) => ExtensionAdded(x, extendee, number)
  }

  /** Stops at the first operation that fails; what was done before it is not undone. */
  ghost function ApplyAll(x: Index, ops: seq<Op>): (r: (bool, Index))
    requires x.values != []
    ensures r.1.values == x.values
    decreases |ops|
  {
    if ops == [] then (true, x)
    else
      var (ok, x') := Apply(x, ops[0]);
      if ok then ApplyAll(x', ops[1..]) else (false, x')
  }

  ghost function FileAdded(x: Index, f: FileProto, value: int): (bool, Index) {
    var pushed := x.(values := x.values + [EncodedEntry(value, "")]);
    if !ValidName(f.package) then (false, pushed)
    else
      var (ok, named) := NameAdded(x.(values := x.values + [EncodedEntry(value, f.package)]), f.name);
      if !ok then (false, named) else ApplyAll(named, FileOps(f))
  }

  function Flatten(x: Index): Index {
    Index(x.values,
          [], Merge(x.byName, x.byNameFlat, FileCompare),
          [], Merge(x.bySymbol, x.bySymbolFlat, SymbolComparator(x.values)),
          [], Merge(x.byExtension, x.byExtensionFlat, ExtensionCompare))
  }

  // ----- lookups in the flat vectors -----

  function FileInFlat(x: Index, filename: string): Option<int> {
    var i := FirstWhere(x.byNameFlat, NameNotBefore(filename));
    if i == |x.byNameFlat| || x.byNameFlat[i].encodedName != filename then Simple.None
    else Simple.Some(ValueAt(x.values, x.byNameFlat[i].dataOffset))
  }

  function SymbolInFlat(x: Index, name: string): Option<int> {
    var s := x.bySymbolFlat;
    var i := Predecessor(x.values, s, Plain(name));
    if i != |s| && IsSubSymbol(DottedName(x.values, s[i]), name) then Simple.Some(ValueAt(x.values, s[i].dataOffset))
    else Simple.None
  }

  function ExtensionInFlat(x: Index, containingType: string, number: int): Option<int> {
    var s := x.byExtensionFlat;
    var i := FirstWhere(s, ExtensionNotBefore((containingType, number)));
    if i == |s| || ExtensionKey(s[i]).0 != containingType || s[i].number != number then Simple.None
    else Simple.Some(ValueAt(x.values, s[i].dataOffset))
  }

  lemma ApplyAllAppend(x: Index, ops: seq<Op>, more: seq<Op>)
    requires x.values != []
    ensures ApplyAll(x, ops + more)
      == if ApplyAll(x, ops).0 then ApplyAll(ApplyAll(x, ops).1, more) else ApplyAll(x, ops)
    decreases |ops|
  {
    if ops == [] {
      assert ops + more == more;
    } else {
      assert (ops + more)[1..] == ops[1..] + more;
      var (ok, x') := Apply(x, ops[0]);
      if ok { ApplyAllAppend(x', ops[1..], more); }
    }
  }

  class DescriptorIndex {
    var allValues: seq<EncodedEntry>
    var byName: seq<FileEntry>
    var byNameFlat: seq<FileEntry>
    var bySymbol: seq<SymbolEntry>
    var bySymbolFlat: seq<SymbolEntry>
    var byExtension: seq<ExtensionEntry>
    var byExtensionFlat: seq<ExtensionEntry>

    ghost function View(): Index
      reads this
    {
      Index(allValues, byName, byNameFlat, bySymbol, bySymbolFlat, byExtension, byExtensionFlat)
    }

    constructor ()
      ensures View() == EMPTY
    {
      allValues, byName, byNameFlat, bySymbol, bySymbolFlat, byExtension, byExtensionFlat := [], [], [], [], [], [], [];
    }

    method AddFile(file: FileProto, value: int) returns (ok: bool)
      modifies this
      ensures (ok, View()) == FileAdded(old(View()), file, value)
    {
      allValues := allValues + [EncodedEntry(value, "")];
      var valid := ValidateSymbolName(file.package);
      if !valid { return false; }
      allValues := allValues[|allValues| - 1 := EncodedEntry(value, file.package)];
      assert allValues == old(allValues) + [EncodedEntry(value, file.package)];
      ok := AddName(file.name);
      if !ok { return false; }
      hide ApplyAll, FileOps, NameAdded, ValidName;
      ok := AddContents(file);
    }

    /** The name step of AddFile: the name stays in the tree when the flat vector has it. */
    method AddName(name: string) returns (ok: bool)
      requires allValues != []
      modifies this
      ensures (ok, View()) == NameAdded(old(View()), name)
    {
      var (inserted, tree) := SetInsert(byName, FileEntry(|allValues| - 1, name), FileCompare);
      byName := tree;
      return inserted && !NameInFlat(byNameFlat, name);
    }

    /** The four loops of AddFile. */
    method AddContents(file: FileProto) returns (ok: bool)
      requires allValues != []
      modifies this
      ensures (ok, View()) == ApplyAll(old(View()), FileOps(file))
    {
      hide ApplyAll;
      ghost var rest := TopExtensionOps(file.extensions) + NameOps(file.services);
      assert FileOps(file) == MessageOps(file.messages) + (NameOps(file.enums) + rest);
      hide FileOps, MessageOps, NameOps, TopExtensionOps;
      ApplyAllAppend(View(), MessageOps(file.messages), NameOps(file.enums) + rest);
      ok := AddMessages(file.messages);
      if !ok { return false; }
      ApplyAllAppend(View(), NameOps(file.enums), rest);
      ok := AddSymbols(file.enums);
      if !ok { return false; }
      ApplyAllAppend(View(), TopExtensionOps(file.extensions), NameOps(file.services));
      ok := AddExtensions(file.extensions);
      if !ok { return false; }
      ok := AddSymbols(file.services);
    }

    /** The loop of AddFile over the messages of a file. */
    method AddMessages(messages: seq<MessageProto>) returns (ok: bool)
      requires allValues != []
      modifies this
      ensures (ok, View()) == ApplyAll(old(View()), MessageOps(messages))
    {
      ghost var all := ApplyAll(View(), MessageOps(messages));
      for i := 0 to |messages|
        invariant allValues == old(allValues)
        invariant ApplyAll(View(), MessageOps(messages[i..])) == all
      {
        assert messages[i..][1..] == messages[i + 1..];
        ghost var rest := MessageOps(messages[i + 1..]);
        assert MessageOps(messages[i..]) == [Symbol(messages[i].name)] + (NestedOps(messages[i]) + rest);
        ok := AddSymbol(messages[i].name);
        if !ok { return false; }
        ApplyAllAppend(View(), NestedOps(messages[i]), rest);
        ok := AddNestedExtensions(messages[i]);
        if !ok { return false; }
      }
      return true;
    }

    /** The loops of AddFile over enums and over services. */
    method AddSymbols(names: seq<string>) returns (ok: bool)
      requires allValues != []
      modifies this
      ensures (ok, View()) == ApplyAll(old(View()), NameOps(names))
    {
      ghost var all := ApplyAll(View(), NameOps(names));
      for i := 0 to |names|
        invariant allValues == old(allValues)
        invariant ApplyAll(View(), NameOps(names[i..])) == all
      {
        assert names[i..][1..] == names[i + 1..];
        assert NameOps(names[i..]) == [Symbol(names[i])] + NameOps(names[i + 1..]);
        ok := AddSymbol(names[i]);
        if !ok { return false; }
      }
      return true;
    }

    /** The loop of AddFile over top-level extensions. */
    method AddExtensions(fields: seq<FieldProto>) returns (ok: bool)
      requires allValues != []
      modifies this
      ensures (ok, View()) == ApplyAll(old(View()), TopExtensionOps(fields))
    {
      ghost var all := ApplyAll(View(), TopExtensionOps(fields));
      for i := 0 to |fields|
        invariant allValues == old(allValues)
        invariant ApplyAll(View(), TopExtensionOps(fields[i..])) == all
      {
        assert fields[i..][1..] == fields[i + 1..];
        ghost var rest := TopExtensionOps(fields[i + 1..]);
        ghost var second := [Extension(fields[i].extendee, fields[i].number)] + rest;
        assert TopExtensionOps(fields[i..]) == [Symbol(fields[i].name)] + second;
        ok := AddSymbol(fields[i].name);
        if !ok { return false; }
        assert second[1..] == rest;
        ok := AddExtension(fields[i]);
        if !ok { return false; }
      }
      return true;
    }

    method CheckForMutualSubsymbols(s: seq<SymbolEntry>, key: SymbolKey) returns (ok: bool)
      ensures ok <==> NoMutualSubsymbols(allValues, s, key)
    {
      hide IsSubSymbol, DottedName, AsString;
      var iter := Predecessor(allValues, s, key);
      if iter == |s| { return true; }
      if IsSubSymbol(DottedName(allValues, s[iter]), AsString(key)) { return false; }
      iter := iter + 1;
      return !(iter != |s| && IsSubSymbol(AsString(key), DottedName(allValues, s[iter])));
    }

    method AddSymbol(symbol: string) returns (ok: bool)
      requires allValues != []
      modifies this
      ensures (ok, View()) == SymbolAdded(old(View()), symbol)
    {
      hide NoMutualSubsymbols, SetInsert, SymbolComparator, ValidName;
      var entry := SymbolEntry(|allValues| - 1, symbol);
      var key := SymbolKeyOf(allValues, entry);
      var valid := ValidateSymbolName(symbol);
      if !valid { return false; }
      var noneInTree := CheckForMutualSubsymbols(bySymbol, key);
      if !noneInTree { return false; }
      var noneInFlat := CheckForMutualSubsymbols(bySymbolFlat, key);
      if !noneInFlat { return false; }
      assert SymbolAccepted(View(), symbol);
      bySymbol := SetInsert(bySymbol, entry, SymbolComparator(allValues)).1;
      return true;
    }

    method AddNestedExtensions(message: MessageProto) returns (ok: bool)
      requires allValues != []
      modifies this
      ensures (ok, View()) == ApplyAll(old(View()), NestedOps(message))
      decreases message
    {
      ApplyAllAppend(View(), AllNestedOps(message.nested), ExtensionOps(message.extensions));
      ghost var nested := ApplyAll(View(), AllNestedOps(message.nested));
      for i := 0 to |message.nested|
        invariant allValues == old(allValues)
        invariant ApplyAll(View(), AllNestedOps(message.nested[i..])) == nested
      {
        assert message.nested[i..][1..] == message.nested[i + 1..];
        ApplyAllAppend(View(), NestedOps(message.nested[i]), AllNestedOps(message.nested[i + 1..]));
        ok := AddNestedExtensions(message.nested[i]);
        if !ok { return false; }
      }
      ghost var all := ApplyAll(View(), ExtensionOps(message.extensions));
      for i := 0 to |message.extensions|
        invariant allValues == old(allValues)
        invariant ApplyAll(View(), ExtensionOps(message.extensions[i..])) == all
      {
        assert message.extensions[i..][1..] == message.extensions[i + 1..];
        ok := AddExtension(message.extensions[i]);
        if !ok { return false; }
      }
      return true;
    }

    method AddExtension(field: FieldProto) returns (ok: bool)
      requires allValues != []
      modifies this
      ensures (ok, View()) == ExtensionAdded(old(View()), field.extendee, field.number)
    {
      hide SetInsert, ExtensionKeyInFlat;
      if FullyQualified(field.extendee) {
        var (inserted, tree) := SetInsert(byExtension, ExtensionEntry(|allValues| - 1, field.extendee, field.number),
                                          ExtensionCompare);
        byExtension := tree;
        if !inserted || ExtensionKeyInFlat(byExtensionFlat, (field.extendee[1..], field.number)) {
          return false;
        }
      }
      return true;
    }

    method EnsureFlat()
      modifies this
      ensures View() == Flatten(old(View()))
    {
      byName, byNameFlat := MergeIntoFlat(byName, byNameFlat, FileCompare);
      bySymbol, bySymbolFlat := MergeIntoFlat(bySymbol, bySymbolFlat, SymbolComparator(allValues));
      byExtension, byExtensionFlat := MergeIntoFlat(byExtension, byExtensionFlat, ExtensionCompare);
    }

    method FindFile(filename: string) returns (r: Option<int>)
      modifies this
      ensures View() == Flatten(old(View())) && r == FileInFlat(View(), filename)
    {
      EnsureFlat();
      var it := FirstWhere(byNameFlat, NameNotBefore(filename));
      if it == |byNameFlat| || byNameFlat[it].encodedName != filename {
        r := Simple.None;
      } else {
        r := Simple.Some(ValueAt(allValues, byNameFlat[it].dataOffset));
      }
    }

    method FindSymbol(name: string) returns (r: Option<int>)
      modifies this
      ensures View() == Flatten(old(View())) && r == SymbolInFlat(View(), name)
    {
      EnsureFlat();
      r := FindSymbolOnlyFlat(name);
    }

    method FindSymbolOnlyFlat(name: string) returns (r: Option<int>)
      ensures r == SymbolInFlat(View(), name)
    {
      var iter := Predecessor(allValues, bySymbolFlat, Plain(name));
      if iter != |bySymbolFlat| && IsSubSymbol(DottedName(allValues, bySymbolFlat[iter]), name) {
        r := Simple.Some(ValueAt(allValues, bySymbolFlat[iter].dataOffset));
      } else {
        r := Simple.None;
      }
    }

    method FindExtension(containingType: string, number: int) returns (r: Option<int>)
      modifies this
      ensures View() == Flatten(old(View())) && r == ExtensionInFlat(View(), containingType, number)
    {
      EnsureFlat();
      var it := FirstWhere(byExtensionFlat, ExtensionNotBefore((containingType, number)));
      if it == |byExtensionFlat|
        || ExtensionKey(byExtensionFlat[it]).0 != containingType || byExtensionFlat[it].number != number
      {
        r := Simple.None;
      } else {
        r := Simple.Some(ValueAt(allValues, byExtensionFlat[it].dataOffset));
      }
    }
  }
}
