/** Over every run of successful adds and of lookups, the encoded index answers as one plain map
    per table would. */
module EncodedRefinement {
  import opened Symbols
  import opened OrderedTables
  import opened SymbolOrder
  import opened EncodedIndex
  import Simple = SimpleIndex

  // ----- the plain form -----

  datatype PlainMaps = PlainMaps(files: map<string, int>, symbols: map<string, int>, extensions: map<(string, int),
                                 int>)

  const EMPTY_PLAIN := PlainMaps(map[], map[], map[])

  ghost function PlainOp(p: PlainMaps, package: string, op: Op, value: int): PlainMaps {
    match op
    case Symbol(name) => p.(symbols := p.symbols[AsString(Stored(package, name)) := value])
    case Extension(extendee, number) =>
      if FullyQualified(extendee) then p.(extensions := p.extensions[(extendee[1..], number) := value]) else p
  }

  ghost function PlainOps(p: PlainMaps, package: string, ops: seq<Op>, value: int): PlainMaps
    decreases |ops|
  {
    if ops == [] then p else PlainOps(PlainOp(p, package, ops[0], value), package, ops[1..], value)
  }

  ghost function PlainFile(p: PlainMaps, f: FileProto, value: int): PlainMaps {
    PlainOps(p.(files := p.files[f.name := value]), f.package, FileOps(f), value)
  }

  // ----- the refinement relation -----

  function SymbolName(values: seq<EncodedEntry>): SymbolEntry -> string {
    (e: SymbolEntry) => DottedName(values, e)
  }
  function FileValue(values: seq<EncodedEntry>): FileEntry -> int {
    (e: FileEntry) => ValueAt(values, e.dataOffset)
  }
  function SymbolValue(values: seq<EncodedEntry>): SymbolEntry -> int {
    (e: SymbolEntry) => ValueAt(values, e.dataOffset)
  }
  function ExtensionValue(values: seq<EncodedEntry>): ExtensionEntry -> int {
    (e: ExtensionEntry) => ValueAt(values, e.dataOffset)
  }

  ghost predicate InRange(x: Index) {
    && (forall e :: e in x.byName || e in x.byNameFlat ==> e.dataOffset < |x.values|)
    && (forall e :: e in x.bySymbol || e in x.bySymbolFlat ==> e.dataOffset < |x.values|)
    && (forall e :: e in x.byExtension || e in x.byExtensionFlat ==> e.dataOffset < |x.values|)
  }

  ghost predicate Named(values: seq<EncodedEntry>, s: seq<SymbolEntry>) {
    forall e :: e in s ==> e.encodedSymbol != "" && ValidName(DottedName(values, e))
  }

  ghost predicate FilesHold(x: Index, p: PlainMaps) {
    Holds(x.byName, x.byNameFlat, FileName, FileValue(x.values), Less, p.files)
  }
  ghost predicate SymbolsHold(x: Index, p: PlainMaps) {
    && Holds(x.bySymbol, x.bySymbolFlat, SymbolName(x.values), SymbolValue(x.values), Less, p.symbols)
    && Named(x.values, x.bySymbol) && Named(x.values, x.bySymbolFlat)
  }
  ghost predicate ExtensionsHold(x: Index, p: PlainMaps) {
    Holds(x.byExtension, x.byExtensionFlat, ExtensionKey, ExtensionValue(x.values), PairLess, p.extensions)
  }

  ghost predicate Refines(x: Index, p: PlainMaps) {
    InRange(x) && FilesHold(x, p) && SymbolsHold(x, p) && ExtensionsHold(x, p)
  }

  // ----- the orders -----

  lemma NameOrderIsTotal()
    ensures TotalOrder(Less)
  {
    forall a: string ensures !Less(a, a) { LessIrreflexive(a); }
    forall a: string, b: string, c: string | Less(a, b) && Less(b, c) ensures Less(a, c) { LessTransitive(a, b, c); }
    forall a: string, b: string ensures Less(a, b) || a == b || Less(b, a) { LessTotal(a, b); }
  }

  lemma PairOrderIsTotal()
    ensures TotalOrder(PairLess)
  {
    NameOrderIsTotal();
    forall a: (string, int), b: (string, int), c: (string, int) | PairLess(a, b) && PairLess(b, c)
      ensures PairLess(a, c)
    {
      assert a.0 == b.0 || b.0 == c.0 || Less(a.0, c.0);
    }
    forall a: (string, int), b: (string, int) ensures PairLess(a, b) || a == b || PairLess(b, a) {
      assert Less(a.0, b.0) || a.0 == b.0 || Less(b.0, a.0);
    }
  }

  lemma SymbolsAgree(values: seq<EncodedEntry>, s: seq<SymbolEntry>)
    requires forall e :: e in s ==> e.encodedSymbol != ""
    ensures Agrees(s, SymbolComparator(values), SymbolName(values), Less)
  {
    forall a, b | a in s && b in s
      ensures SymbolComparator(values)(a, b) <==> Less(SymbolName(values)(a), SymbolName(values)(b))
    {
      CompareIsNameOrder(SymbolKeyOf(values, a), SymbolKeyOf(values, b));
    }
  }

  // ----- steps -----

  /** Pushing a value onto all_values_ disturbs nothing stored before. */
  lemma PushRefines(x: Index, p: PlainMaps, entry: EncodedEntry)
    requires Refines(x, p)
    ensures Refines(x.(values := x.values + [entry]), p)
  {
    var values := x.values + [entry];
    HoldsFrame(x.byName, x.byNameFlat, FileName, FileValue(x.values), FileName, FileValue(values), Less, p.files);
    HoldsFrame(x.bySymbol, x.bySymbolFlat, SymbolName(x.values), SymbolValue(x.values), SymbolName(values),
               SymbolValue(values), Less, p.symbols);
    HoldsFrame(x.byExtension, x.byExtensionFlat, ExtensionKey, ExtensionValue(x.values), ExtensionKey,
               ExtensionValue(values), PairLess, p.extensions);
    assert forall e :: e in x.bySymbol || e in x.bySymbolFlat ==> DottedName(values, e) == DottedName(x.values, e);
  }

  lemma NameIsNew(x: Index, p: PlainMaps, name: string)
    requires x.values != [] && FilesHold(x, p) && NameAdded(x, name).0
    ensures forall y :: y in x.byName || y in x.byNameFlat ==> FileName(y) != name
    ensures var entry, tree := FileEntry(|x.values| - 1, name), NameAdded(x, name).1.byName;
      Ordered(tree, FileName, Less) && forall y :: y in tree <==> y in x.byName || y == entry
  {
    hide SetInsert, Less;
    NameOrderIsTotal();
    var entry := FileEntry(|x.values| - 1, name);
    assert Agrees(x.byName + [entry], FileCompare, FileName, Less);
    SetInsertOrdered(x.byName, entry, FileCompare, FileName, Less);
    LowerBoundHit(x.byNameFlat, FileName, Less, name, FirstWhere(x.byNameFlat, NameNotBefore(name)));
  }

  lemma {:induction false} NameAddedRefines(x: Index, p: PlainMaps, name: string)
    requires x.values != [] && Refines(x, p) && NameAdded(x, name).0
    ensures name !in p.files
    ensures Refines(NameAdded(x, name).1, p.(files := p.files[name := x.values[|x.values| - 1].value]))
  {
    var entry := FileEntry(|x.values| - 1, name);
    var tree := NameAdded(x, name).1.byName;
    NameIsNew(x, p, name);
    InsertHolds(x.byName, x.byNameFlat, entry, tree, FileName, FileValue(x.values), Less, p.files);
  }

  /** An accepted symbol equals no stored one: the predecessor search would have found it. */
  lemma AcceptedIsNew(values: seq<EncodedEntry>, s: seq<SymbolEntry>, key: SymbolKey)
    requires Ordered(s, SymbolName(values), Less) && Indexable(key)
    requires forall e :: e in s ==> e.encodedSymbol != ""
    requires NoMutualSubsymbols(values, s, key)
    ensures forall e :: e in s ==> DottedName(values, e) != AsString(key)
  {
    forall e | e in s ensures DottedName(values, e) != AsString(key) {
      var j :| 0 <= j < |s| && s[j] == e;
      var u := FirstWhere(s, SortsAfter(values, key));
      CompareIsNameOrder(key, SymbolKeyOf(values, e));
      LessIrreflexive(AsString(key));
      if u < |s| { CompareIsNameOrder(key, SymbolKeyOf(values, s[u])); }
      if u <= j {
        if u < j { assert Less(SymbolName(values)(s[u]), SymbolName(values)(s[j])); }
        if DottedName(values, e) == AsString(key) { LessAsymmetric(AsString(key), DottedName(values, s[u])); }
      } else {
        CompareIsNameOrder(key, SymbolKeyOf(values, s[u - 1]));
        if j < u - 1 { assert Less(SymbolName(values)(s[j]), SymbolName(values)(s[u - 1])); }
      }
    }
  }

  lemma SymbolIsNew(x: Index, p: PlainMaps, symbol: string)
    requires x.values != [] && SymbolsHold(x, p) && symbol != "" && SymbolAccepted(x, symbol)
    ensures NewName(x, SymbolEntry(|x.values| - 1, symbol))
  {
    hide NoMutualSubsymbols, Less;
    var key := Stored(x.values[|x.values| - 1].package, symbol);
    AcceptedIsNew(x.values, x.bySymbol, key);
    AcceptedIsNew(x.values, x.bySymbolFlat, key);
  }

  ghost predicate NewName(x: Index, entry: SymbolEntry) {
    forall y :: y in x.bySymbol || y in x.bySymbolFlat ==> SymbolName(x.values)(y) != SymbolName(x.values)(entry)
  }

  lemma NewSymbolInserted(x: Index, p: PlainMaps, symbol: string)
    requires x.values != [] && SymbolsHold(x, p) && symbol != "" && NewName(x, SymbolEntry(|x.values| - 1, symbol))
    ensures var entry, tree := SymbolEntry(|x.values| - 1, symbol), WithSymbol(x, symbol).bySymbol;
      Ordered(tree, SymbolName(x.values), Less) && forall y :: y in tree <==> y in x.bySymbol || y == entry
  {
    hide SetInsert, SymbolComparator, SymbolName, Less;
    NameOrderIsTotal();
    var entry := SymbolEntry(|x.values| - 1, symbol);
    SymbolsAgree(x.values, x.bySymbol + [entry]);
    SetInsertOrdered(x.bySymbol, entry, SymbolComparator(x.values), SymbolName(x.values), Less);
  }

  lemma DottedNameValid(package: string, symbol: string)
    requires ValidName(package) && ValidName(symbol)
    ensures ValidName(AsString(Stored(package, symbol)))
  {
  }

  lemma NamedGrows(values: seq<EncodedEntry>, s: seq<SymbolEntry>, tree: seq<SymbolEntry>, entry: SymbolEntry)
    requires Named(values, s) && forall y :: y in tree <==> y in s || y == entry
    requires entry.encodedSymbol != "" && ValidName(DottedName(values, entry))
    ensures Named(values, tree)
  {
    hide ValidName, DottedName;
  }

  lemma NewSymbolHolds(x: Index, p: PlainMaps, symbol: string)
    requires x.values != [] && SymbolsHold(x, p) && symbol != "" && NewName(x, SymbolEntry(|x.values| - 1, symbol))
    requires ValidName(AsString(Stored(x.values[|x.values| - 1].package, symbol)))
    ensures var last := x.values[|x.values| - 1];
      && AsString(Stored(last.package, symbol)) !in p.symbols
      && SymbolsHold(WithSymbol(x, symbol), PlainOp(p, last.package, Symbol(symbol), last.value))
  {
    var values := x.values;
    var entry := SymbolEntry(|values| - 1, symbol);
    var tree := WithSymbol(x, symbol).bySymbol;
    NewSymbolInserted(x, p, symbol);
    assert SymbolName(values)(entry) == AsString(Stored(values[|values| - 1].package, symbol));
    hide AsString, ValidName, Less, Ordered, SetInsert;
    InsertHolds(x.bySymbol, x.bySymbolFlat, entry, tree, SymbolName(values), SymbolValue(values), Less, p.symbols);
    hide Holds, WithSymbol, SymbolName;
    NamedGrows(values, x.bySymbol, tree, entry);
  }

  lemma NewSymbolFrame(x: Index, p: PlainMaps, symbol: string)
    requires x.values != [] && InRange(x) && FilesHold(x, p) && ExtensionsHold(x, p)
    requires var entry := SymbolEntry(|x.values| - 1, symbol);
      forall y :: y in WithSymbol(x, symbol).bySymbol <==> y in x.bySymbol || y == entry
    ensures var last, x' := x.values[|x.values| - 1], WithSymbol(x, symbol);
      var p' := PlainOp(p, last.package, Symbol(symbol), last.value);
      InRange(x') && FilesHold(x', p') && ExtensionsHold(x', p')
  {
    hide Holds, SetInsert, AsString;
  }

  lemma NewSymbolRefines(x: Index, p: PlainMaps, symbol: string)
    requires x.values != [] && Refines(x, p) && symbol != "" && NewName(x, SymbolEntry(|x.values| - 1, symbol))
    requires ValidName(AsString(Stored(x.values[|x.values| - 1].package, symbol)))
    ensures var last := x.values[|x.values| - 1];
      && AsString(Stored(last.package, symbol)) !in p.symbols
      && Refines(WithSymbol(x, symbol), PlainOp(p, last.package, Symbol(symbol), last.value))
  {
    hide SymbolsHold, FilesHold, ExtensionsHold, InRange, WithSymbol, PlainOp, AsString, ValidName, NewName;
    NewSymbolHolds(x, p, symbol);
    NewSymbolInserted(x, p, symbol);
    NewSymbolFrame(x, p, symbol);
  }

  lemma {:induction false} SymbolAddedRefines(x: Index, p: PlainMaps, symbol: string)
    requires x.values != [] && Refines(x, p) && symbol != "" && SymbolAdded(x, symbol).0
    requires ValidName(x.values[|x.values| - 1].package)
    ensures var last := x.values[|x.values| - 1];
      && AsString(Stored(last.package, symbol)) !in p.symbols
      && Refines(SymbolAdded(x, symbol).1, PlainOp(p, last.package, Symbol(symbol), last.value))
  {
    SymbolIsNew(x, p, symbol);
    DottedNameValid(x.values[|x.values| - 1].package, symbol);
    NewSymbolRefines(x, p, symbol);
  }

  ghost predicate NewExtension(x: Index, entry: ExtensionEntry) {
    forall y :: y in x.byExtension || y in x.byExtensionFlat ==> ExtensionKey(y) != ExtensionKey(entry)
  }

  lemma ExtensionInserted(x: Index, p: PlainMaps, extendee: string, number: int)
    requires x.values != [] && ExtensionsHold(x, p) && FullyQualified(extendee) && ExtensionAdded(x, extendee, number).0
    ensures var entry := ExtensionEntry(|x.values| - 1, extendee, number);
      var tree := ExtensionAdded(x, extendee, number).1.byExtension;
      && (forall y :: y in x.byExtension ==> ExtensionKey(y) != ExtensionKey(entry))
      && Ordered(tree, ExtensionKey, PairLess) && forall y :: y in tree <==> y in x.byExtension || y == entry
  {
    hide SetInsert, Less;
    PairOrderIsTotal();
    var entry := ExtensionEntry(|x.values| - 1, extendee, number);
    assert Agrees(x.byExtension + [entry], ExtensionCompare, ExtensionKey, PairLess);
    SetInsertOrdered(x.byExtension, entry, ExtensionCompare, ExtensionKey, PairLess);
  }

  lemma ExtensionIsNew(x: Index, p: PlainMaps, extendee: string, number: int)
    requires x.values != [] && ExtensionsHold(x, p) && FullyQualified(extendee) && ExtensionAdded(x, extendee, number).0
    ensures NewExtension(x, ExtensionEntry(|x.values| - 1, extendee, number))
  {
    ExtensionInserted(x, p, extendee, number);
    hide SetInsert, Less, PairLess;
    PairOrderIsTotal();
    var k := (extendee[1..], number);
    LowerBoundHit(x.byExtensionFlat, ExtensionKey, PairLess, k, FirstWhere(x.byExtensionFlat, ExtensionNotBefore(k)));
  }

  lemma NewExtensionRefines(x: Index, p: PlainMaps, entry: ExtensionEntry, tree: seq<ExtensionEntry>)
    requires Refines(x, p) && x.values != [] && entry.dataOffset == |x.values| - 1 && NewExtension(x, entry)
    requires Ordered(tree, ExtensionKey, PairLess) && forall y :: y in tree <==> y in x.byExtension || y == entry
    ensures ExtensionKey(entry) !in p.extensions
    ensures Refines(x.(byExtension := tree),
                    p.(extensions := p.extensions[ExtensionKey(entry) := x.values[|x.values| - 1].value]))
  {
    hide Less, PairLess, SymbolsHold, FilesHold, Ordered;
    InsertHolds(x.byExtension, x.byExtensionFlat, entry, tree, ExtensionKey, ExtensionValue(x.values), PairLess,
                p.extensions);
    hide Holds;
    var x' := x.(byExtension := tree);
    var p' := p.(extensions := p.extensions[ExtensionKey(entry) := x.values[|x.values| - 1].value]);
    assert FilesHold(x', p') && SymbolsHold(x', p') by { PartsUnchanged(x, p, tree, p'.extensions); }
  }

  lemma PartsUnchanged(x: Index, p: PlainMaps, tree: seq<ExtensionEntry>, extensions: map<(string, int), int>)
    ensures FilesHold(x.(byExtension := tree), p.(extensions := extensions)) <==> FilesHold(x, p)
    ensures SymbolsHold(x.(byExtension := tree), p.(extensions := extensions)) <==> SymbolsHold(x, p)
  {
    hide Holds, Named;
  }

  lemma {:induction false} ExtensionAddedRefines(x: Index, p: PlainMaps, extendee: string, number: int)
    requires x.values != [] && Refines(x, p) && ExtensionAdded(x, extendee, number).0
    ensures FullyQualified(extendee) ==> (extendee[1..], number) !in p.extensions
    ensures var last := x.values[|x.values| - 1];
      Refines(ExtensionAdded(x, extendee, number).1, PlainOp(p, last.package, Extension(extendee, number), last.value))
  {
    if FullyQualified(extendee) {
      ExtensionInserted(x, p, extendee, number);
      ExtensionIsNew(x, p, extendee, number);
      hide SetInsert, PairLess, Refines, Ordered, ExtensionKeyInFlat, NewExtension;
      var entry := ExtensionEntry(|x.values| - 1, extendee, number);
      NewExtensionRefines(x, p, entry, ExtensionAdded(x, extendee, number).1.byExtension);
    }
  }

  ghost predicate NonEmptySymbols(ops: seq<Op>) {
    forall i :: 0 <= i < |ops| && ops[i].Symbol? ==> ops[i].name != ""
  }

  lemma NonEmptyParts(ops: seq<Op>)
    requires NonEmptySymbols(ops) && ops != []
    ensures NonEmptySymbols([ops[0]]) && NonEmptySymbols(ops[1..])
  {
  }

  lemma ApplyRefines(x: Index, p: PlainMaps, op: Op)
    requires x.values != [] && Refines(x, p) && Apply(x, op).0 && NonEmptySymbols([op])
    requires ValidName(x.values[|x.values| - 1].package)
    ensures var last := x.values[|x.values| - 1];
      Refines(Apply(x, op).1, PlainOp(p, last.package, op, last.value))
  {
    assert op.Symbol? ==> [op][0].name != "";
    hide Refines, SymbolAdded, ExtensionAdded, AsString, ValidName, PlainOp;
    match op {
      case Symbol(name) => SymbolAddedRefines(x, p, name);
      case Extension(extendee, number) => ExtensionAddedRefines(x, p, extendee, number);
    }
  }

  lemma OpsStep(x: Index, p: PlainMaps, ops: seq<Op>, package: string, value: int)
    requires x.values != [] && ops != [] && ApplyAll(x, ops).0
    ensures Apply(x, ops[0]).0 && ApplyAll(x, ops) == ApplyAll(Apply(x, ops[0]).1, ops[1..])
    ensures PlainOps(p, package, ops, value) == PlainOps(PlainOp(p, package, ops[0], value), package, ops[1..], value)
  {
    hide Apply, PlainOp;
  }

  lemma {:induction false} ApplyAllRefines(x: Index, p: PlainMaps, ops: seq<Op>)
    requires x.values != [] && Refines(x, p) && ApplyAll(x, ops).0 && NonEmptySymbols(ops)
    requires ValidName(x.values[|x.values| - 1].package)
    ensures var last := x.values[|x.values| - 1];
      Refines(ApplyAll(x, ops).1, PlainOps(p, last.package, ops, last.value))
    decreases |ops|
  {
    hide Refines, ValidName, Apply, PlainOp, NonEmptySymbols;
    if ops != [] {
      NonEmptyParts(ops);
      hide *;
      var last := x.values[|x.values| - 1];
      OpsStep(x, p, ops, last.package, last.value);
      ApplyRefines(x, p, ops[0]);
      ApplyAllRefines(Apply(x, ops[0]).1, PlainOp(p, last.package, ops[0], last.value), ops[1..]);
    }
  }

  /** A successful AddFile adds to the plain maps exactly the file's name, symbols and
      fully-qualified extensions. */
  lemma {:induction false} FileAddedRefines(x: Index, p: PlainMaps, f: FileProto, value: int)
    requires Refines(x, p) && FileAdded(x, f, value).0 && NonEmptySymbols(FileOps(f))
    ensures f.name !in p.files && Refines(FileAdded(x, f, value).1, PlainFile(p, f, value))
  {
    var entry := EncodedEntry(value, f.package);
    var pushed := x.(values := x.values + [entry]);
    PushRefines(x, p, entry);
    NameAddedRefines(pushed, p, f.name);
    ApplyAllRefines(NameAdded(pushed, f.name).1, p.(files := p.files[f.name := value]), FileOps(f));
  }

  /** EnsureFlat changes no answer, and leaves every flat vector strictly sorted. */
  lemma {:induction false} FlattenRefines(x: Index, p: PlainMaps)
    requires Refines(x, p)
    ensures Refines(Flatten(x), p)
  {
    NameOrderIsTotal();
    PairOrderIsTotal();
    var cmp := SymbolComparator(x.values);
    SymbolsAgree(x.values, x.bySymbol + x.bySymbolFlat);
    assert Agrees(x.byName + x.byNameFlat, FileCompare, FileName, Less);
    assert Agrees(x.byExtension + x.byExtensionFlat, ExtensionCompare, ExtensionKey, PairLess);
    FlattenHolds(x.byName, x.byNameFlat, FileCompare, FileName, FileValue(x.values), Less, p.files);
    FlattenHolds(x.bySymbol, x.bySymbolFlat, cmp, SymbolName(x.values), SymbolValue(x.values), Less, p.symbols);
    FlattenHolds(x.byExtension, x.byExtensionFlat, ExtensionCompare, ExtensionKey, ExtensionValue(x.values), PairLess,
                 p.extensions);
    forall e { MergeMembers(x.byName, x.byNameFlat, FileCompare, e); }
    forall e { MergeMembers(x.bySymbol, x.bySymbolFlat, cmp, e); }
    forall e { MergeMembers(x.byExtension, x.byExtensionFlat, ExtensionCompare, e); }
  }

  // ----- lookups -----

  /** The answer of a plain map. */
  function Answer<K>(m: map<K, int>, k: K): Option<int> {
    if k in m then Simple.Some(m[k]) else Simple.None
  }

  lemma {:induction false} FindFileAnswers(x: Index, p: PlainMaps, filename: string)
    requires Refines(x, p)
    ensures FileInFlat(Flatten(x), filename) == Answer(p.files, filename)
  {
    NameOrderIsTotal();
    FlattenRefines(x, p);
    var flat := Flatten(x).byNameFlat;
    LowerBoundHit(flat, FileName, Less, filename, FirstWhere(flat, NameNotBefore(filename)));
  }

  lemma {:induction false} FindExtensionAnswers(x: Index, p: PlainMaps, containingType: string, number: int)
    requires Refines(x, p)
    ensures ExtensionInFlat(Flatten(x), containingType, number) == Answer(p.extensions, (containingType, number))
  {
    PairOrderIsTotal();
    FlattenRefines(x, p);
    var k := (containingType, number);
    var flat := Flatten(x).byExtensionFlat;
    LowerBoundHit(flat, ExtensionKey, PairLess, k, FirstWhere(flat, ExtensionNotBefore(k)));
  }

  /** The flat symbol vector read as the table of the simple index. */
  ghost function TableOf(values: seq<EncodedEntry>, s: seq<SymbolEntry>): Simple.Table<int> {
    seq(|s|, i requires 0 <= i < |s| => Simple.Entry(DottedName(values, s[i]), ValueAt(values, s[i].dataOffset)))
  }

  ghost predicate PlainPrefixFree(symbols: map<string, int>) {
    forall a, b :: a in symbols && b in symbols && IsSubSymbol(a, b) ==> a == b
  }

  lemma {:induction false} UpperBoundUnique(t: Simple.Table<int>, key: string, u: nat)
    requires u <= |t| && (forall i :: 0 <= i < u ==> !Less(key, t[i].name)) && (u < |t| ==> Less(key, t[u].name))
    ensures u == Simple.UpperBound(t, key)
  {
  }

  /** The encoded predecessor search is that of the simple index on the same table. */
  lemma PredecessorIsSimple(values: seq<EncodedEntry>, s: seq<SymbolEntry>, key: SymbolKey)
    requires forall e :: e in s ==> e.encodedSymbol != ""
    ensures Predecessor(values, s, key) == Simple.FindLastLessOrEqual(TableOf(values, s), AsString(key))
  {
    var t := TableOf(values, s);
    forall i | 0 <= i < |s|
      ensures SortsAfter(values, key)(s[i]) <==> Less(AsString(key), t[i].name)
    {
      CompareIsNameOrder(key, SymbolKeyOf(values, s[i]));
    }
    hide Less, AsString, SortsAfter;
    UpperBoundUnique(t, AsString(key), FirstWhere(s, SortsAfter(values, key)));
  }

  /** The encoded search is the search of the simple index on the same table. */
  lemma SymbolSearchIsSimpleSearch(x: Index, name: string)
    requires forall e :: e in x.bySymbolFlat ==> e.encodedSymbol != ""
    ensures SymbolInFlat(x, name) == Simple.Lookup(TableOf(x.values, x.bySymbolFlat), name)
  {
    PredecessorIsSimple(x.values, x.bySymbolFlat, Plain(name));
    hide Predecessor, Simple.FindLastLessOrEqual, IsSubSymbol, DottedName;
  }

  lemma TableHolds(x: Index, p: PlainMaps)
    requires SymbolsHold(x, p) && x.bySymbol == []
    ensures var t := TableOf(x.values, x.bySymbolFlat);
      && Simple.Sorted(t) && Simple.AllValid(t)
      && (forall i :: 0 <= i < |t| ==> t[i].name in p.symbols && p.symbols[t[i].name] == t[i].value)
      && (forall k :: k in p.symbols ==> exists i :: 0 <= i < |t| && t[i].name == k)
  {
    hide AsString, ValidName, Less;
    var s, t := x.bySymbolFlat, TableOf(x.values, x.bySymbolFlat);
    forall i | 0 <= i < |t|
      ensures ValidName(t[i].name) && t[i].name in p.symbols && p.symbols[t[i].name] == t[i].value
    {
      assert s[i] in s;
    }
    forall i, j | 0 <= i < j < |t| ensures Less(t[i].name, t[j].name) {
      assert Less(SymbolName(x.values)(s[i]), SymbolName(x.values)(s[j]));
    }
    forall k | k in p.symbols ensures exists i :: 0 <= i < |t| && t[i].name == k {
      var e :| e in s && SymbolName(x.values)(e) == k;
      var i :| 0 <= i < |s| && s[i] == e;
      assert t[i].name == k;
    }
  }

  lemma TablePrefixFree(t: Simple.Table<int>, symbols: map<string, int>)
    requires Simple.Sorted(t)
    requires forall i :: 0 <= i < |t| ==> t[i].name in symbols
    requires forall k :: k in symbols ==> exists i :: 0 <= i < |t| && t[i].name == k
    ensures Simple.PrefixFree(t) <==> PlainPrefixFree(symbols)
  {
    if PlainPrefixFree(symbols) {
      forall i, j | 0 <= i < |t| && 0 <= j < |t| && IsSubSymbol(t[i].name, t[j].name) ensures i == j {
        LessIrreflexive(t[i].name);
      }
    }
  }

  /** The symbol lookup returns the value of the one stored name that is the query or a dotted
      parent of it, and nothing when there is none. */
  lemma {:induction false} FindSymbolAnswers(x: Index, p: PlainMaps, name: string)
    requires Refines(x, p) && PlainPrefixFree(p.symbols)
    ensures forall k :: k in p.symbols && IsSubSymbol(k, name) ==>
      SymbolInFlat(Flatten(x), name) == Simple.Some(p.symbols[k])
    ensures (forall k :: k in p.symbols ==> !IsSubSymbol(k, name)) ==> SymbolInFlat(Flatten(x), name) == Simple.None
  {
    FlattenRefines(x, p);
    var x' := Flatten(x);
    var t := TableOf(x'.values, x'.bySymbolFlat);
    SymbolSearchIsSimpleSearch(x', name);
    TableHolds(x', p);
    TablePrefixFree(t, p.symbols);
    Simple.LookupCorrect(t, name);
    forall k | k in p.symbols && IsSubSymbol(k, name) ensures Simple.Lookup(t, name) == Simple.Some(p.symbols[k]) {
      var i :| 0 <= i < |t| && t[i].name == k;
    }
  }

  // ----- whole runs -----

  /** A lookup of any kind first drains the trees. */
  datatype Event = Add(file: FileProto, value: int) | Find

  ghost function RunIndex(x: Index, events: seq<Event>): (bool, Index)
    decreases |events|
  {
    if events == [] then (true, x)
    else match events[0]
      case Find => RunIndex(Flatten(x), events[1..])
      case Add(file, value) =>
        var (ok, x') := FileAdded(x, file, value);
        if ok then RunIndex(x', events[1..]) else (false, x')
  }

  ghost function RunPlain(p: PlainMaps, events: seq<Event>): PlainMaps
    decreases |events|
  {
    if events == [] then p
    else match events[0]
      case Find => RunPlain(p, events[1..])
      case Add(file, value) => RunPlain(PlainFile(p, file, value), events[1..])
  }

  ghost predicate NonEmptySymbolRun(events: seq<Event>) {
    forall i :: 0 <= i < |events| && events[i].Add? ==> NonEmptySymbols(FileOps(events[i].file))
  }

  lemma {:induction false} RunRefines(x: Index, p: PlainMaps, events: seq<Event>)
    requires Refines(x, p) && RunIndex(x, events).0 && NonEmptySymbolRun(events)
    ensures Refines(RunIndex(x, events).1, RunPlain(p, events))
    decreases |events|
  {
    if events != [] {
      match events[0]
      case Find =>
        FlattenRefines(x, p);
        RunRefines(Flatten(x), p, events[1..]);
      case Add(file, value) =>
        FileAddedRefines(x, p, file, value);
        RunRefines(FileAdded(x, file, value).1, PlainFile(p, file, value), events[1..]);
    }
  }

  /** The refinement theorem, from an empty index. */
  lemma {:induction false} EncodedIndexAnswersAsPlainMaps(events: seq<Event>)
    requires RunIndex(EMPTY, events).0 && NonEmptySymbolRun(events)
    ensures var x, p := Flatten(RunIndex(EMPTY, events).1), RunPlain(EMPTY_PLAIN, events);
      && (forall f :: FileInFlat(x, f) == Answer(p.files, f))
      && (forall c, n :: ExtensionInFlat(x, c, n) == Answer(p.extensions, (c, n)))
      && (PlainPrefixFree(p.symbols) ==>
            forall q, k :: k in p.symbols && IsSubSymbol(k, q) ==> SymbolInFlat(x, q) == Simple.Some(p.symbols[k]))
      && (PlainPrefixFree(p.symbols) ==>
            forall q :: (forall k :: k in p.symbols ==> !IsSubSymbol(k, q)) ==> SymbolInFlat(x, q) == Simple.None)
  {
    RunRefines(EMPTY, EMPTY_PLAIN, events);
    var x, p := RunIndex(EMPTY, events).1, RunPlain(EMPTY_PLAIN, events);
    forall f { FindFileAnswers(x, p, f); }
    forall c, n { FindExtensionAnswers(x, p, c, n); }
    if PlainPrefixFree(p.symbols) {
      forall q { FindSymbolAnswers(x, p, q); }
    }
  }
}
