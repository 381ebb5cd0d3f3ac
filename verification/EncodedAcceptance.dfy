/** Which symbols the encoded index accepts with its tree and its flat vector searched separately,
    and when its lookups stay complete. */
module EncodedAcceptance {
  import opened Symbols
  import opened OrderedTables
  import opened SymbolOrder
  import opened EncodedIndex
  import opened EncodedRefinement
  import Simple = SimpleIndex

  ghost function TreeTable(x: Index): Simple.Table<int> { TableOf(x.values, x.bySymbol) }
  ghost function FlatTable(x: Index): Simple.Table<int> { TableOf(x.values, x.bySymbolFlat) }

  /** The name slips past the successor check in the tree or in the flat vector. */
  ghost predicate SlipsPast(x: Index, name: string) {
    Simple.Slips(TreeTable(x), name) || Simple.Slips(FlatTable(x), name)
  }

  ghost predicate PlainConflicts(symbols: map<string, int>, name: string) {
    exists k :: k in symbols && (IsSubSymbol(k, name) || IsSubSymbol(name, k))
  }

  ghost predicate PlainCovered(symbols: map<string, int>, q: string) {
    exists k :: k in symbols && IsSubSymbol(k, q)
  }

  /** The checks on one part are the checks of the simple index on the same table. */
  lemma ChecksAreSimple(values: seq<EncodedEntry>, s: seq<SymbolEntry>, key: SymbolKey)
    requires ValidName(AsString(key)) && forall e :: e in s ==> e.encodedSymbol != ""
    ensures NoMutualSubsymbols(values, s, key) <==> Simple.Admits(TableOf(values, s), AsString(key))
  {
    PredecessorIsSimple(values, s, key);
    hide AsString, IsSubSymbol, Predecessor, ValidName, DottedName, Simple.FindLastLessOrEqual;
    assert |TableOf(values, s)| == |s|;
    assert forall i :: 0 <= i < |s| ==> TableOf(values, s)[i].name == DottedName(values, s[i]);
    hide TableOf;
  }

  lemma DottedNameValidExactly(package: string, symbol: string)
    requires ValidName(package)
    ensures ValidName(AsString(Stored(package, symbol))) <==> ValidName(symbol)
  {
    var name := AsString(Stored(package, symbol));
    if ValidName(symbol) {
      DottedNameValid(package, symbol);
    } else {
      var i :| 0 <= i < |symbol| && !ValidChar(symbol[i]);
      assert name[|name| - |symbol| + i] == symbol[i];
    }
  }

  /** Each part, read as a table of the simple index, is sorted and holds names of the plain map. */
  lemma PartIsTable(values: seq<EncodedEntry>, s: seq<SymbolEntry>, symbols: map<string, int>)
    requires Ordered(s, SymbolName(values), Less) && Named(values, s)
    requires forall e :: e in s ==> DottedName(values, e) in symbols
    ensures var t := TableOf(values, s);
      && Simple.Sorted(t) && Simple.AllValid(t)
      && (forall i :: 0 <= i < |t| ==> t[i].name in symbols)
      && (PlainPrefixFree(symbols) ==> Simple.PrefixFree(t))
  {
    var t := TableOf(values, s);
    hide Less, DottedName, ValidName, IsSubSymbol;
    forall i | 0 <= i < |t| ensures t[i].name in symbols && ValidName(t[i].name) { assert s[i] in s; }
    forall i, j | 0 <= i < j < |t| ensures Less(t[i].name, t[j].name) {
      assert Less(SymbolName(values)(s[i]), SymbolName(values)(s[j])) by { hide Named, PlainPrefixFree; }
      assert SymbolName(values)(s[i]) == t[i].name && SymbolName(values)(s[j]) == t[j].name;
    }
    LessNotSelf(t);
  }

  lemma LessNotSelf(t: Simple.Table<int>)
    requires Simple.Sorted(t)
    ensures forall i, j :: 0 <= i < |t| && 0 <= j < |t| && t[i].name == t[j].name ==> i == j
  {
    forall i, j | 0 <= i < j < |t| ensures t[i].name != t[j].name { LessIrreflexive(t[i].name); }
  }

  lemma PartsAreTables(x: Index, p: PlainMaps)
    requires SymbolsHold(x, p)
    ensures Simple.Sorted(TreeTable(x)) && Simple.AllValid(TreeTable(x))
    ensures Simple.Sorted(FlatTable(x)) && Simple.AllValid(FlatTable(x))
    ensures PlainPrefixFree(p.symbols) ==> Simple.PrefixFree(TreeTable(x)) && Simple.PrefixFree(FlatTable(x))
  {
    hide Less, AsString, Simple.Sorted, Simple.AllValid, Simple.PrefixFree;
    PartIsTable(x.values, x.bySymbol, p.symbols);
    PartIsTable(x.values, x.bySymbolFlat, p.symbols);
  }

  lemma ConflictsByPart(x: Index, p: PlainMaps, name: string)
    requires SymbolsHold(x, p)
    ensures PlainConflicts(p.symbols, name)
      <==> Simple.Conflicts(TreeTable(x), name) || Simple.Conflicts(FlatTable(x), name)
  {
    hide Less, AsString, IsSubSymbol, Named, Ordered;
    var tree, flat := TreeTable(x), FlatTable(x);
    if PlainConflicts(p.symbols, name) {
      var k :| k in p.symbols && (IsSubSymbol(k, name) || IsSubSymbol(name, k));
      var e :| (e in x.bySymbol || e in x.bySymbolFlat) && SymbolName(x.values)(e) == k;
      if e in x.bySymbol {
        var i :| 0 <= i < |x.bySymbol| && x.bySymbol[i] == e;
        assert tree[i].name == k;
      } else {
        var i :| 0 <= i < |x.bySymbolFlat| && x.bySymbolFlat[i] == e;
        assert flat[i].name == k;
      }
    }
    forall i | 0 <= i < |tree| ensures tree[i].name in p.symbols { assert x.bySymbol[i] in x.bySymbol; }
    forall i | 0 <= i < |flat| ensures flat[i].name in p.symbols { assert x.bySymbolFlat[i] in x.bySymbolFlat; }
  }

  /** AddSymbol accepts a symbol exactly when it is valid and its full name conflicts with no name
      in the tree and none in the flat vector, apart from a slip past either of the two. */
  lemma {:induction false} SymbolAcceptedExactly(x: Index, p: PlainMaps, symbol: string)
    requires x.values != [] && SymbolsHold(x, p) && PlainPrefixFree(p.symbols)
    requires ValidName(x.values[|x.values| - 1].package)
    ensures var name := AsString(Stored(x.values[|x.values| - 1].package, symbol));
      SymbolAccepted(x, symbol)
      <==> && ValidName(symbol)
           && (!Simple.Conflicts(TreeTable(x), name) || Simple.Slips(TreeTable(x), name))
           && (!Simple.Conflicts(FlatTable(x), name) || Simple.Slips(FlatTable(x), name))
  {
    var key := Stored(x.values[|x.values| - 1].package, symbol);
    DottedNameValidExactly(key.package, symbol);
    PartsAreTables(x, p);
    if ValidName(symbol) {
      ChecksAreSimple(x.values, x.bySymbol, key);
      ChecksAreSimple(x.values, x.bySymbolFlat, key);
      Simple.AdmitsExactly(TreeTable(x), AsString(key));
      Simple.AdmitsExactly(FlatTable(x), AsString(key));
    }
  }

  // ----- when lookups stay complete -----

  lemma {:induction false} PlainPrefixFreeAfter(symbols: map<string, int>, name: string, value: int)
    requires name !in symbols
    ensures PlainPrefixFree(symbols[name := value]) <==> PlainPrefixFree(symbols) && !PlainConflicts(symbols, name)
  {
    hide IsSubSymbol;
    var symbols' := symbols[name := value];
    if PlainPrefixFree(symbols') {
      forall a, b | a in symbols && b in symbols && IsSubSymbol(a, b) ensures a == b {
        assert a in symbols' && b in symbols';
      }
      forall k | k in symbols ensures !IsSubSymbol(k, name) && !IsSubSymbol(name, k) {
        assert k in symbols' && name in symbols' && k != name;
      }
    }
  }

  /** The operation is a symbol that is accepted although it conflicts. */
  ghost predicate OpSlips(x: Index, op: Op)
    requires x.values != []
  {
    op.Symbol? && SlipsPast(x, AsString(Stored(x.values[|x.values| - 1].package, op.name)))
  }

  ghost predicate OpsSlip(x: Index, ops: seq<Op>)
    requires x.values != []
    decreases |ops|
  {
    && ops != []
    && (OpSlips(x, ops[0]) || (Apply(x, ops[0]).0 && OpsSlip(Apply(x, ops[0]).1, ops[1..])))
  }

  ghost predicate FileSlips(x: Index, f: FileProto, value: int) {
    var pushed := x.(values := x.values + [EncodedEntry(value, f.package)]);
    ValidName(f.package) && NameAdded(pushed, f.name).0 && OpsSlip(NameAdded(pushed, f.name).1, FileOps(f))
  }

  ghost predicate RunSlips(x: Index, events: seq<Event>)
    decreases |events|
  {
    events != [] &&
    match events[0]
      case Find => RunSlips(Flatten(x), events[1..])
      case Add(f, value) =>
        FileSlips(x, f, value) || (FileAdded(x, f, value).0 && RunSlips(FileAdded(x, f, value).1, events[1..]))
  }

  lemma AcceptedSlips(x: Index, p: PlainMaps, symbol: string)
    requires x.values != [] && SymbolsHold(x, p) && SymbolAccepted(x, symbol)
    requires ValidName(x.values[|x.values| - 1].package)
    ensures var name := AsString(Stored(x.values[|x.values| - 1].package, symbol));
      PlainPrefixFree(p.symbols) ==> (PlainConflicts(p.symbols, name) <==> SlipsPast(x, name))
  {
    var name := AsString(Stored(x.values[|x.values| - 1].package, symbol));
    ConflictsByPart(x, p, name);
    assert SlipsPast(x, name) ==> Simple.Conflicts(TreeTable(x), name) || Simple.Conflicts(FlatTable(x), name) by {
      hide AsString, IsSubSymbol, Less;
    }
    hide SymbolsHold, SlipsPast, PlainPrefixFree, PlainConflicts;
    hide SymbolAccepted, Simple.Conflicts, Simple.Slips, AsString;
    if PlainPrefixFree(p.symbols) {
      SymbolAcceptedExactly(x, p, symbol);
      SlipsPastEither(x, name);
    }
  }

  lemma SlipsPastEither(x: Index, name: string)
    ensures SlipsPast(x, name) <==> Simple.Slips(TreeTable(x), name) || Simple.Slips(FlatTable(x), name)
  {
  }

  lemma {:induction false} OpPrefixFree(x: Index, p: PlainMaps, op: Op)
    requires x.values != [] && Refines(x, p) && Apply(x, op).0 && NonEmptySymbols([op])
    requires ValidName(x.values[|x.values| - 1].package)
    ensures var last := x.values[|x.values| - 1];
      PlainPrefixFree(PlainOp(p, last.package, op, last.value).symbols)
      <==> PlainPrefixFree(p.symbols) && !OpSlips(x, op)
  {
    if op.Symbol? {
      hide PlainPrefixFree, PlainConflicts, AsString, SymbolAccepted;
      hide SlipsPast, WithSymbol, SymbolsHold, ExtensionsHold, FilesHold;
      var last := x.values[|x.values| - 1];
      assert [op][0].name != "";
      var name := AsString(Stored(last.package, op.name));
      SymbolAddedRefines(x, p, op.name);
      PlainPrefixFreeAfter(p.symbols, name, last.value);
      AcceptedSlips(x, p, op.name);
    }
  }

  lemma OpsSlipStep(x: Index, ops: seq<Op>)
    requires x.values != [] && ops != [] && Apply(x, ops[0]).0
    ensures OpsSlip(x, ops) <==> OpSlips(x, ops[0]) || OpsSlip(Apply(x, ops[0]).1, ops[1..])
  {
    hide OpSlips, Apply;
  }

  lemma {:induction false} OpsPrefixFree(x: Index, p: PlainMaps, ops: seq<Op>)
    requires x.values != [] && Refines(x, p) && ApplyAll(x, ops).0 && NonEmptySymbols(ops)
    requires ValidName(x.values[|x.values| - 1].package)
    ensures var last := x.values[|x.values| - 1];
      PlainPrefixFree(PlainOps(p, last.package, ops, last.value).symbols)
      <==> PlainPrefixFree(p.symbols) && !OpsSlip(x, ops)
    decreases |ops|
  {
    hide Refines, PlainPrefixFree, ValidName, OpSlips, Apply, PlainOp, NonEmptySymbols;
    if ops != [] {
      NonEmptyParts(ops);
      hide *;
      var last := x.values[|x.values| - 1];
      OpsStep(x, p, ops, last.package, last.value);
      OpsSlipStep(x, ops);
      ApplyRefines(x, p, ops[0]);
      OpPrefixFree(x, p, ops[0]);
      OpsPrefixFree(Apply(x, ops[0]).1, PlainOp(p, last.package, ops[0], last.value), ops[1..]);
    }
  }

  lemma {:induction false} FilePrefixFree(x: Index, p: PlainMaps, f: FileProto, value: int)
    requires Refines(x, p) && FileAdded(x, f, value).0 && NonEmptySymbols(FileOps(f))
    ensures PlainPrefixFree(PlainFile(p, f, value).symbols) <==> PlainPrefixFree(p.symbols) && !FileSlips(x, f, value)
  {
    var entry := EncodedEntry(value, f.package);
    var pushed := x.(values := x.values + [entry]);
    PushRefines(x, p, entry);
    NameAddedRefines(pushed, p, f.name);
    hide Refines, PlainPrefixFree, NameInFlat, SetInsert, FileOps;
    OpsPrefixFree(NameAdded(pushed, f.name).1, p.(files := p.files[f.name := value]), FileOps(f));
  }

  /** Over any run of successful adds and of lookups, the stored symbols stay prefix-free exactly
      when no accepted symbol slipped past the tree or past the flat vector. */
  lemma {:induction false} RunPrefixFree(x: Index, p: PlainMaps, events: seq<Event>)
    requires Refines(x, p) && RunIndex(x, events).0 && NonEmptySymbolRun(events)
    ensures PlainPrefixFree(RunPlain(p, events).symbols) <==> PlainPrefixFree(p.symbols) && !RunSlips(x, events)
    decreases |events|
  {
    if events != [] {
      hide Refines, FileAdded, FileSlips, PlainFile, Flatten, PlainPrefixFree;
      match events[0]
      case Find =>
        FlattenRefines(x, p);
        RunPrefixFree(Flatten(x), p, events[1..]);
      case Add(file, value) =>
        FileAddedRefines(x, p, file, value);
        FilePrefixFree(x, p, file, value);
        RunPrefixFree(FileAdded(x, file, value).1, PlainFile(p, file, value), events[1..]);
    }
  }

  lemma CoveredInTable(t: Simple.Table<int>, symbols: map<string, int>, q: string)
    requires forall i :: 0 <= i < |t| ==> t[i].name in symbols
    requires forall k :: k in symbols ==> exists i :: 0 <= i < |t| && t[i].name == k
    ensures Simple.Covered(t, q) <==> PlainCovered(symbols, q)
  {
    hide IsSubSymbol;
  }

  lemma FlatSearchAnswers(x: Index, p: PlainMaps, q: string)
    requires SymbolsHold(x, p) && x.bySymbol == []
    ensures SymbolInFlat(x, q) == Simple.Lookup(FlatTable(x), q)
    ensures Simple.Covered(FlatTable(x), q) <==> PlainCovered(p.symbols, q)
  {
    SymbolSearchIsSimpleSearch(x, q);
    TableHolds(x, p);
    hide TableOf, SymbolInFlat, Simple.Lookup, Simple.Covered, PlainCovered, Simple.Sorted, Simple.AllValid;
    CoveredInTable(FlatTable(x), p.symbols, q);
  }

  lemma FlatTableComplete(x: Index, p: PlainMaps)
    requires SymbolsHold(x, p) && x.bySymbol == []
    ensures (forall q :: Simple.Covered(FlatTable(x), q) ==> Simple.Lookup(FlatTable(x), q).Some?)
      <==> PlainPrefixFree(p.symbols)
  {
    TableHolds(x, p);
    TablePrefixFree(FlatTable(x), p.symbols);
    Simple.LookupCompleteIffPrefixFree(FlatTable(x));
    hide *;
  }

  /** On a flattened index every covered query is answered exactly when no stored name is a dotted
      parent of another. */
  lemma {:induction false} SearchCompleteIffPrefixFree(x: Index, p: PlainMaps)
    requires SymbolsHold(x, p) && x.bySymbol == []
    ensures (forall q :: PlainCovered(p.symbols, q) ==> SymbolInFlat(x, q).Some?) <==> PlainPrefixFree(p.symbols)
  {
    hide *;
    FlatTableComplete(x, p);
    forall q
      ensures SymbolInFlat(x, q) == Simple.Lookup(FlatTable(x), q)
      ensures Simple.Covered(FlatTable(x), q) <==> PlainCovered(p.symbols, q)
    {
      FlatSearchAnswers(x, p, q);
    }
  }

  /** From the empty index: every query that a stored name covers is answered, exactly when no
      accepted symbol of the run slipped past the checks. */
  lemma {:induction false} LookupsCompleteIffNoSlip(events: seq<Event>)
    requires RunIndex(EMPTY, events).0 && NonEmptySymbolRun(events)
    ensures var x, symbols := Flatten(RunIndex(EMPTY, events).1), RunPlain(EMPTY_PLAIN, events).symbols;
      (forall q :: PlainCovered(symbols, q) ==> SymbolInFlat(x, q).Some?) <==> !RunSlips(EMPTY, events)
  {
    RunRefines(EMPTY, EMPTY_PLAIN, events);
    RunPrefixFree(EMPTY, EMPTY_PLAIN, events);
    FlattenRefines(RunIndex(EMPTY, events).1, RunPlain(EMPTY_PLAIN, events));
    hide RunIndex, RunPlain, RunSlips, PlainCovered, SymbolInFlat, SymbolsHold;
    SearchCompleteIffPrefixFree(Flatten(RunIndex(EMPTY, events).1), RunPlain(EMPTY_PLAIN, events));
  }
}
