/** What an AddFile that fails leaves behind in the encoded index, since nothing is rolled back. */
module EncodedRefusals {
  import opened Symbols
  import opened OrderedTables
  import opened SymbolOrder
  import opened EncodedIndex
  import opened EncodedRefinement
  import Simple = SimpleIndex

  /** The name waits in the tree: added since the last lookup. */
  ghost predicate Waiting(x: Index, name: string) {
    exists e :: e in x.byName && e.encodedName == name
  }

  ghost predicate SameFileAnswers(x: Index, y: Index) {
    forall n :: FileInFlat(Flatten(x), n) == FileInFlat(Flatten(y), n)
  }

  ghost predicate SameSymbolAnswers(x: Index, y: Index) {
    forall q :: SymbolInFlat(Flatten(x), q) == SymbolInFlat(Flatten(y), q)
  }

  ghost predicate SameExtensionAnswers(x: Index, y: Index) {
    forall c, n :: ExtensionInFlat(Flatten(x), c, n) == ExtensionInFlat(Flatten(y), c, n)
  }

  ghost predicate SameAnswers(x: Index, y: Index) {
    SameFileAnswers(x, y) && SameSymbolAnswers(x, y) && SameExtensionAnswers(x, y)
  }

  // ----- file names -----

  /** FindFile on two sorted parts that may share names: the tree's entry answers first. */
  lemma {:induction false} FileAnswer(x: Index, name: string)
    requires Ordered(x.byName, FileName, Less) && Ordered(x.byNameFlat, FileName, Less)
    ensures forall e :: e in x.byName && e.encodedName == name ==>
      FileInFlat(Flatten(x), name) == Simple.Some(ValueAt(x.values, e.dataOffset))
    ensures !Waiting(x, name) ==> forall e :: e in x.byNameFlat && e.encodedName == name ==>
      FileInFlat(Flatten(x), name) == Simple.Some(ValueAt(x.values, e.dataOffset))
    ensures (forall e :: e in x.byName || e in x.byNameFlat ==> e.encodedName != name) ==>
      FileInFlat(Flatten(x), name) == Simple.None
  {
    NameOrderIsTotal();
    assert Agrees(x.byName + x.byNameFlat, FileCompare, FileName, Less);
    MergeHit(x.byName, x.byNameFlat, FileCompare, FileName, Less, name, NameNotBefore(name));
    hide Merge, Ordered, FirstWhere, Less;
  }

  lemma RefusedInsertIsNothing<E>(s: seq<E>, e: E, less: (E, E) -> bool)
    ensures !SetInsert(s, e, less).0 ==> SetInsert(s, e, less).1 == s
  {
  }

  /** What inserting the name into the tree does, and what the flat vector says about it. */
  lemma NameParts(x: Index, name: string)
    requires x.values != [] && Ordered(x.byName, FileName, Less) && Ordered(x.byNameFlat, FileName, Less)
    ensures var (ok, tree) := SetInsert(x.byName, FileEntry(|x.values| - 1, name), FileCompare);
      && (ok <==> !Waiting(x, name)) && Ordered(tree, FileName, Less)
      && if ok then forall y :: y in tree <==> y in x.byName || y == FileEntry(|x.values| - 1, name)
         else tree == x.byName
    ensures NameInFlat(x.byNameFlat, name) <==> exists e :: e in x.byNameFlat && e.encodedName == name
  {
    NameOrderIsTotal();
    var entry := FileEntry(|x.values| - 1, name);
    assert Agrees(x.byName + [entry], FileCompare, FileName, Less);
    hide Less;
    SetInsertOrdered(x.byName, entry, FileCompare, FileName, Less);
    RefusedInsertIsNothing(x.byName, entry, FileCompare);
    LowerBoundHit(x.byNameFlat, FileName, Less, name, FirstWhere(x.byNameFlat, NameNotBefore(name)));
    hide SetInsert, FirstWhere, Ordered;
  }

  lemma TreeAfterName(x: Index, p: PlainMaps, name: string)
    requires x.values != [] && FilesHold(x, p)
    ensures var tree := NameAdded(x, name).1.byName;
      && Ordered(tree, FileName, Less)
      && if Waiting(x, name) then tree == x.byName
         else forall y :: y in tree <==> y in x.byName || y == FileEntry(|x.values| - 1, name)
  {
    hide Less, Ordered, SetInsert;
    NameParts(x, name);
  }

  /** A name is refused exactly when the plain map has it. */
  lemma {:induction false} NameRefusedExactly(x: Index, p: PlainMaps, name: string)
    requires x.values != [] && FilesHold(x, p)
    ensures NameAdded(x, name).0 <==> name !in p.files
  {
    hide Less, Ordered, SetInsert, NameInFlat;
    NameParts(x, name);
    if name in p.files { var e :| (e in x.byName || e in x.byNameFlat) && FileName(e) == name; }
  }

  lemma NameAddedFrame(x: Index, name: string)
    requires x.values != []
    ensures var x' := NameAdded(x, name).1;
      x' == x.(byName := x'.byName)
  {
  }

  lemma OldNameAnswers(x: Index, p: PlainMaps, x': Index, n: string)
    requires FilesHold(x, p) && x'.byNameFlat == x.byNameFlat && x'.values == x.values
    requires Ordered(x'.byName, FileName, Less) && forall e :: e in x.byName ==> e in x'.byName
    requires forall e :: e in x'.byName && FileName(e) == n ==> e in x.byName
    ensures FileInFlat(Flatten(x'), n) == Answer(p.files, n)
  {
    FileAnswer(x', n);
    hide Flatten, FileInFlat, Less, Ordered;
    if n in p.files {
      var e :| (e in x.byName || e in x.byNameFlat) && FileName(e) == n;
      assert ValueAt(x.values, e.dataOffset) == p.files[n];
    }
  }

  /** Inserting the name, whether or not the flat vector then refuses it, makes the index answer it
      with the new file; a name that waits in the tree changes nothing. */
  lemma {:induction false} NameStepAnswers(x: Index, p: PlainMaps, name: string, n: string)
    requires x.values != [] && FilesHold(x, p)
    ensures FileInFlat(Flatten(NameAdded(x, name).1), n)
      == Answer(if Waiting(x, name) then p.files else p.files[name := x.values[|x.values| - 1].value], n)
  {
    var x' := NameAdded(x, name).1;
    TreeAfterName(x, p, name);
    NameAddedFrame(x, name);
    hide Flatten, FileInFlat, Less, NameAdded, Ordered, FilesHold;
    if n == name && !Waiting(x, name) {
      HeldFlatOrdered(x, p);
      FileAnswer(x', n);
      var entry := FileEntry(|x.values| - 1, name);
      assert entry in x'.byName && entry.encodedName == n;
    } else {
      OldNameAnswers(x, p, x', n);
    }
  }

  lemma HeldFlatOrdered(x: Index, p: PlainMaps)
    requires FilesHold(x, p)
    ensures Ordered(x.byNameFlat, FileName, Less)
  {
  }

  // ----- what the rest of AddFile leaves alone -----

  lemma {:induction false} OpsKeepNames(x: Index, ops: seq<Op>)
    requires x.values != []
    ensures var y := ApplyAll(x, ops).1; y.byName == x.byName && y.byNameFlat == x.byNameFlat && y.values == x.values
    decreases |ops|
  {
    if ops != [] && Apply(x, ops[0]).0 { OpsKeepNames(Apply(x, ops[0]).1, ops[1..]); }
  }

  lemma SameNamesAnswer(x: Index, y: Index, n: string)
    requires y.byName == x.byName && y.byNameFlat == x.byNameFlat && y.values == x.values
    ensures FileInFlat(Flatten(y), n) == FileInFlat(Flatten(x), n)
  {
  }

  lemma PushKeepsFiles(x: Index, entry: EncodedEntry)
    requires InRange(x)
    ensures SameFileAnswers(x, x.(values := x.values + [entry]))
  {
    var flat := Flatten(x).byNameFlat;
    forall e | e in flat ensures e.dataOffset < |x.values| { MergeMembers(x.byName, x.byNameFlat, FileCompare, e); }
    hide Merge, Less;
  }

  lemma PushKeepsExtensions(x: Index, entry: EncodedEntry)
    requires InRange(x)
    ensures SameExtensionAnswers(x, x.(values := x.values + [entry]))
  {
    var flat := Flatten(x).byExtensionFlat;
    forall e | e in flat ensures e.dataOffset < |x.values| {
      MergeMembers(x.byExtension, x.byExtensionFlat, ExtensionCompare, e);
    }
    hide Merge, PairLess;
  }

  /** A new value shows in no comparison of stored symbols. */
  lemma PushKeepsComparator(x: Index, entry: EncodedEntry, a: SymbolEntry, b: SymbolEntry)
    requires a.dataOffset < |x.values| && b.dataOffset < |x.values|
    ensures SymbolComparator(x.values + [entry])(a, b) <==> SymbolComparator(x.values)(a, b)
  {
    hide SymbolCompare;
  }

  lemma PushKeepsFlatSymbols(x: Index, entry: EncodedEntry)
    requires InRange(x)
    ensures var x' := x.(values := x.values + [entry]);
      && Flatten(x').bySymbolFlat == Flatten(x).bySymbolFlat
      && forall e :: e in Flatten(x).bySymbolFlat ==> e.dataOffset < |x.values|
  {
    var cmp, cmp' := SymbolComparator(x.values), SymbolComparator(x.values + [entry]);
    forall a, b | a in x.bySymbolFlat && b in x.bySymbol ensures cmp(a, b) <==> cmp'(a, b) {
      PushKeepsComparator(x, entry, a, b);
    }
    hide SymbolComparator;
    MergeCongruent(x.bySymbol, x.bySymbolFlat, cmp, cmp');
    forall e | e in Flatten(x).bySymbolFlat ensures e.dataOffset < |x.values| {
      MergeMembers(x.bySymbol, x.bySymbolFlat, cmp, e);
    }
  }

  lemma PushKeepsPredecessor(values: seq<EncodedEntry>, entry: EncodedEntry, s: seq<SymbolEntry>, key: SymbolKey)
    requires forall e :: e in s ==> e.dataOffset < |values|
    ensures Predecessor(values + [entry], s, key) == Predecessor(values, s, key)
  {
    var p, p' := SortsAfter(values, key), SortsAfter(values + [entry], key);
    forall e | e in s ensures p(e) <==> p'(e) { hide SymbolCompare; }
    hide SortsAfter;
    FirstWhereCongruent(s, p, p');
  }

  lemma PushKeepsSymbols(x: Index, entry: EncodedEntry)
    requires InRange(x)
    ensures SameSymbolAnswers(x, x.(values := x.values + [entry]))
  {
    PushKeepsFlatSymbols(x, entry);
    var s := Flatten(x).bySymbolFlat;
    hide Merge, AsString, IsSubSymbol, Predecessor, InRange;
    forall q { PushKeepsPredecessor(x.values, entry, s, Plain(q)); }
  }

  // ----- AddFile -----

  /** Stopping at the name changes no answer about symbols and extensions. */
  lemma NameRefusalKeepsOthers(x: Index, p: PlainMaps, f: FileProto, value: int)
    requires Refines(x, p) && ValidName(f.package) && f.name in p.files
    ensures !FileAdded(x, f, value).0
    ensures SameSymbolAnswers(x, FileAdded(x, f, value).1) && SameExtensionAnswers(x, FileAdded(x, f, value).1)
  {
    var entry := EncodedEntry(value, f.package);
    var pushed := x.(values := x.values + [entry]);
    PushRefines(x, p, entry);
    NameRefusedExactly(pushed, p, f.name);
    PushKeepsSymbols(x, entry);
    PushKeepsExtensions(x, entry);
    NameAddedFrame(pushed, f.name);
    hide Merge, Predecessor, FirstWhere, NameAdded, Refines;
  }

  /** Every AddFile with a valid package, accepted or refused: the name then answers with the new
      file, unless it waits in the tree, when nothing changes. */
  lemma {:induction false} AddFileAnswers(x: Index, p: PlainMaps, f: FileProto, value: int, n: string)
    requires Refines(x, p) && ValidName(f.package)
    ensures FileInFlat(Flatten(FileAdded(x, f, value).1), n)
      == Answer(if Waiting(x, f.name) then p.files else p.files[f.name := value], n)
  {
    var entry := EncodedEntry(value, f.package);
    var pushed := x.(values := x.values + [entry]);
    PushRefines(x, p, entry);
    NameStepAnswers(pushed, p, f.name, n);
    var named := NameAdded(pushed, f.name).1;
    NameAddedFrame(pushed, f.name);
    OpsKeepNames(named, FileOps(f));
    hide NameAdded, ApplyAll, Flatten, FileInFlat, Refines, ValidName;
    SameNamesAnswer(named, ApplyAll(named, FileOps(f)).1, n);
  }

  /** A refused AddFile leaves every answer as it was exactly when it stopped at the package, or
      at a name still waiting in the tree, or at a name that already had the same file. */
  lemma {:induction false} RefusedAddKeepsAnswersExactly(x: Index, p: PlainMaps, f: FileProto, value: int)
    requires Refines(x, p) && !FileAdded(x, f, value).0
    ensures SameAnswers(x, FileAdded(x, f, value).1)
      <==> !ValidName(f.package) || Waiting(x, f.name) || (f.name in p.files && p.files[f.name] == value)
  {
    var y := FileAdded(x, f, value).1;
    hide Merge, Predecessor, FirstWhere, Less, FileInFlat, SymbolInFlat, ExtensionInFlat, ApplyAll, NameAdded, Flatten;
    if !ValidName(f.package) {
      PushKeepsFiles(x, EncodedEntry(value, ""));
      PushKeepsSymbols(x, EncodedEntry(value, ""));
      PushKeepsExtensions(x, EncodedEntry(value, ""));
    } else {
      forall n ensures FileInFlat(Flatten(x), n) == Answer(p.files, n) { FindFileAnswers(x, p, n); }
      forall n { AddFileAnswers(x, p, f, value, n); }
      assert Waiting(x, f.name) ==> f.name in p.files;
      if f.name in p.files {
        NameRefusalKeepsOthers(x, p, f, value);
        assert p.files[f.name] == value ==> p.files[f.name := value] == p.files;
      }
      if !Waiting(x, f.name) && (f.name in p.files ==> p.files[f.name] != value) {
        assert FileInFlat(Flatten(y), f.name) != FileInFlat(Flatten(x), f.name);
      }
    }
  }

  // ----- whole runs -----

  lemma {:induction false} RunAppend(x: Index, events: seq<Event>, more: seq<Event>)
    requires RunIndex(x, events).0
    ensures RunIndex(x, events + more) == RunIndex(RunIndex(x, events).1, more)
    decreases |events|
  {
    if events == [] {
      assert events + more == more;
    } else {
      assert (events + more)[1..] == events[1..] + more;
      match events[0]
      case Find => RunAppend(Flatten(x), events[1..], more);
      case Add(file, value) => RunAppend(FileAdded(x, file, value).1, events[1..], more);
    }
  }

  lemma FlattenedNameAnswers(x: Index, p: PlainMaps, f: FileProto, value: int)
    requires Refines(x, p) && x.byName == [] && ValidName(f.package) && f.name in p.files
    ensures !FileAdded(x, f, value).0
    ensures FileInFlat(Flatten(FileAdded(x, f, value).1), f.name) == Simple.Some(value)
  {
    hide FileAdded, Flatten, FileInFlat, Refines, ValidName;
    NameRefusalKeepsOthers(x, p, f, value);
    AddFileAnswers(x, p, f, value, f.name);
  }

  lemma LastTwoEvents(x: Index, f: FileProto, value: int)
    requires !FileAdded(Flatten(x), f, value).0
    ensures RunIndex(x, [Find, Add(f, value)]) == FileAdded(Flatten(x), f, value)
  {
    hide FileAdded, Flatten;
    assert [Find, Add(f, value)][1..] == [Add(f, value)];
    assert RunIndex(Flatten(x), [Add(f, value)]) == (false, FileAdded(Flatten(x), f, value).1);
  }

  lemma FlattenedTreeIsEmpty(x: Index)
    ensures Flatten(x).byName == []
  {
  }

  /** After any run of successful adds and a lookup: adding a file name again is refused, and from
      then on the name answers with the refused file. */
  lemma {:induction false} RefusedNameAnswers(events: seq<Event>, f: FileProto, value: int)
    requires RunIndex(EMPTY, events).0 && NonEmptySymbolRun(events)
    requires ValidName(f.package) && f.name in RunPlain(EMPTY_PLAIN, events).files
    ensures var (ok, x) := RunIndex(EMPTY, events + [Find, Add(f, value)]);
      !ok && FileInFlat(Flatten(x), f.name) == Simple.Some(value)
  {
    var x, p := RunIndex(EMPTY, events).1, RunPlain(EMPTY_PLAIN, events);
    RunRefines(EMPTY, EMPTY_PLAIN, events);
    hide *;
    FlattenRefines(x, p);
    FlattenedTreeIsEmpty(x);
    FlattenedNameAnswers(Flatten(x), p, f, value);
    LastTwoEvents(x, f, value);
    RunAppend(EMPTY, events, [Find, Add(f, value)]);
  }

  lemma FirstAddAccepted(f: FileProto, v: int)
    requires FileOps(f) == [] && ValidName(f.package)
    ensures FileAdded(EMPTY, f, v).0
    ensures PlainFile(EMPTY_PLAIN, f, v) == PlainMaps(map[f.name := v], map[], map[])
  {
  }

  lemma SingleRun(f: FileProto, v: int)
    ensures RunIndex(EMPTY, [Add(f, v)]) == FileAdded(EMPTY, f, v)
    ensures RunPlain(EMPTY_PLAIN, [Add(f, v)]) == PlainFile(EMPTY_PLAIN, f, v)
    ensures NonEmptySymbolRun([Add(f, v)]) <==> NonEmptySymbols(FileOps(f))
  {
    hide FileAdded, PlainFile, FileOps, NonEmptySymbols;
    assert [Add(f, v)][1..] == [] && [Add(f, v)][0] == Add(f, v);
  }

  /** A refused add that changes an answer, from the empty index: any name, added, looked up, and
      added again with another file. */
  lemma {:induction false} RefusedRun(name: string, v: int, w: int)
    ensures var f := FileProto(name, "", [], [], [], []);
      var (ok, x) := RunIndex(EMPTY, [Add(f, v)]);
      var (again, y) := RunIndex(EMPTY, [Add(f, v), Find, Add(f, w)]);
      && ok && FileInFlat(Flatten(x), name) == Simple.Some(v)
      && !again && FileInFlat(Flatten(y), name) == Simple.Some(w)
  {
    var f := FileProto(name, "", [], [], [], []);
    assert FileOps(f) == [];
    FirstAddAccepted(f, v);
    SingleRun(f, v);
    hide RunIndex, RunPlain, FileAdded, PlainFile, FileOps, NonEmptySymbolRun, FileInFlat, Flatten;
    RefusedNameAnswers([Add(f, v)], f, w);
    EncodedIndexAnswersAsPlainMaps([Add(f, v)]);
    assert [Add(f, v)] + [Find, Add(f, w)] == [Add(f, v), Find, Add(f, w)];
  }
}
