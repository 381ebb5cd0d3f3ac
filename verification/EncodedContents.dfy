/** What a file adds to the encoded index, said in terms of the file's own parts. */
module EncodedContents {
  import opened Symbols
  import opened SymbolOrder
  import opened EncodedIndex
  import opened EncodedRefinement
  import Simple = SimpleIndex

  /** m is top, or nested in it at any depth. */
  ghost predicate NestedIn(m: MessageProto, top: MessageProto)
    decreases top
  {
    m == top || exists i :: 0 <= i < |top.nested| && NestedIn(m, top.nested[i])
  }

  /** A top-level message, enum, extension or service of the file. */
  ghost predicate Declares(f: FileProto, name: string) {
    || (exists i :: 0 <= i < |f.messages| && f.messages[i].name == name)
    || name in f.enums
    || (exists i :: 0 <= i < |f.extensions| && f.extensions[i].name == name)
    || name in f.services
  }

  ghost predicate HasField(fields: seq<FieldProto>, extendee: string, number: int) {
    exists i :: 0 <= i < |fields| && fields[i].extendee == extendee && fields[i].number == number
  }

  /** An extension at top level, or in a message at any depth. */
  ghost predicate Extends(f: FileProto, extendee: string, number: int) {
    || HasField(f.extensions, extendee, number)
    || exists i, m :: 0 <= i < |f.messages| && NestedIn(m, f.messages[i]) && HasField(m.extensions, extendee, number)
  }

  /** The full name of a symbol: the package and a dot before it, if there is a package. */
  function FullName(package: string, name: string): string {
    if package == "" then name else package + "." + name
  }

  // ----- which operations the loops perform -----

  lemma {:induction false} ExtensionOpsAre(fields: seq<FieldProto>, op: Op)
    ensures op in ExtensionOps(fields) <==> op.Extension? && HasField(fields, op.extendee, op.number)
  {
    if fields != [] {
      ExtensionOpsAre(fields[1..], op);
      var rest := ExtensionOps(fields[1..]);
      assert op in ExtensionOps(fields) <==> op == Extension(fields[0].extendee, fields[0].number) || op in rest;
      if op.Extension? { HasFieldStep(fields, op.extendee, op.number); }
    }
  }

  lemma HasFieldStep(fields: seq<FieldProto>, extendee: string, number: int)
    requires fields != []
    ensures HasField(fields, extendee, number)
      <==> (fields[0].extendee == extendee && fields[0].number == number) || HasField(fields[1..], extendee, number)
  {
    if HasField(fields[1..], extendee, number) {
      var i :| 0 <= i < |fields[1..]| && fields[1..][i].extendee == extendee && fields[1..][i].number == number;
      assert fields[i + 1].extendee == extendee && fields[i + 1].number == number;
    }
    if HasField(fields, extendee, number) {
      var i :| 0 <= i < |fields| && fields[i].extendee == extendee && fields[i].number == number;
      if i > 0 { assert fields[1..][i - 1].extendee == extendee && fields[1..][i - 1].number == number; }
    }
  }

  /** Some message nested in one of ms has the extension. */
  ghost predicate SomeNestedHas(ms: seq<MessageProto>, extendee: string, number: int) {
    exists i, m :: 0 <= i < |ms| && NestedIn(m, ms[i]) && HasField(m.extensions, extendee, number)
  }

  ghost predicate NestedHas(top: MessageProto, extendee: string, number: int) {
    exists m :: NestedIn(m, top) && HasField(m.extensions, extendee, number)
  }

  lemma SomeNestedStep(ms: seq<MessageProto>, extendee: string, number: int)
    requires ms != []
    ensures SomeNestedHas(ms, extendee, number)
      <==> NestedHas(ms[0], extendee, number) || SomeNestedHas(ms[1..], extendee, number)
  {
    hide NestedIn, HasField;
    if SomeNestedHas(ms, extendee, number) {
      var i, m :| 0 <= i < |ms| && NestedIn(m, ms[i]) && HasField(m.extensions, extendee, number);
      if i > 0 { assert NestedIn(m, ms[1..][i - 1]); }
    }
    if SomeNestedHas(ms[1..], extendee, number) {
      var i, m :| 0 <= i < |ms[1..]| && NestedIn(m, ms[1..][i]) && HasField(m.extensions, extendee, number);
      assert NestedIn(m, ms[i + 1]);
    }
    if NestedHas(ms[0], extendee, number) {
      var m :| NestedIn(m, ms[0]) && HasField(m.extensions, extendee, number);
      assert NestedIn(m, ms[0]);
    }
  }

  lemma NestedHasStep(top: MessageProto, extendee: string, number: int)
    ensures NestedHas(top, extendee, number)
      <==> HasField(top.extensions, extendee, number) || SomeNestedHas(top.nested, extendee, number)
  {
    hide HasField;
    if NestedHas(top, extendee, number) {
      var m :| NestedIn(m, top) && HasField(m.extensions, extendee, number);
      if m != top {
        var i :| 0 <= i < |top.nested| && NestedIn(m, top.nested[i]);
        assert SomeNestedHas(top.nested, extendee, number);
      }
    }
    if HasField(top.extensions, extendee, number) { assert NestedIn(top, top); }
    if SomeNestedHas(top.nested, extendee, number) {
      var i, m :| 0 <= i < |top.nested| && NestedIn(m, top.nested[i]) && HasField(m.extensions, extendee, number);
      assert NestedIn(m, top);
    }
  }

  /** AddNestedExtensions reaches the extensions of a message and of all messages nested in it. */
  lemma {:induction false} NestedOpsAre(m: MessageProto, op: Op)
    ensures op in NestedOps(m) <==> op.Extension? && NestedHas(m, op.extendee, op.number)
    decreases m, 1
  {
    AllNestedOpsAre(m.nested, op);
    ExtensionOpsAre(m.extensions, op);
    if op.Extension? { NestedHasStep(m, op.extendee, op.number); }
    hide NestedHas, SomeNestedHas, HasField, ExtensionOps, AllNestedOps;
  }

  lemma {:induction false} AllNestedOpsAre(ms: seq<MessageProto>, op: Op)
    ensures op in AllNestedOps(ms) <==> op.Extension? && SomeNestedHas(ms, op.extendee, op.number)
    decreases ms, 0
  {
    if ms != [] {
      NestedOpsAre(ms[0], op);
      AllNestedOpsAre(ms[1..], op);
      if op.Extension? { SomeNestedStep(ms, op.extendee, op.number); }
      hide NestedHas, SomeNestedHas, NestedOps;
    }
  }

  ghost predicate SomeNamed(ms: seq<MessageProto>, name: string) {
    exists i :: 0 <= i < |ms| && ms[i].name == name
  }

  ghost predicate SomeFieldNamed(fields: seq<FieldProto>, name: string) {
    exists i :: 0 <= i < |fields| && fields[i].name == name
  }

  lemma SomeNamedStep(ms: seq<MessageProto>, name: string)
    requires ms != []
    ensures SomeNamed(ms, name) <==> ms[0].name == name || SomeNamed(ms[1..], name)
  {
    if SomeNamed(ms[1..], name) {
      var i :| 0 <= i < |ms[1..]| && ms[1..][i].name == name;
      assert ms[i + 1].name == name;
    }
    if SomeNamed(ms, name) {
      var i :| 0 <= i < |ms| && ms[i].name == name;
      if i > 0 { assert ms[1..][i - 1].name == name; }
    }
  }

  lemma SomeFieldNamedStep(fields: seq<FieldProto>, name: string)
    requires fields != []
    ensures SomeFieldNamed(fields, name) <==> fields[0].name == name || SomeFieldNamed(fields[1..], name)
  {
    if SomeFieldNamed(fields[1..], name) {
      var i :| 0 <= i < |fields[1..]| && fields[1..][i].name == name;
      assert fields[i + 1].name == name;
    }
    if SomeFieldNamed(fields, name) {
      var i :| 0 <= i < |fields| && fields[i].name == name;
      if i > 0 { assert fields[1..][i - 1].name == name; }
    }
  }

  lemma {:induction false} MessageOpsAre(ms: seq<MessageProto>, op: Op)
    ensures op in MessageOps(ms) <==>
      if op.Symbol? then SomeNamed(ms, op.name) else SomeNestedHas(ms, op.extendee, op.number)
  {
    if ms != [] {
      var rest := MessageOps(ms[1..]);
      MessageOpsAre(ms[1..], op);
      NestedOpsAre(ms[0], op);
      assert op in MessageOps(ms) <==> op == Symbol(ms[0].name) || op in NestedOps(ms[0]) || op in rest;
      if op.Symbol? { SomeNamedStep(ms, op.name); } else { SomeNestedStep(ms, op.extendee, op.number); }
      hide NestedHas, SomeNestedHas, SomeNamed, NestedOps, MessageOps;
    }
  }

  lemma {:induction false} NameOpsAre(names: seq<string>, op: Op)
    ensures op in NameOps(names) <==> op.Symbol? && op.name in names
  {
    if names != [] {
      NameOpsAre(names[1..], op);
      assert names == [names[0]] + names[1..];
    }
  }

  lemma {:induction false} TopExtensionOpsAre(fields: seq<FieldProto>, op: Op)
    ensures op in TopExtensionOps(fields) <==>
      if op.Symbol? then SomeFieldNamed(fields, op.name) else HasField(fields, op.extendee, op.number)
  {
    if fields != [] {
      var rest := TopExtensionOps(fields[1..]);
      TopExtensionOpsAre(fields[1..], op);
      assert op in TopExtensionOps(fields) <==>
        op == Symbol(fields[0].name) || op == Extension(fields[0].extendee, fields[0].number) || op in rest;
      if op.Symbol? { SomeFieldNamedStep(fields, op.name); } else { HasFieldStep(fields, op.extendee, op.number); }
      hide HasField, SomeFieldNamed, TopExtensionOps;
    }
  }

  /** The operations of a file are one symbol for each of its top-level declarations and one
      extension for each extension anywhere in it. */
  lemma {:induction false} FileOpsAre(f: FileProto, op: Op)
    ensures op in FileOps(f) <==> if op.Symbol? then Declares(f, op.name) else Extends(f, op.extendee, op.number)
  {
    MessageOpsAre(f.messages, op);
    NameOpsAre(f.enums, op);
    TopExtensionOpsAre(f.extensions, op);
    NameOpsAre(f.services, op);
    hide MessageOps, NameOps, TopExtensionOps, NestedIn, HasField;
  }

  // ----- what a file adds to the plain maps -----

  ghost predicate NewSymbol(f: FileProto, key: string) {
    exists name :: Declares(f, name) && key == FullName(f.package, name)
  }

  /** An extension whose extendee is written with the dot of a fully-qualified name. */
  ghost predicate NewExtension(f: FileProto, key: (string, int)) {
    Extends(f, "." + key.0, key.1)
  }

  ghost predicate AddsSymbol(ops: seq<Op>, package: string, key: string) {
    exists op :: op in ops && op.Symbol? && key == FullName(package, op.name)
  }

  ghost predicate AddsExtension(ops: seq<Op>, key: (string, int)) {
    Extension("." + key.0, key.1) in ops
  }

  lemma FullNameIsAsString(package: string, name: string)
    ensures FullName(package, name) == AsString(Stored(package, name))
  {
    if package == "" { assert "" + "" + name == name; }
  }

  lemma DottedKey(extendee: string, number: int, key: (string, int))
    ensures FullyQualified(extendee) && (extendee[1..], number) == key
      <==> Extension(extendee, number) == Extension("." + key.0, key.1)
  {
    if FullyQualified(extendee) { assert extendee == "." + extendee[1..]; }
    assert ("." + key.0)[1..] == key.0;
  }

  /** The binding of k after `value` was added under it, if it was. */
  ghost predicate Gains<K>(m: map<K, int>, m': map<K, int>, k: K, added: bool, value: int) {
    && (k in m' <==> k in m || added)
    && (k in m' ==> m'[k] == if added then value else m[k])
  }

  lemma AddsStep(ops: seq<Op>, package: string, k: string, e: (string, int))
    requires ops != []
    ensures AddsSymbol(ops, package, k)
      <==> (ops[0].Symbol? && k == FullName(package, ops[0].name)) || AddsSymbol(ops[1..], package, k)
    ensures AddsExtension(ops, e) <==> ops[0] == Extension("." + e.0, e.1) || AddsExtension(ops[1..], e)
  {
    hide FullName;
    assert ops == [ops[0]] + ops[1..];
  }

  lemma PlainOpAdds(p: PlainMaps, package: string, op: Op, value: int, k: string, e: (string, int))
    ensures var q := PlainOp(p, package, op, value);
      && q.files == p.files
      && Gains(p.symbols, q.symbols, k, op.Symbol? && k == FullName(package, op.name), value)
      && Gains(p.extensions, q.extensions, e, op == Extension("." + e.0, e.1), value)
  {
    match op {
      case Symbol(name) => FullNameIsAsString(package, name);
      case Extension(extendee, number) => DottedKey(extendee, number, e);
    }
    hide AsString, FullName;
  }

  lemma {:induction false} PlainOpsAdd(p: PlainMaps, package: string, ops: seq<Op>, value: int,
                                       k: string, e: (string, int))
    ensures var q := PlainOps(p, package, ops, value);
      && q.files == p.files
      && Gains(p.symbols, q.symbols, k, AddsSymbol(ops, package, k), value)
      && Gains(p.extensions, q.extensions, e, AddsExtension(ops, e), value)
    decreases |ops|
  {
    if ops != [] {
      hide AddsSymbol, AddsExtension, PlainOp, FullName;
      PlainOpAdds(p, package, ops[0], value, k, e);
      PlainOpsAdd(PlainOp(p, package, ops[0], value), package, ops[1..], value, k, e);
      AddsStep(ops, package, k, e);
    }
  }

  lemma AddsAreNew(f: FileProto, k: string, e: (string, int))
    ensures AddsSymbol(FileOps(f), f.package, k) <==> NewSymbol(f, k)
    ensures AddsExtension(FileOps(f), e) <==> NewExtension(f, e)
  {
    hide FileOps, FullName, Extends, Declares;
    FileOpsAre(f, Extension("." + e.0, e.1));
    if NewSymbol(f, k) {
      var name :| Declares(f, name) && k == FullName(f.package, name);
      FileOpsAre(f, Symbol(name));
      assert Symbol(name) in FileOps(f) && Symbol(name).Symbol?;
    }
    if AddsSymbol(FileOps(f), f.package, k) {
      var op :| op in FileOps(f) && op.Symbol? && k == FullName(f.package, op.name);
      FileOpsAre(f, op);
    }
  }

  /** Every declared name and every fully-qualified extension of the file, and nothing else, is added
      with the file's value. */
  lemma {:induction false} PlainFileAddsContents(p: PlainMaps, f: FileProto, value: int)
    ensures var q := PlainFile(p, f, value);
      && q.files == p.files[f.name := value]
      && (forall k :: Gains(p.symbols, q.symbols, k, NewSymbol(f, k), value))
      && forall e :: Gains(p.extensions, q.extensions, e, NewExtension(f, e), value)
  {
    hide FileOps, FullName, NewSymbol, NewExtension, AddsSymbol, AddsExtension, PlainOps, Gains;
    var p' := p.(files := p.files[f.name := value]);
    PlainOpsAdd(p', f.package, FileOps(f), value, "", ("", 0));
    forall k ensures Gains(p.symbols, PlainFile(p, f, value).symbols, k, NewSymbol(f, k), value) {
      PlainOpsAdd(p', f.package, FileOps(f), value, k, ("", 0));
      AddsAreNew(f, k, ("", 0));
    }
    forall e: (string, int)
      ensures Gains(p.extensions, PlainFile(p, f, value).extensions, e, NewExtension(f, e), value)
    {
      PlainOpsAdd(p', f.package, FileOps(f), value, "", e);
      AddsAreNew(f, "", e);
    }
  }

  // ----- what a successful AddFile adds to the index -----

  ghost predicate NoEmptyNames(f: FileProto) {
    forall name :: Declares(f, name) ==> name != ""
  }

  lemma NoEmptyOps(f: FileProto)
    requires NoEmptyNames(f)
    ensures NonEmptySymbols(FileOps(f))
  {
    var ops := FileOps(f);
    hide FileOps, Declares, Extends;
    forall i | 0 <= i < |ops| && ops[i].Symbol? ensures ops[i].name != "" { FileOpsAre(f, ops[i]); }
  }

  /** The key an operation is about to add is not in the plain maps. */
  ghost predicate KeyIsNew(p: PlainMaps, package: string, op: Op) {
    match op
    case Symbol(name) => FullName(package, name) !in p.symbols
    case Extension(extendee, number) => FullyQualified(extendee) ==> (extendee[1..], number) !in p.extensions
  }

  lemma AppliedIsNew(x: Index, p: PlainMaps, op: Op)
    requires x.values != [] && Refines(x, p) && Apply(x, op).0 && NonEmptySymbols([op])
    requires ValidName(x.values[|x.values| - 1].package)
    ensures KeyIsNew(p, x.values[|x.values| - 1].package, op)
  {
    assert op.Symbol? ==> [op][0].name != "";
    hide Refines, SymbolAdded, ExtensionAdded, AsString, ValidName, FullName;
    match op {
      case Symbol(name) =>
        SymbolAddedRefines(x, p, name);
        FullNameIsAsString(x.values[|x.values| - 1].package, name);
      case Extension(extendee, number) => ExtensionAddedRefines(x, p, extendee, number);
    }
  }

  lemma NewBefore(p: PlainMaps, package: string, first: Op, value: int, op: Op)
    requires KeyIsNew(PlainOp(p, package, first, value), package, op)
    ensures KeyIsNew(p, package, op)
  {
    hide AsString, FullName;
  }

  lemma {:induction false} OpsAreNew(x: Index, p: PlainMaps, ops: seq<Op>, op: Op)
    requires x.values != [] && Refines(x, p) && ApplyAll(x, ops).0 && NonEmptySymbols(ops) && op in ops
    requires ValidName(x.values[|x.values| - 1].package)
    ensures KeyIsNew(p, x.values[|x.values| - 1].package, op)
    decreases |ops|
  {
    hide Refines, ValidName, Apply, PlainOp, NonEmptySymbols, KeyIsNew, PlainOps;
    NonEmptyParts(ops);
    var last := x.values[|x.values| - 1];
    OpsStep(x, p, ops, last.package, last.value);
    if op == ops[0] {
      AppliedIsNew(x, p, op);
    } else {
      assert ops == [ops[0]] + ops[1..];
      ApplyRefines(x, p, ops[0]);
      OpsAreNew(Apply(x, ops[0]).1, PlainOp(p, last.package, ops[0], last.value), ops[1..], op);
      NewBefore(p, last.package, ops[0], last.value, op);
    }
  }

  /** A successful AddFile: nothing the file contains was stored before, and the index then stands
      for the old maps with the file's contents added. */
  lemma {:induction false} AddedFileIsNew(x: Index, p: PlainMaps, f: FileProto, value: int,
                                          k: string, e: (string, int))
    requires Refines(x, p) && FileAdded(x, f, value).0 && NoEmptyNames(f)
    ensures NewSymbol(f, k) ==> k !in p.symbols
    ensures NewExtension(f, e) ==> e !in p.extensions
  {
    hide FileOps, FullName, Extends, Declares, PlainOps, Refines, NameAdded, ApplyAll, NonEmptySymbols;
    NoEmptyOps(f);
    NamedIndex(x, p, f, value);
    var named := NameAdded(x.(values := x.values + [EncodedEntry(value, f.package)]), f.name).1;
    var p' := p.(files := p.files[f.name := value]);
    if NewSymbol(f, k) {
      var name :| Declares(f, name) && k == FullName(f.package, name);
      FileOpsAre(f, Symbol(name));
      OpsAreNew(named, p', FileOps(f), Symbol(name));
    }
    if NewExtension(f, e) {
      var op := Extension("." + e.0, e.1);
      FileOpsAre(f, op);
      OpsAreNew(named, p', FileOps(f), op);
      DottedKey("." + e.0, e.1, e);
    }
  }

  /** Where the loops of AddFile start. */
  lemma NamedIndex(x: Index, p: PlainMaps, f: FileProto, value: int)
    requires Refines(x, p) && FileAdded(x, f, value).0
    ensures var named := NameAdded(x.(values := x.values + [EncodedEntry(value, f.package)]), f.name).1;
      && named.values != [] && named.values[|named.values| - 1] == EncodedEntry(value, f.package)
      && ValidName(f.package) && Refines(named, p.(files := p.files[f.name := value]))
      && ApplyAll(named, FileOps(f)).0 && FileAdded(x, f, value) == ApplyAll(named, FileOps(f))
  {
    hide Refines, FileOps, ApplyAll, NameInFlat;
    var pushed := x.(values := x.values + [EncodedEntry(value, f.package)]);
    PushRefines(x, p, EncodedEntry(value, f.package));
    NameAddedRefines(pushed, p, f.name);
  }

  /** The lookups after a successful AddFile. The file answers for its name and for each of its
      fully-qualified extensions; all other names and extensions answer as before. */
  lemma {:induction false} AddedFileAnswers(x: Index, p: PlainMaps, f: FileProto, value: int,
                                            name: string, containingType: string, number: int)
    requires Refines(x, p) && FileAdded(x, f, value).0 && NoEmptyNames(f)
    ensures var x' := Flatten(FileAdded(x, f, value).1);
      && FileInFlat(x', name) == (if name == f.name then Simple.Some(value) else FileInFlat(Flatten(x), name))
      && ExtensionInFlat(x', containingType, number)
         == if Extends(f, "." + containingType, number) then Simple.Some(value)
            else ExtensionInFlat(Flatten(x), containingType, number)
  {
    hide Refines, FileAdded, Flatten, FileInFlat, ExtensionInFlat, PlainFile, NewSymbol, Extends;
    var x', q := FileAdded(x, f, value).1, PlainFile(p, f, value);
    NoEmptyOps(f);
    FileAddedRefines(x, p, f, value);
    PlainFileAddsContents(p, f, value);
    assert Gains(p.extensions, q.extensions, (containingType, number),
                 NewExtension(f, (containingType, number)), value);
    FindFileAnswers(x, p, name);
    FindFileAnswers(x', q, name);
    FindExtensionAnswers(x, p, containingType, number);
    FindExtensionAnswers(x', q, containingType, number);
  }

  /** A query at or under a declared name finds the file, and every other query answers as before,
      when no stored name is a dotted parent of another. */
  lemma {:induction false} AddedFileAnswersSymbols(x: Index, p: PlainMaps, f: FileProto, value: int, query: string)
    requires Refines(x, p) && FileAdded(x, f, value).0 && NoEmptyNames(f)
    requires PlainPrefixFree(PlainFile(p, f, value).symbols)
    ensures var found := SymbolInFlat(Flatten(FileAdded(x, f, value).1), query);
      found == if exists name :: Declares(f, name) && IsSubSymbol(FullName(f.package, name), query)
               then Simple.Some(value)
               else SymbolInFlat(Flatten(x), query)
  {
    hide Refines, FileAdded, Flatten, SymbolInFlat, PlainFile, IsSubSymbol, FullName, Declares, NewExtension;
    var x', q := FileAdded(x, f, value).1, PlainFile(p, f, value);
    NoEmptyOps(f);
    FileAddedRefines(x, p, f, value);
    PlainFileAddsContents(p, f, value);
    forall k | k in p.symbols ensures k in q.symbols {
      assert Gains(p.symbols, q.symbols, k, NewSymbol(f, k), value);
    }
    assert PlainPrefixFree(p.symbols);
    FindSymbolAnswers(x, p, query);
    FindSymbolAnswers(x', q, query);
    if name :| Declares(f, name) && IsSubSymbol(FullName(f.package, name), query) {
      var k := FullName(f.package, name);
      assert NewSymbol(f, k);
      assert Gains(p.symbols, q.symbols, k, true, value);
    } else {
      if k :| k in p.symbols && IsSubSymbol(k, query) {
        assert !NewSymbol(f, k);
        assert Gains(p.symbols, q.symbols, k, false, value);
      } else {
        forall k | k in q.symbols ensures !IsSubSymbol(k, query) {
          assert Gains(p.symbols, q.symbols, k, NewSymbol(f, k), value);
        }
      }
    }
  }
}
