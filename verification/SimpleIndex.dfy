/** The symbol table of SimpleDescriptorDatabase::DescriptorIndex. A std::map is the strictly
    increasing sequence of its entries; an iterator is an index, end() being the length. */
module SimpleIndex {
  import opened Symbols

  datatype Option<+T> = None | Some(value: T)
  datatype Entry<+V> = Entry(name: string, value: V)
  type Table<V> = seq<Entry<V>>

  ghost predicate Sorted<V>(t: Table<V>) {
    forall i, j :: 0 <= i < j < |t| ==> Less(t[i].name, t[j].name)
  }

  ghost predicate AllValid<V>(t: Table<V>) {
    forall i :: 0 <= i < |t| ==> ValidName(t[i].name)
  }

  /** The map invariant: no stored name is a dotted parent of another one. */
  ghost predicate PrefixFree<V>(t: Table<V>) {
    forall i, j :: 0 <= i < |t| && 0 <= j < |t| && IsSubSymbol(t[i].name, t[j].name) ==> i == j
  }

  /** std::map::upper_bound: the first entry that sorts after the key. */
  function UpperBound<V>(t: Table<V>, key: string): (u: nat)
    ensures u <= |t|
    ensures forall i :: 0 <= i < u ==> !Less(key, t[i].name)
    ensures u < |t| ==> Less(key, t[u].name)
  {
    if t == [] || Less(key, t[0].name) then 0 else 1 + UpperBound(t[1..], key)
  }

  /** Steps back from upper_bound, except from begin(): when every entry sorts after the key
      the result is the first entry, which is not less than or equal to the key. */
  function FindLastLessOrEqual<V>(t: Table<V>, key: string): (i: nat)
    ensures i <= |t| && (i == |t| <==> t == [])
  {
    var u := UpperBound(t, key);
    if u != 0 then u - 1 else u
  }

  lemma UpperBoundSplits<V>(t: Table<V>, key: string, i: nat)
    requires Sorted(t) && i < |t|
    ensures i >= UpperBound(t, key) <==> Less(key, t[i].name)
  {
    hide Less;
    var u := UpperBound(t, key);
    if i > u { LessTransitive(key, t[u].name, t[i].name); }
  }

  // ----- the decisions of AddSymbol and FindSymbol -----

  ghost predicate Admits<V>(t: Table<V>, name: string) {
    && ValidName(name)
    && (t != [] ==>
          var i := FindLastLessOrEqual(t, name);
          && !IsSubSymbol(t[i].name, name)
          && !(i + 1 < |t| && IsSubSymbol(name, t[i + 1].name)))
  }

  function Inserted<V>(t: Table<V>, name: string, value: V): Table<V> {
    var u := UpperBound(t, name);
    t[..u] + [Entry(name, value)] + t[u..]
  }

  function Lookup<V>(t: Table<V>, name: string): Option<V> {
    var i := FindLastLessOrEqual(t, name);
    if i != |t| && IsSubSymbol(t[i].name, name) then Some(t[i].value) else None
  }

  class DescriptorIndex<V> {
    var bySymbol: Table<V>

    constructor ()
      ensures bySymbol == []
    {
      bySymbol := [];
    }

    method AddSymbol(name: string, value: V) returns (ok: bool)
      modifies this
      ensures ok <==> Admits(old(bySymbol), name)
      ensures bySymbol == if ok then Inserted(old(bySymbol), name, value) else old(bySymbol)
    {
      var valid := ValidateSymbolName(name);
      if !valid { return false; }
      var iter := FindLastLessOrEqual(bySymbol, name);
      if iter == |bySymbol| {
        bySymbol := [Entry(name, value)];
        return true;
      }
      if IsSubSymbol(bySymbol[iter].name, name) { return false; }
      iter := iter + 1;
      if iter != |bySymbol| && IsSubSymbol(name, bySymbol[iter].name) { return false; }
      bySymbol := Inserted(bySymbol, name, value);
      return true;
    }

    method FindSymbol(name: string) returns (r: Option<V>)
      ensures r == Lookup(bySymbol, name)
    {
      var iter := FindLastLessOrEqual(bySymbol, name);
      if iter != |bySymbol| && IsSubSymbol(bySymbol[iter].name, name) {
        r := Some(bySymbol[iter].value);
      } else {
        r := None;
      }
    }
  }

  // ----- lookup -----

  ghost predicate Covered<V>(t: Table<V>, q: string) {
    exists i :: 0 <= i < |t| && IsSubSymbol(t[i].name, q)
  }

  /** Steps 2 to 9 of the argument in the header: the predecessor search lands on the match. */
  lemma {:induction false} PredecessorIsMatch<V>(t: Table<V>, q: string, m: nat)
    requires Sorted(t) && AllValid(t) && PrefixFree(t)
    requires m < |t| && IsSubSymbol(t[m].name, q)
    ensures FindLastLessOrEqual(t, q) == m
  {
    var u := UpperBound(t, q);
    LessOrEqualWhenParent(t[m].name, q);
    UpperBoundSplits(t, q, m);
    var f := u - 1;
    LessAsymmetric(t[m].name, t[f].name);
    if f != m { DottedBetween(t[m].name, t[f].name, q); }
  }

  /** On a prefix-free table the search returns the one entry that covers the query, or nothing. */
  lemma {:induction false} LookupCorrect<V>(t: Table<V>, q: string)
    requires Sorted(t) && AllValid(t) && PrefixFree(t)
    ensures forall m :: 0 <= m < |t| && IsSubSymbol(t[m].name, q) ==> Lookup(t, q) == Some(t[m].value)
    ensures Lookup(t, q).None? <==> !Covered(t, q)
    ensures forall m, k :: 0 <= m < |t| && 0 <= k < |t| && m != k ==>
      !(IsSubSymbol(t[m].name, q) && IsSubSymbol(t[k].name, q))
  {
    forall m | 0 <= m < |t| && IsSubSymbol(t[m].name, q)
      ensures FindLastLessOrEqual(t, q) == m
    {
      PredecessorIsMatch(t, q, m);
    }
  }

  /** Index of the last entry below `parent`, given that there is one. */
  lemma LastBelow<V>(t: Table<V>, parent: string, j: nat) returns (b: nat)
    requires j < |t| && IsSubSymbol(parent, t[j].name)
    ensures j <= b < |t| && IsSubSymbol(parent, t[b].name)
    ensures forall k :: b < k < |t| ==> !IsSubSymbol(parent, t[k].name)
  {
    b := |t| - 1;
    while !IsSubSymbol(parent, t[b].name)
      invariant j <= b < |t|
      invariant forall k :: b < k < |t| ==> !IsSubSymbol(parent, t[k].name)
      decreases b
    {
      b := b - 1;
    }
  }

  lemma PrefixOfPrefix(a: string, b: string, f: string)
    requires IsSubSymbol(a, b) && a != b && HasPrefix(f, b)
    ensures IsSubSymbol(a, f)
  {
    assert f[..|a|] == f[..|b|][..|a|];
    assert f[|a|] == f[..|b|][|a|];
  }

  /** A query that a stored parent covers but the predecessor search cannot answer. */
  lemma NestedNamesHideAQuery<V>(t: Table<V>, i: nat, j: nat) returns (q: string)
    requires Sorted(t) && AllValid(t)
    requires i < |t| && j < |t| && i != j && IsSubSymbol(t[i].name, t[j].name)
    ensures IsSubSymbol(t[i].name, q) && Lookup(t, q).None?
  {
    var a := t[i].name;
    var b := LastBelow(t, a, j);
    LessIrreflexive(t[i].name);
    assert t[j].name != a by {
      if i < j { assert Less(t[i].name, t[j].name); } else { assert Less(t[j].name, t[i].name); }
    }
    LessOrEqualWhenParent(a, t[j].name);
    assert i < j;
    assert Less(t[i].name, t[b].name);
    var last := t[b].name;
    q := last + "0";
    assert HasPrefix(q, a) by { assert q[..|a|] == last[..|a|]; }
    assert last < q && q[..|last|] == last;
    ParentSortsBefore(last, q);
    LessAsymmetric(q, last);
    UpperBoundSplits(t, q, b);
    if b + 1 < |t| && !Less(q, t[b + 1].name) {
      var f := t[b + 1].name;
      LessAsymmetric(last, f);
      PrefixIsConvex(last, f, q);
      PrefixOfPrefix(a, last, f);
    }
    assert FindLastLessOrEqual(t, q) == b by {
      if b + 1 < |t| { UpperBoundSplits(t, q, b + 1); }
    }
  }

  /** The search answers every covered query exactly when the table is prefix-free: the map
      invariant is not only sufficient for the lookup but necessary. */
  lemma {:induction false} LookupCompleteIffPrefixFree<V>(t: Table<V>)
    requires Sorted(t) && AllValid(t)
    ensures PrefixFree(t) <==> forall q :: Covered(t, q) ==> Lookup(t, q).Some?
  {
    if PrefixFree(t) {
      forall q | Covered(t, q) ensures Lookup(t, q).Some? { LookupCorrect(t, q); }
    } else {
      var i, j :| 0 <= i < |t| && 0 <= j < |t| && IsSubSymbol(t[i].name, t[j].name) && i != j;
      var q := NestedNamesHideAQuery(t, i, j);
      assert Covered(t, q);
    }
  }

  // ----- insertion -----

  ghost predicate Conflicts<V>(t: Table<V>, name: string) {
    exists i :: 0 <= i < |t| && (IsSubSymbol(t[i].name, name) || IsSubSymbol(name, t[i].name))
  }

  /** The one case the successor check misses: the name sorts before every stored name, so the
      predecessor search returns the first entry and the check starts at the second one. */
  ghost predicate Slips<V>(t: Table<V>, name: string) {
    && t != [] && Less(name, t[0].name)
    && IsSubSymbol(name, t[0].name)
    && !(1 < |t| && IsSubSymbol(name, t[1].name))
  }

  /** Everything below `name` sorts after it without a gap, so the entry next to `name` is below
      it as soon as any entry is. */
  lemma SuccessorIsBelow<V>(t: Table<V>, name: string, s: nat, k: nat)
    requires Sorted(t) && AllValid(t)
    requires s <= k < |t| && Less(name, t[s].name) && IsSubSymbol(name, t[k].name)
    ensures IsSubSymbol(name, t[s].name)
  {
    if s != k {
      LessAsymmetric(name, t[s].name);
      LessAsymmetric(t[s].name, t[k].name);
      DottedBetween(name, t[s].name, t[k].name);
    }
  }

  /** AddSymbol accepts a name exactly when it is valid and conflicts with no stored name, apart
      from the names that slip past the successor check. */
  lemma {:induction false} AdmitsExactly<V>(t: Table<V>, name: string)
    requires Sorted(t) && AllValid(t) && PrefixFree(t)
    ensures Admits(t, name) <==> ValidName(name) && (!Conflicts(t, name) || Slips(t, name))
  {
    if t != [] {
      var u, i := UpperBound(t, name), FindLastLessOrEqual(t, name);
      forall m | 0 <= m < |t| && IsSubSymbol(t[m].name, name)
        ensures m == i && u != 0
      {
        PredecessorIsMatch(t, name, m);
        LessOrEqualWhenParent(t[m].name, name);
      }
      forall k | 0 <= k < |t| && IsSubSymbol(name, t[k].name)
        ensures k >= u || t[k].name == name
        ensures u < |t| && k >= u ==> IsSubSymbol(name, t[u].name)
      {
        if name != t[k].name { ParentSortsBefore(name, t[k].name); }
        UpperBoundSplits(t, name, k);
        if k >= u { SuccessorIsBelow(t, name, u, k); }
      }
      if u == 0 && 1 < |t| {
        forall k | 1 <= k < |t| && IsSubSymbol(name, t[k].name)
          ensures IsSubSymbol(name, t[1].name)
        {
          UpperBoundSplits(t, name, 1);
          SuccessorIsBelow(t, name, 1, k);
        }
      }
    }
  }

  lemma InsertedKeepsOrder<V>(t: Table<V>, name: string, value: V)
    requires Sorted(t) && AllValid(t) && Admits(t, name)
    ensures Sorted(Inserted(t, name, value)) && AllValid(Inserted(t, name, value))
  {
    var u := UpperBound(t, name);
    var t' := Inserted(t, name, value);
    forall i, j | 0 <= i < j < |t'| ensures Less(t'[i].name, t'[j].name) {
      if j == u {
        LessTotal(name, t[i].name);
        LessIrreflexive(name);
        assert t[u - 1].name != name && !Less(name, t[u - 1].name);
        if i < u - 1 { LessAsymmetric(t[i].name, t[u - 1].name); }
      } else if i == u {
        UpperBoundSplits(t, name, j - 1);
      }
    }
  }

  /** Where the entries of the table are after an insertion. */
  lemma InsertedAt<V>(t: Table<V>, name: string, value: V)
    ensures var u, t' := UpperBound(t, name), Inserted(t, name, value);
      && |t'| == |t| + 1 && t'[u] == Entry(name, value)
      && (forall i :: 0 <= i < u ==> t'[i] == t[i]) && (forall i :: u <= i < |t| ==> t'[i + 1] == t[i])
      && forall i :: u < i < |t'| ==> t'[i] == t[i - 1]
  {
    hide UpperBound;
  }

  /** Without a conflict, adding a name relates no two entries. */
  lemma InsertedStaysPrefixFree<V>(t: Table<V>, name: string, value: V)
    requires PrefixFree(t) && !Conflicts(t, name)
    ensures PrefixFree(Inserted(t, name, value))
  {
    InsertedAt(t, name, value);
    hide UpperBound, Inserted, IsSubSymbol;
  }

  lemma InsertedWasPrefixFree<V>(t: Table<V>, name: string, value: V)
    requires PrefixFree(Inserted(t, name, value))
    ensures PrefixFree(t) && !Conflicts(t, name)
  {
    InsertedAt(t, name, value);
    hide UpperBound, Inserted, IsSubSymbol;
    var u := UpperBound(t, name);
    var t' := Inserted(t, name, value);
    forall i | 0 <= i < |t|
      ensures !IsSubSymbol(t[i].name, name) && !IsSubSymbol(name, t[i].name)
      ensures forall j :: 0 <= j < |t| && IsSubSymbol(t[i].name, t[j].name) ==> i == j
    {
      var i' := if i < u then i else i + 1;
      assert t'[i'] == t[i];
      forall j | 0 <= j < |t| && IsSubSymbol(t[i].name, t[j].name) ensures i == j {
        var j' := if j < u then j else j + 1;
        assert t'[j'] == t[j];
      }
    }
  }

  lemma {:induction false} InsertedPrefixFree<V>(t: Table<V>, name: string, value: V)
    requires Sorted(t) && AllValid(t) && Admits(t, name)
    ensures PrefixFree(Inserted(t, name, value)) <==> PrefixFree(t) && !Slips(t, name)
  {
    if PrefixFree(t) && !Slips(t, name) {
      AdmitsExactly(t, name);
      InsertedStaysPrefixFree(t, name, value);
    }
    if PrefixFree(Inserted(t, name, value)) {
      InsertedWasPrefixFree(t, name, value);
    }
  }

  lemma InsertedElements<V>(t: Table<V>, name: string, value: V, e: Entry<V>)
    ensures e in Inserted(t, name, value) <==> e in t || e == Entry(name, value)
  {
    var u := UpperBound(t, name);
    assert t == t[..u] + t[u..];
  }

  /** An accepted name that did not slip answers exactly the queries at or below it; every other
      query is answered as before. */
  lemma {:induction false} AddThenFind<V>(t: Table<V>, name: string, value: V, q: string)
    requires Sorted(t) && AllValid(t) && PrefixFree(t)
    requires Admits(t, name) && !Slips(t, name)
    ensures Lookup(Inserted(t, name, value), q) == if IsSubSymbol(name, q) then Some(value) else Lookup(t, q)
  {
    var t' := Inserted(t, name, value);
    InsertedKeepsOrder(t, name, value);
    InsertedPrefixFree(t, name, value);
    LookupCorrect(t', q);
    LookupCorrect(t, q);
    InsertedElements(t, name, value, Entry(name, value));
    if Covered(t, q) {
      var m :| 0 <= m < |t| && IsSubSymbol(t[m].name, q);
      InsertedElements(t, name, value, t[m]);
      var m' :| 0 <= m' < |t'| && t'[m'] == t[m];
    } else if Covered(t', q) {
      var m' :| 0 <= m' < |t'| && IsSubSymbol(t'[m'].name, q);
      InsertedElements(t, name, value, t'[m']);
    }
  }

  // ----- whole runs -----

  /** The table after a run of AddSymbol calls, rejected ones included. */
  ghost function Run<V>(t: Table<V>, adds: seq<Entry<V>>): Table<V>
    decreases |adds|
  {
    if adds == [] then t
    else Run(if Admits(t, adds[0].name) then Inserted(t, adds[0].name, adds[0].value) else t, adds[1..])
  }

  ghost predicate RunSlips<V>(t: Table<V>, adds: seq<Entry<V>>)
    decreases |adds|
  {
    && adds != []
    && ((Admits(t, adds[0].name) && Slips(t, adds[0].name))
        || RunSlips(if Admits(t, adds[0].name) then Inserted(t, adds[0].name, adds[0].value) else t, adds[1..]))
  }

  /** Over every run the table stays sorted with valid names, and it is prefix-free at the end
      exactly when no accepted name slipped past the successor check. */
  lemma {:induction false} RunInvariant<V>(t: Table<V>, adds: seq<Entry<V>>)
    requires Sorted(t) && AllValid(t)
    ensures Sorted(Run(t, adds)) && AllValid(Run(t, adds))
    ensures PrefixFree(Run(t, adds)) <==> PrefixFree(t) && !RunSlips(t, adds)
    decreases |adds|
  {
    if adds != [] {
      if Admits(t, adds[0].name) {
        InsertedKeepsOrder(t, adds[0].name, adds[0].value);
        InsertedPrefixFree(t, adds[0].name, adds[0].value);
        RunInvariant(Inserted(t, adds[0].name, adds[0].value), adds[1..]);
      } else {
        RunInvariant(t, adds[1..]);
      }
    }
  }

  /** The slip from the empty table: a parent added after its child is accepted, and some query
      that the parent covers is then not found. */
  lemma {:induction false} SlippingRun(parent: string, child: string, v: int, w: int)
    requires ValidName(parent) && ValidName(child) && IsSubSymbol(parent, child) && parent != child
    ensures var t := Run([], [Entry(child, v), Entry(parent, w)]);
      && t == [Entry(parent, w), Entry(child, v)]
      && exists q :: Covered(t, q) && Lookup(t, q).None?
  {
    ParentSortsBefore(parent, child);
    LessIrreflexive(parent);
    LessAsymmetric(parent, child);
    hide Less, ValidName, HasPrefix;
    var adds := [Entry(child, v), Entry(parent, w)];
    var first, t := [Entry(child, v)], [Entry(parent, w), Entry(child, v)];
    assert adds[1..] == [Entry(parent, w)] && adds[1..][1..] == [];
    assert Inserted([], child, v) == first;
    assert Inserted(first, parent, w) == t;
    assert Admits(first, parent);
    assert Run([], adds) == Run(first, adds[1..]) == Run(t, []) == t;
    var q := NestedNamesHideAQuery(t, 0, 1);
    assert Covered(t, q);
  }
}
