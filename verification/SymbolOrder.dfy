/** The comparator of EncodedDescriptorDatabase's symbol table, which avoids building the dotted
    name, compares like the dotted name itself. */
module SymbolOrder {
  import opened Symbols

  /** A stored symbol keeps its package apart; a search string is one piece. */
  datatype SymbolKey = Stored(package: string, symbol: string) | Plain(str: string)

  function AsString(k: SymbolKey): string {
    match k
    case Stored(package, symbol) => package + (if package == "" then "" else ".") + symbol
    case Plain(str) => str
  }

  function GetParts(k: SymbolKey): (string, string) {
    match k
    case Stored(package, symbol) => if package == "" then (symbol, "") else (package, symbol)
    case Plain(str) => (str, "")
  }

  /** std::string::substr(0, n). */
  function Head(s: string, n: nat): string {
    if n <= |s| then s[..n] else s
  }

  predicate SymbolCompare(lhs: SymbolKey, rhs: SymbolKey) {
    var l, r := GetParts(lhs), GetParts(rhs);
    var lHead, rHead := Head(l.0, |r.0|), Head(r.0, |l.0|);
    if lHead != rHead then
      Less(lHead, rHead)
    else if |l.0| == |r.0| then
      Less(l.1, r.1)
    else
      Less(AsString(lhs), AsString(rhs))
  }

  /** The pairs on which the comparator departs from the name order: an entry with a package and
      an empty symbol, named by the package and a dot, against the name of the package alone. */
  predicate Confused(lhs: SymbolKey, rhs: SymbolKey) {
    && rhs.Stored? && rhs.symbol == "" && rhs.package != ""
    && (lhs == Plain(rhs.package) || lhs == Stored("", rhs.package))
  }

  /** No key on the left is confused with such a key. */
  predicate Indexable(k: SymbolKey) {
    k.Stored? ==> k.symbol != "" || k.package == ""
  }

  /** Equally long, different beginnings decide the comparison whatever follows. */
  lemma {:induction false} HeadsDecide(a: string, b: string, c: string, d: string)
    requires |a| == |b| && a != b
    ensures Less(a + c, b + d) <==> Less(a, b)
  {
    assert (a + c)[0] == a[0] && (b + d)[0] == b[0];
    if a[0] == b[0] {
      assert (a + c)[1..] == a[1..] + c && (b + d)[1..] == b[1..] + d;
      assert a == [a[0]] + a[1..] && b == [b[0]] + b[1..];
      HeadsDecide(a[1..], b[1..], c, d);
    }
  }

  lemma FirstPartIsPrefix(k: SymbolKey, n: nat)
    ensures var p := GetParts(k).0; AsString(k) == Head(p, n) + AsString(k)[|Head(p, n)|..]
  {
    var p := GetParts(k).0;
    assert AsString(k)[..|p|] == p;
    assert AsString(k)[..|Head(p, n)|] == Head(p, n);
  }

  /** What the name adds to the first part: nothing, or a dot and the second part. */
  function Tail(k: SymbolKey): string {
    AsString(k)[|GetParts(k).0|..]
  }

  lemma NameFromParts(k: SymbolKey)
    ensures var (first, second) := GetParts(k);
      && AsString(k) == first + Tail(k) && (Tail(k) == "" || Tail(k) == "." + second)
      && (second != "" ==> Tail(k) == "." + second)
    ensures GetParts(k).1 == "" && Tail(k) != "" <==> k.Stored? && k.symbol == "" && k.package != ""
  {
    if k.Stored? && k.package != "" {
      assert AsString(k) == k.package + ("." + k.symbol);
    } else {
      assert AsString(k) == GetParts(k).0;
    }
  }

  /** With equal first parts the second parts decide as the tails do, unless the left name ends
      with its first part and the right one goes on with a bare dot. */
  lemma TailsDecide(l: string, r: string, lTail: string, rTail: string)
    requires lTail == "" || lTail == "." + l
    requires rTail == "" || rTail == "." + r
    requires (l != "" ==> lTail != "") && (r != "" ==> rTail != "")
    ensures (Less(l, r) <==> Less(lTail, rTail)) <==> !(lTail == "" && r == "" && rTail != "")
  {
    if lTail != "" && rTail != "" { LessAfterPrefix(".", l, r); }
  }

  /** The comparator agrees with the lexicographic order of full dotted names on exactly the pairs
      that are not confused. */
  lemma {:induction false} CompareIsNameOrderExactly(lhs: SymbolKey, rhs: SymbolKey)
    ensures (SymbolCompare(lhs, rhs) <==> Less(AsString(lhs), AsString(rhs))) <==> !Confused(lhs, rhs)
  {
    var l, r := GetParts(lhs), GetParts(rhs);
    var lHead, rHead := Head(l.0, |r.0|), Head(r.0, |l.0|);
    if lHead != rHead {
      FirstPartIsPrefix(lhs, |r.0|);
      FirstPartIsPrefix(rhs, |l.0|);
      HeadsDecide(lHead, rHead, AsString(lhs)[|lHead|..], AsString(rhs)[|rHead|..]);
    } else if |l.0| == |r.0| {
      NameFromParts(lhs);
      NameFromParts(rhs);
      assert l.0 == lHead == rHead == r.0;
      LessAfterPrefix(l.0, Tail(lhs), Tail(rhs));
      TailsDecide(l.1, r.1, Tail(lhs), Tail(rhs));
    }
  }

  /** Hence it is the name order for all entries with a symbol and all search strings. */
  lemma {:induction false} CompareIsNameOrder(lhs: SymbolKey, rhs: SymbolKey)
    requires Indexable(rhs)
    ensures SymbolCompare(lhs, rhs) <==> Less(AsString(lhs), AsString(rhs))
  {
    CompareIsNameOrderExactly(lhs, rhs);
  }

  /** What the library algorithms demand of their comparator: never less than itself, transitive
      and total up to equal names, each except for confused pairs and for no others. */
  lemma {:induction false} CompareIsStrictWeakOrder(a: SymbolKey, b: SymbolKey, c: SymbolKey)
    ensures !SymbolCompare(a, a)
    ensures SymbolCompare(a, b) && SymbolCompare(b, c) ==> (SymbolCompare(a, c) <==> !Confused(a, c))
    ensures !SymbolCompare(a, b) && !SymbolCompare(b, a)
      <==> AsString(a) == AsString(b) || Confused(a, b) || Confused(b, a)
  {
    EmptySymbolIsConfused(a, a);
    EmptySymbolIsConfused(a, b);
    EmptySymbolIsConfused(b, a);
    EmptySymbolIsConfused(b, c);
    CompareIsNameOrderExactly(a, a);
    CompareIsNameOrderExactly(a, b);
    CompareIsNameOrderExactly(b, a);
    CompareIsNameOrderExactly(b, c);
    CompareIsNameOrderExactly(a, c);
    LessIrreflexive(AsString(a));
    LessTotal(AsString(a), AsString(b));
    LessAsymmetric(AsString(a), AsString(b));
    hide *;
    if Less(AsString(a), AsString(b)) && Less(AsString(b), AsString(c)) {
      LessTransitive(AsString(a), AsString(b), AsString(c));
    }
  }

  /** For every package name p: "p" sorts before the entry named "p.", and the comparator holds
      neither below the other. */
  lemma {:induction false} EmptySymbolIsConfused(lhs: SymbolKey, rhs: SymbolKey)
    ensures Confused(lhs, rhs) ==>
      && !SymbolCompare(lhs, rhs) && !SymbolCompare(rhs, lhs)
      && Less(AsString(lhs), AsString(rhs)) && AsString(rhs) == AsString(lhs) + "."
  {
    if Confused(lhs, rhs) {
      var p := rhs.package;
      assert AsString(lhs) == p && AsString(rhs) == p + "." && p + "" == p;
      assert Less("", ".");
      LessAfterPrefix(p, "", ".");
    }
  }

  /** Transitivity is really lost: "p!" sorts between the two, in the comparator's own eyes. */
  lemma {:induction false} ConfusionBreaksTransitivity(p: string)
    requires p != ""
    ensures var a, b, c := Plain(p), Plain(p + "!"), Stored(p, "");
      SymbolCompare(a, b) && SymbolCompare(b, c) && !SymbolCompare(a, c)
  {
    var a, b, c := Plain(p), Plain(p + "!"), Stored(p, "");
    LessAfterPrefix(p, "", "!");
    assert p + "" == p;
    LessAfterPrefix(p, "!", ".");
    assert AsString(c) == p + ".";
    CompareIsNameOrderExactly(a, b);
    CompareIsNameOrderExactly(b, c);
    CompareIsNameOrderExactly(a, c);
  }
}
