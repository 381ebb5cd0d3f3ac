/** Dotted symbol names: which characters are valid, the order in which std::string compares
    them, and the "is a dotted parent of" relation the descriptor indexes rely on. */
module Symbols {
  predicate ValidChar(c: char) {
    c == '.' || c == '_' || '0' <= c <= '9' || 'A' <= c <= 'Z' || 'a' <= c <= 'z'
  }

  /** By their codes: the dot, the digits, the capital letters, the underscore and the small letters. */
  lemma ValidChars(c: char)
    ensures ValidChar(c) <==>
      var k := c as int; k == 46 || 48 <= k <= 57 || 65 <= k <= 90 || k == 95 || 97 <= k <= 122
  {
  }

  ghost predicate ValidName(name: string) {
    forall i :: 0 <= i < |name| ==> ValidChar(name[i])
  }

  method ValidateSymbolName(name: string) returns (ok: bool)
    ensures ok <==> ValidName(name)
  {
    for i := 0 to |name|
      invariant forall j :: 0 <= j < i ==> ValidChar(name[j])
    {
      var c := name[i];
      if c != '.' && c != '_' && (c < '0' || c > '9') && (c < 'A' || c > 'Z') && (c < 'a' || c > 'z') {
        return false;
      }
    }
    return true;
  }

  /** Lexicographic order, as operator< of std::string computes it. */
  predicate Less(a: string, b: string) {
    b != [] && (a == [] || a[0] < b[0] || (a[0] == b[0] && Less(a[1..], b[1..])))
  }

  predicate HasPrefix(s: string, prefix: string) {
    |prefix| <= |s| && s[..|prefix|] == prefix
  }

  /** `super` is `sub` itself, or lies below it in the dotted hierarchy. The parameter names are
      those of the source, although the first argument is the enclosing symbol. */
  predicate IsSubSymbol(sub: string, super: string) {
    sub == super || (HasPrefix(super, sub) && |sub| < |super| && super[|sub|] == '.')
  }

  lemma {:induction false} LessIrreflexive(a: string)
    ensures !Less(a, a)
  {
    if a != [] { LessIrreflexive(a[1..]); }
  }

  lemma {:induction false} LessTransitive(a: string, b: string, c: string)
    requires Less(a, b) && Less(b, c)
    ensures Less(a, c)
  {
    if a != [] && a[0] == b[0] == c[0] { LessTransitive(a[1..], b[1..], c[1..]); }
  }

  lemma {:induction false} LessTotal(a: string, b: string)
    ensures Less(a, b) || a == b || Less(b, a)
  {
    if a != [] && b != [] && a[0] == b[0] {
      LessTotal(a[1..], b[1..]);
      assert a == [a[0]] + a[1..] && b == [b[0]] + b[1..];
    }
  }

  lemma LessAsymmetric(a: string, b: string)
    ensures !(Less(a, b) && Less(b, a))
  {
    LessIrreflexive(a);
    if Less(a, b) && Less(b, a) { LessTransitive(a, b, a); }
  }

  /** Dropping a common prefix does not change the order. */
  lemma {:induction false} LessAfterPrefix(p: string, a: string, b: string)
    ensures Less(p + a, p + b) <==> Less(a, b)
  {
    if p == [] {
      assert p + a == a && p + b == b;
    } else {
      assert (p + a)[1..] == p[1..] + a && (p + b)[1..] == p[1..] + b;
      LessAfterPrefix(p[1..], a, b);
    }
  }

  lemma ParentSortsBefore(parent: string, s: string)
    requires HasPrefix(s, parent)
    ensures parent == s || Less(parent, s)
  {
    var rest := s[|parent|..];
    assert s == parent + rest && parent == parent + [];
    LessAfterPrefix(parent, [], rest);
  }

  lemma LessOrEqualWhenParent(parent: string, q: string)
    requires IsSubSymbol(parent, q)
    ensures !Less(q, parent)
  {
    ParentSortsBefore(parent, q);
    LessAsymmetric(parent, q);
    LessIrreflexive(q);
  }

  /** Whatever sorts between a string and one of its extensions also extends it. */
  lemma {:induction false} PrefixIsConvex(p: string, f: string, s: string)
    requires HasPrefix(s, p)
    requires !Less(f, p) && !Less(s, f)
    ensures HasPrefix(f, p)
    ensures !Less(s[|p|..], f[|p|..])
  {
    if p != [] {
      assert s[0] == p[0] && s[..|p|][1..] == s[1..][..|p| - 1];
      assert f[0] == p[0];
      PrefixIsConvex(p[1..], f[1..], s[1..]);
      assert f == [f[0]] + f[1..] && p == [p[0]] + p[1..];
      assert f[..|p|] == [f[0]] + f[1..][..|p| - 1];
      assert s[|p|..] == s[1..][|p| - 1..] && f[|p|..] == f[1..][|p| - 1..];
    }
  }

  /** The heart of the predecessor search: a valid name that sorts between a dotted parent and
      anything below that parent is itself below it, because '.' is the least valid character. */
  lemma {:induction false} DottedBetween(parent: string, f: string, s: string)
    requires IsSubSymbol(parent, s) && ValidName(f)
    requires !Less(f, parent) && !Less(s, f)
    ensures IsSubSymbol(parent, f)
  {
    if parent == s {
      LessTotal(f, parent);
    } else {
      PrefixIsConvex(parent, f, s);
      if f != parent {
        assert f == parent + f[|parent|..];
        var f', s' := f[|parent|..], s[|parent|..];
        assert f'[0] <= s'[0] == '.';
        assert ValidChar(f[|parent|]);
      }
    }
  }
}
