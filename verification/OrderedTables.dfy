/** The std::set plus sorted std::vector pair in which EncodedDescriptorDatabase keeps each of
    its three tables, the library algorithms applied to it, and the map it stands for. */
module OrderedTables {
  import opened Sequences

  /** Partition point: lower_bound and upper_bound return the first element accepted. */
  function FirstWhere<E>(s: seq<E>, p: E -> bool): (i: nat)
    ensures i <= |s|
    ensures forall j :: 0 <= j < i ==> !p(s[j])
    ensures i < |s| ==> p(s[i])
  {
    if s == [] || p(s[0]) then 0 else 1 + FirstWhere(s[1..], p)
  }

  /** std::set::insert: leaves the set alone when an equivalent element is there. */
  function SetInsert<E>(s: seq<E>, x: E, less: (E, E) -> bool): (bool, seq<E>) {
    var i := FirstWhere(s, (e: E) => !less(e, x));
    if i < |s| && !less(x, s[i]) then (false, s) else (true, s[..i] + [x] + s[i..])
  }

  /** std::merge: takes from the second range only when its element is strictly smaller. */
  function Merge<E>(a: seq<E>, b: seq<E>, less: (E, E) -> bool): seq<E> {
    if a == [] then b
    else if b == [] then a
    else if less(b[0], a[0]) then [b[0]] + Merge(a, b[1..], less)
    else [a[0]] + Merge(a[1..], b, less)
  }

  lemma MergeStep<E>(a: seq<E>, i: nat, b: seq<E>, j: nat, less: (E, E) -> bool)
    requires i < |a| && j < |b|
    ensures Merge(a[i..], b[j..], less)
      == if less(b[j], a[i]) then [b[j]] + Merge(a[i..], b[j + 1..], less) else [a[i]] + Merge(a[i + 1..], b[j..], less)
  {
    assert a[i..][1..] == a[i + 1..] && b[j..][1..] == b[j + 1..];
  }

  lemma MergeRest<E>(a: seq<E>, b: seq<E>, less: (E, E) -> bool)
    requires a == [] || b == []
    ensures Merge(a, b, less) == a + b
  {
  }

  /** MergeIntoFlat: drains the tree into the flat vector. */
  method MergeIntoFlat<E>(tree: seq<E>, flat: seq<E>, less: (E, E) -> bool) returns (tree': seq<E>, flat': seq<E>)
    ensures tree' == [] && flat' == Merge(tree, flat, less)
  {
    if tree == [] { return tree, flat; }
    flat' := [];
    var i, j := 0, 0;
    assert tree[0..] == tree && flat[0..] == flat;
    hide Merge;
    while i < |tree| && j < |flat|
      invariant i <= |tree| && j <= |flat|
      invariant flat' + Merge(tree[i..], flat[j..], less) == Merge(tree, flat, less)
    {
      MergeStep(tree, i, flat, j, less);
      if less(flat[j], tree[i]) {
        AppendAssociates(flat', [flat[j]], Merge(tree[i..], flat[j + 1..], less));
        flat', j := flat' + [flat[j]], j + 1;
      } else {
        AppendAssociates(flat', [tree[i]], Merge(tree[i + 1..], flat[j..], less));
        flat', i := flat' + [tree[i]], i + 1;
      }
    }
    MergeRest(tree[i..], flat[j..], less);
    AppendAssociates(flat', tree[i..], flat[j..]);
    flat' := flat' + tree[i..] + flat[j..];
    tree' := [];
  }

  /** Nothing is lost and nothing duplicated, whatever the comparator does. */
  lemma {:induction false} MergeElements<E>(a: seq<E>, b: seq<E>, less: (E, E) -> bool)
    ensures multiset(Merge(a, b, less)) == multiset(a) + multiset(b)
  {
    if a != [] && b != [] {
      assert a == [a[0]] + a[1..] && b == [b[0]] + b[1..];
      if less(b[0], a[0]) { MergeElements(a, b[1..], less); } else { MergeElements(a[1..], b, less); }
    }
  }

  lemma MergeMembers<E>(a: seq<E>, b: seq<E>, less: (E, E) -> bool, e: E)
    ensures e in Merge(a, b, less) <==> e in a || e in b
  {
    MergeElements(a, b, less);
    assert e in multiset(Merge(a, b, less)) <==> e in multiset(a) + multiset(b);
  }

  // ----- tables as maps -----

  ghost predicate TotalOrder<K(!new)>(less: (K, K) -> bool) {
    && (forall a :: !less(a, a))
    && (forall a, b, c :: less(a, b) && less(b, c) ==> less(a, c))
    && (forall a, b :: less(a, b) || a == b || less(b, a))
  }

  ghost predicate Ordered<E, K>(s: seq<E>, key: E -> K, less: (K, K) -> bool) {
    forall i, j :: 0 <= i < j < |s| ==> less(key(s[i]), key(s[j]))
  }

  /** The comparator the code uses orders these elements by their keys. */
  ghost predicate Agrees<E(!new), K>(s: seq<E>, cmp: (E, E) -> bool, key: E -> K, less: (K, K) -> bool) {
    forall x, y :: x in s && y in s ==> (cmp(x, y) <==> less(key(x), key(y)))
  }

  /** A tree and a flat vector that together hold exactly the bindings of `m`. */
  ghost predicate Holds<E(!new), K(!new)>(tree: seq<E>, flat: seq<E>, key: E -> K, val: E -> int, less: (K, K) -> bool,
                                          m: map<K, int>) {
    && Ordered(tree, key, less) && Ordered(flat, key, less)
    && (forall x, y :: x in tree && y in flat ==> key(x) != key(y))
    && (forall x :: x in tree || x in flat ==> key(x) in m && m[key(x)] == val(x))
    && (forall k :: k in m ==> exists x :: (x in tree || x in flat) && key(x) == k)
  }

  lemma {:induction false} MergeOrdered<E(!new), K(!new)>(a: seq<E>, b: seq<E>, cmp: (E, E) -> bool, key: E -> K,
                                                         less: (K, K) -> bool)
    requires TotalOrder(less) && Agrees(a + b, cmp, key, less)
    requires Ordered(a, key, less) && Ordered(b, key, less)
    requires forall x, y :: x in a && y in b ==> key(x) != key(y)
    ensures Ordered(Merge(a, b, cmp), key, less)
  {
    if a != [] && b != [] {
      var fromB := cmp(b[0], a[0]);
      assert a[0] in a + b && b[0] in a + b;
      var a', b' := if fromB then a else a[1..], if fromB then b[1..] else b;
      MergeOrdered(a', b', cmp, key, less);
      var first, rest := if fromB then b[0] else a[0], Merge(a', b', cmp);
      forall j | 0 <= j < |rest| ensures less(key(first), key(rest[j])) {
        MergeMembers(a', b', cmp, rest[j]);
      }
    }
  }

  /** Draining the tree leaves the map unchanged and the flat vector strictly sorted. */
  lemma FlattenHolds<E(!new), K(!new)>(tree: seq<E>, flat: seq<E>, cmp: (E, E) -> bool, key: E -> K, val: E -> int,
                                       less: (K, K) -> bool, m: map<K, int>)
    requires TotalOrder(less) && Agrees(tree + flat, cmp, key, less)
    requires Holds(tree, flat, key, val, less, m)
    ensures Holds([], Merge(tree, flat, cmp), key, val, less, m)
  {
    MergeOrdered(tree, flat, cmp, key, less);
    forall x ensures x in Merge(tree, flat, cmp) <==> x in tree || x in flat {
      MergeMembers(tree, flat, cmp, x);
    }
  }

  /** What lower_bound finds in a sorted vector: the element with the key, if there is one. */
  lemma LowerBoundHit<E(!new), K(!new)>(s: seq<E>, key: E -> K, less: (K, K) -> bool, k: K, i: nat)
    requires TotalOrder(less) && Ordered(s, key, less)
    requires i <= |s| && (forall j :: 0 <= j < i ==> less(key(s[j]), k)) && (i < |s| ==> !less(key(s[i]), k))
    ensures (i < |s| && key(s[i]) == k) <==> exists x :: x in s && key(x) == k
    ensures (i < |s| && !less(k, key(s[i]))) <==> (i < |s| && key(s[i]) == k)
  {
    forall j | i < j < |s| ensures key(s[j]) != k {
      assert less(key(s[i]), key(s[j]));
    }
  }

  lemma OrderedAround<E, K>(s: seq<E>, x: E, i: nat, key: E -> K, less: (K, K) -> bool)
    requires i <= |s| && Ordered(s, key, less)
    requires forall j :: 0 <= j < i ==> less(key(s[j]), key(x))
    requires forall j :: i <= j < |s| ==> less(key(x), key(s[j]))
    ensures Ordered(s[..i] + [x] + s[i..], key, less)
    ensures forall y :: y in s[..i] + [x] + s[i..] <==> y in s || y == x
  {
    assert s == s[..i] + s[i..];
  }

  lemma LowerBoundRest<E(!new), K(!new)>(s: seq<E>, key: E -> K, less: (K, K) -> bool, k: K, i: nat)
    requires TotalOrder(less) && Ordered(s, key, less)
    requires i < |s| && !less(key(s[i]), k) && key(s[i]) != k
    ensures forall j :: i <= j < |s| ==> less(k, key(s[j]))
  {
    forall j | i < j < |s| ensures less(k, key(s[j])) {
      assert less(key(s[i]), key(s[j]));
    }
  }

  /** std::set::insert succeeds exactly on a new key, and keeps the set ordered. */
  lemma SetInsertOrdered<E(!new), K(!new)>(s: seq<E>, x: E, cmp: (E, E) -> bool, key: E -> K, less: (K, K) -> bool)
    requires TotalOrder(less) && Agrees(s + [x], cmp, key, less) && Ordered(s, key, less)
    ensures var (ok, s') := SetInsert(s, x, cmp);
      && (ok <==> forall y :: y in s ==> key(y) != key(x))
      && (ok ==> Ordered(s', key, less) && forall y :: y in s' <==> y in s || y == x)
  {
    var i := FirstWhere(s, (e: E) => !cmp(e, x));
    assert x in s + [x];
    forall j | 0 <= j < |s|
      ensures cmp(s[j], x) <==> less(key(s[j]), key(x))
      ensures cmp(x, s[j]) <==> less(key(x), key(s[j]))
    {
      assert s[j] in s + [x];
    }
    LowerBoundHit(s, key, less, key(x), i);
    if i < |s| && key(s[i]) != key(x) { LowerBoundRest(s, key, less, key(x), i); }
    if forall y :: y in s ==> key(y) != key(x) { OrderedAround(s, x, i, key, less); }
  }

  /** Adding a key that neither part has adds exactly one binding. */
  lemma InsertHolds<E(!new), K(!new)>(tree: seq<E>, flat: seq<E>, x: E, tree': seq<E>, key: E -> K, val: E -> int,
                                      less: (K, K) -> bool, m: map<K, int>)
    requires Holds(tree, flat, key, val, less, m)
    requires forall y :: y in tree || y in flat ==> key(y) != key(x)
    requires Ordered(tree', key, less) && forall y :: y in tree' <==> y in tree || y == x
    ensures key(x) !in m && Holds(tree', flat, key, val, less, m[key(x) := val(x)])
  {
    var m' := m[key(x) := val(x)];
    forall k | k in m' ensures exists y :: (y in tree' || y in flat) && key(y) == k {
      if k != key(x) {
        var y :| (y in tree || y in flat) && key(y) == k;
        assert y in tree' || y in flat;
      } else {
        assert x in tree';
      }
    }
  }

  /** Holds depends on the key and value functions only at the stored elements. */
  lemma HoldsFrame<E(!new), K(!new)>(tree: seq<E>, flat: seq<E>, key: E -> K, val: E -> int, key': E -> K,
                     val': E -> int,
                                     less: (K, K) -> bool, m: map<K, int>)
    requires Holds(tree, flat, key, val, less, m)
    requires forall x :: x in tree || x in flat ==> key(x) == key'(x) && val(x) == val'(x)
    ensures Holds(tree, flat, key', val', less, m)
  {
    assert forall i :: 0 <= i < |tree| ==> tree[i] in tree;
    assert forall i :: 0 <= i < |flat| ==> flat[i] in flat;
    forall k | k in m ensures exists x :: (x in tree || x in flat) && key'(x) == k {
      var x :| (x in tree || x in flat) && key(x) == k;
      assert key'(x) == k;
    }
  }

  // ----- tables whose parts share keys, as a refused insertion leaves them -----

  /** What lower_bound stops at in m: the element of a with the key, else the one of b. */
  ghost predicate Hits<E(!new), K(!new)>(m: seq<E>, a: seq<E>, b: seq<E>, key: E -> K, k: K, notBefore: E -> bool) {
    var i := FirstWhere(m, notBefore);
    && (forall x :: x in a && key(x) == k ==> i < |m| && m[i] == x)
    && (forall x :: x in b && key(x) == k ==> i < |m| && key(m[i]) == k && (m[i] == x || m[i] in a))
    && (i < |m| && key(m[i]) == k ==> m[i] in a || m[i] in b)
  }

  lemma HitsAtOnce<E(!new), K(!new)>(a: seq<E>, b: seq<E>, first: E, rest: seq<E>, key: E -> K, less: (K, K) -> bool,
                                     k: K, notBefore: E -> bool)
    requires TotalOrder(less) && Ordered(a, key, less) && Ordered(b, key, less) && a != [] && b != []
    requires notBefore(first) && !less(key(first), k)
    requires if first == a[0] then !less(key(b[0]), key(first)) else first == b[0] && less(key(first), key(a[0]))
    ensures Hits([first] + rest, a, b, key, k, notBefore)
  {
    AllAfter(a, key, less, a[0]);
    AllAfter(b, key, less, b[0]);
    assert FirstWhere([first] + rest, notBefore) == 0;
    hide FirstWhere, Ordered;
  }

  lemma HitsLater<E(!new), K(!new)>(m: seq<E>, a: seq<E>, b: seq<E>, a': seq<E>, b': seq<E>, first: E, key: E -> K,
                    k: K,
                                    notBefore: E -> bool)
    requires Hits(m, a', b', key, k, notBefore) && !notBefore(first) && key(first) != k
    requires (a == a' && b == [first] + b') || (a == [first] + a' && b == b')
    ensures Hits([first] + m, a, b, key, k, notBefore)
  {
    assert ([first] + m)[1..] == m;
    assert FirstWhere([first] + m, notBefore) == 1 + FirstWhere(m, notBefore);
    hide FirstWhere;
  }

  /** lower_bound in the merged vector: with a key in both parts, the tree's element comes first. */
  lemma {:induction false} MergeHit<E(!new), K(!new)>(a: seq<E>, b: seq<E>, cmp: (E, E) -> bool, key: E -> K,
                                                     less: (K, K) -> bool, k: K, notBefore: E -> bool)
    requires TotalOrder(less) && Agrees(a + b, cmp, key, less) && Ordered(a, key, less) && Ordered(b, key, less)
    requires forall x :: notBefore(x) <==> !less(key(x), k)
    ensures Hits(Merge(a, b, cmp), a, b, key, k, notBefore)
  {
    if a == [] || b == [] {
      SortedHit(if a == [] then b else a, key, less, k, notBefore);
    } else {
      assert a[0] in a + b && b[0] in a + b;
      var fromB := cmp(b[0], a[0]);
      var first := if fromB then b[0] else a[0];
      var a', b' := if fromB then a else a[1..], if fromB then b[1..] else b;
      assert Merge(a, b, cmp) == [first] + Merge(a', b', cmp);
      if notBefore(first) {
        hide Hits, Merge;
        HitsAtOnce(a, b, first, Merge(a', b', cmp), key, less, k, notBefore);
      } else {
        assert a == [a[0]] + a[1..] && b == [b[0]] + b[1..];
        hide Hits, Merge;
        MergeHit(a', b', cmp, key, less, k, notBefore);
        HitsLater(Merge(a', b', cmp), a, b, a', b', first, key, k, notBefore);
      }
    }
  }

  lemma SortedHit<E(!new), K(!new)>(s: seq<E>, key: E -> K, less: (K, K) -> bool, k: K, notBefore: E -> bool)
    requires TotalOrder(less) && Ordered(s, key, less) && forall x :: notBefore(x) <==> !less(key(x), k)
    ensures forall x :: x in s && key(x) == k ==> FirstWhere(s, notBefore) < |s| && s[FirstWhere(s, notBefore)] == x
  {
    var i := FirstWhere(s, notBefore);
    forall j | 0 <= j < |s| && key(s[j]) == k ensures j == i {}
  }

  lemma AllAfter<E(!new), K(!new)>(s: seq<E>, key: E -> K, less: (K, K) -> bool, first: E)
    requires Ordered(s, key, less) && s != [] && s[0] == first
    ensures forall x :: x in s ==> x == first || less(key(first), key(x))
  {
  }

  lemma {:induction false} FirstWhereCongruent<E>(s: seq<E>, p: E -> bool, q: E -> bool)
    requires forall x :: x in s ==> (p(x) <==> q(x))
    ensures FirstWhere(s, p) == FirstWhere(s, q)
  {
    if s != [] { FirstWhereCongruent(s[1..], p, q); }
  }

  lemma {:induction false} MergeCongruent<E>(a: seq<E>, b: seq<E>, cmp: (E, E) -> bool, cmp': (E, E) -> bool)
    requires forall x, y :: x in b && y in a ==> (cmp(x, y) <==> cmp'(x, y))
    ensures Merge(a, b, cmp) == Merge(a, b, cmp')
  {
    if a != [] && b != [] {
      if cmp(b[0], a[0]) { MergeCongruent(a, b[1..], cmp, cmp'); } else { MergeCongruent(a[1..], b, cmp, cmp'); }
    }
  }
}
