/** DynamicMessageFactory::GetPrototypeNoLock: one prototype for each message type, built by
    recursion over a type graph that may have cycles. */
module PrototypeFactory {
  import opened MessageLayout

  type TypeId = nat
  /** types[i] is the message type of field i, where that field has one. */
  datatype MessageType = MessageType(descriptor: Descriptor, types: seq<TypeId>)
  type Schema = map<TypeId, MessageType>
  const NULL: nat := 0

  /** The constructor asks for the prototype of the entry type of each map field. */
  predicate IsMapLink(m: MessageType, i: nat)
    requires i < |m.descriptor.fields|
  {
    var f := m.descriptor.fields[i];
    !InRealOneof(m.descriptor, f) && f.cppType == Message && f.repeated && f.isMap
  }

  /** CrossLinkPrototypes points singular message fields at the prototype of their type. */
  predicate IsSingularLink(m: MessageType, i: nat)
    requires i < |m.descriptor.fields|
  {
    var f := m.descriptor.fields[i];
    f.cppType == Message && !f.weak && !InRealOneof(m.descriptor, f) && !f.repeated
  }

  /** The fields whose slot in the prototype points at another prototype: of the message fields that
      are in no oneof of the user's, the maps, and the singular ones that are not weak. */
  ghost predicate IsLink(m: MessageType, i: nat) {
    i < |m.descriptor.fields| &&
    var f := m.descriptor.fields[i];
    && f.cppType == Message
    && (f.inOneof && f.oneof < |m.descriptor.oneofs| ==> m.descriptor.oneofs[f.oneof].synthetic)
    && if f.repeated then f.isMap else !f.weak
  }

  /** One of the two kinds of links: those of map fields and those of singular ones. */
  ghost predicate IsLinkOf(m: MessageType, i: nat, repeated: bool) {
    IsLink(m, i) && m.descriptor.fields[i].repeated == repeated
  }

  /** The tests in the code pick these fields. */
  lemma TestsAreExact(m: MessageType, i: nat)
    requires i < |m.descriptor.fields|
    ensures IsMapLink(m, i) <==> IsLinkOf(m, i, true)
    ensures IsSingularLink(m, i) <==> IsLinkOf(m, i, false)
  {
  }

  ghost predicate ValidSchema(g: Schema) {
    forall t :: t in g ==>
      && |g[t].types| == |g[t].descriptor.fields|
      && forall i :: 0 <= i < |g[t].types| && IsLink(g[t], i) ==> g[t].types[i] in g
  }

  /** b can be reached from a in n links. */
  ghost predicate ReachedIn(g: Schema, a: TypeId, b: TypeId, n: nat)
    decreases n
  {
    if n == 0 then a == b
    else a in g && exists i :: 0 <= i < |g[a].types| && IsLink(g[a], i) && ReachedIn(g, g[a].types[i], b, n - 1)
  }

  ghost predicate Reachable(g: Schema, a: TypeId, b: TypeId) {
    exists n: nat :: ReachedIn(g, a, b, n)
  }

  lemma ReachableSelf(g: Schema, a: TypeId)
    ensures Reachable(g, a, a)
  {
    assert ReachedIn(g, a, a, 0);
  }

  lemma ReachableVia(g: Schema, a: TypeId, i: nat, b: TypeId)
    requires a in g && i < |g[a].types| && IsLink(g[a], i) && Reachable(g, g[a].types[i], b)
    ensures Reachable(g, a, b)
  {
    var n: nat :| ReachedIn(g, g[a].types[i], b, n);
    assert ReachedIn(g, a, b, n + 1);
  }

  type Protos = map<TypeId, nat>
  type Links = map<(TypeId, nat), nat>

  /** Every recorded prototype exists, and no two types share one. */
  ghost predicate Sound(g: Schema, protos: Protos, next: nat) {
    && next > NULL && protos.Keys <= g.Keys
    && (forall x :: x in protos ==> NULL < protos[x] < next)
    && (forall x, y :: x in protos && y in protos && x != y ==> protos[x] != protos[y])
  }

  /** Link i of type x points at the prototype of the type it names. */
  ghost predicate Linked(g: Schema, protos: Protos, links: Links, x: TypeId, i: nat)
    requires x in g && i < |g[x].types|
  {
    g[x].types[i] in protos && (x, i) in links && links[(x, i)] == protos[g[x].types[i]]
  }

  ghost predicate Complete(g: Schema, protos: Protos, links: Links, x: TypeId)
    requires x in g
  {
    forall i :: 0 <= i < |g[x].types| && IsLink(g[x], i) ==> Linked(g, protos, links, x, i)
  }

  /** Nothing but the links of recorded types is in `links`. */
  ghost predicate LinksOnly(g: Schema, protos: Protos, links: Links) {
    forall x, i: nat :: (x, i) in links ==> x in protos && x in g && IsLink(g[x], i)
  }

  ghost predicate Extends(p: Protos, p': Protos) {
    forall x :: x in p ==> x in p' && p'[x] == p[x]
  }

  ghost predicate SameLinks(l: Links, l': Links, x: TypeId, i: nat) {
    ((x, i) in l' <==> (x, i) in l) && ((x, i) in l ==> l'[(x, i)] == l[(x, i)])
  }

  /** What building from type t did: new types are complete and reachable from t, old types keep
      their prototype and, all but `self`, their links. */
  ghost predicate BuiltExcept(g: Schema, t: TypeId, self: set<TypeId>, p: Protos, l: Links, p': Protos, l': Links) {
    && Extends(p, p') && p'.Keys <= g.Keys
    && (forall x :: x in p' && x !in p ==> Complete(g, p', l', x) && Reachable(g, t, x))
    && (forall x, i :: x in p && x !in self ==> SameLinks(l, l', x, i))
  }

  ghost predicate Built(g: Schema, t: TypeId, p: Protos, l: Links, p': Protos, l': Links) {
    BuiltExcept(g, t, {}, p, l, p', l')
  }

  lemma CompleteKept(g: Schema, p: Protos, l: Links, p': Protos, l': Links, x: TypeId)
    requires x in g && Complete(g, p, l, x) && Extends(p, p') && forall i :: SameLinks(l, l', x, i)
    ensures Complete(g, p', l', x)
  {
    forall i | 0 <= i < |g[x].types| && IsLink(g[x], i) ensures Linked(g, p', l', x, i) {
      assert Linked(g, p, l, x, i) && SameLinks(l, l', x, i);
    }
  }

  /** t asks for the type that its link i names. */
  lemma BuiltThen(g: Schema, t: TypeId, i: nat, p: Protos, l: Links, p': Protos, l': Links, p'': Protos, l'': Links)
    requires t in g && i < |g[t].types| && IsLink(g[t], i)
    requires BuiltExcept(g, t, {t}, p, l, p', l') && Built(g, g[t].types[i], p', l', p'', l'')
    ensures BuiltExcept(g, t, {t}, p, l, p'', l'')
  {
    forall x | x in p'' && x !in p ensures Complete(g, p'', l'', x) && Reachable(g, t, x) {
      if x in p' { CompleteKept(g, p', l', p'', l'', x); } else { ReachableVia(g, t, i, x); }
    }
    forall x, j | x in p && x != t ensures SameLinks(l, l'', x, j) {
      assert SameLinks(l, l', x, j) && SameLinks(l', l'', x, j);
    }
  }

  lemma LinkWritten(g: Schema, t: TypeId, i: nat, p: Protos, l: Links, p': Protos, l': Links, q: nat)
    requires t in p && BuiltExcept(g, t, {t}, p, l, p', l')
    ensures BuiltExcept(g, t, {t}, p, l, p', l'[(t, i) := q])
  {
    var l'' := l'[(t, i) := q];
    forall x | x in p' && x !in p ensures Complete(g, p', l'', x) {
      forall j ensures SameLinks(l', l'', x, j) {}
      CompleteKept(g, p', l', p', l'', x);
    }
    forall x, j | x in p && x != t ensures SameLinks(l, l'', x, j) { assert SameLinks(l, l', x, j); }
  }

  lemma LinkedKept(g: Schema, p: Protos, l: Links, p': Protos, l': Links, x: TypeId, i: nat)
    requires x in g && i < |g[x].types| && Linked(g, p, l, x, i) && Extends(p, p') && SameLinks(l, l', x, i)
    ensures Linked(g, p', l', x, i)
  {
  }

  /** Asking for the target of link i and writing the answer leaves t's other links alone. */
  lemma OwnLinks(g: Schema, t: TypeId, i: nat, p: Protos, l: Links, p': Protos, l': Links, q: nat, l'': Links)
    requires t in g && t in p && i < |g[t].types| && Built(g, g[t].types[i], p, l, p', l')
    requires g[t].types[i] in p' && p'[g[t].types[i]] == q && l'' == l'[(t, i) := q]
    ensures Linked(g, p', l'', t, i)
    ensures forall j :: 0 <= j < |g[t].types| && j != i && Linked(g, p, l, t, j) ==> Linked(g, p', l'', t, j)
    ensures forall j :: j != i ==> SameLinks(l, l'', t, j)
  {
    forall j | j != i ensures SameLinks(l, l'', t, j) { assert SameLinks(l, l', t, j); }
    forall j | 0 <= j < |g[t].types| && j != i && Linked(g, p, l, t, j) ensures Linked(g, p', l'', t, j) {
      LinkedKept(g, p, l, p', l'', t, j);
    }
  }

  /** The map links made by the constructor and the singular links made afterwards are all. */
  lemma {:induction false} BothPhases(g: Schema, t: TypeId, before: Protos, p: Protos, l: Links, p': Protos, l': Links,
                                      p'': Protos, l'': Links)
    requires ValidSchema(g) && t in g && t !in before && Extends(before, p) && p.Keys == before.Keys + {t}
    requires MapLinksMade(g, t, |g[t].types|, p, l, p', l') && SingularLinksMade(g, t, |g[t].types|, p', l', p'', l'')
    ensures Built(g, t, before, l, p'', l'')
  {
    forall i | 0 <= i < |g[t].types| && IsLink(g[t], i) ensures Linked(g, p'', l'', t, i) {
      if IsLinkOf(g[t], i, true) { LinkedKept(g, p', l', p'', l'', t, i); }
    }
    assert Complete(g, p'', l'', t);
    forall x | x in p'' && x !in before ensures Complete(g, p'', l'', x) && Reachable(g, t, x) {
      if x == t {
        ReachableSelf(g, t);
      } else if x in p' {
        assert forall i :: SameLinks(l', l'', x, i);
        CompleteKept(g, p', l', p'', l'', x);
      }
    }
    forall x, j | x in before ensures SameLinks(l, l'', x, j) {
      assert SameLinks(l, l', x, j) && SameLinks(l', l'', x, j);
    }
  }

  lemma BuiltExtends(g: Schema, t: TypeId, p: Protos, l: Links, p': Protos, l': Links, x: TypeId)
    requires Built(g, t, p, l, p', l') && x in p
    ensures x in p'
  {
  }

  lemma NothingBuilt(g: Schema, t: TypeId, self: set<TypeId>, p: Protos, l: Links)
    requires p.Keys <= g.Keys
    ensures BuiltExcept(g, t, self, p, l, p, l)
  {
  }

  lemma EntryAdded(g: Schema, p: Protos, t: TypeId, q: nat)
    requires t in g && t !in p
    ensures Extends(p, p[t := q]) && p[t := q].Keys == p.Keys + {t}
    ensures |g.Keys - p[t := q].Keys| < |g.Keys - p.Keys|
  {
    KeysOfUpdate(p, t, q);
    OneLess(g.Keys, p.Keys, t);
  }

  lemma OneLess(all: set<TypeId>, done: set<TypeId>, t: TypeId)
    requires t in all && t !in done
    ensures |all - (done + {t})| < |all - done|
  {
    assert all - (done + {t}) == (all - done) - {t};
  }

  lemma TwiceUpdated(p: Protos, t: TypeId, q: nat, q': nat)
    ensures p[t := q][t := q'] == p[t := q']
  {
  }

  lemma KeysOfUpdate(p: Protos, t: TypeId, q: nat)
    ensures p[t := q].Keys == p.Keys + {t}
  {
  }

  lemma SoundEntry(g: Schema, p: Protos, t: TypeId, next: nat)
    requires Sound(g, p, next) && t in g && t !in p
    ensures Sound(g, p[t := next], next + 1)
  {
  }

  lemma SubsetSize<T>(a: set<T>, b: set<T>)
    requires a <= b
    ensures |a| <= |b|
  {
    assert b == a + (b - a);
  }

  lemma FewerMissing(g: Schema, p: Protos, p': Protos)
    requires Extends(p, p')
    ensures |g.Keys - p'.Keys| <= |g.Keys - p.Keys|
  {
    SubsetSize(g.Keys - p'.Keys, g.Keys - p.Keys);
  }

  /** The map links of the fields before i are made. */
  ghost predicate MapLinksMade(g: Schema, t: TypeId, i: nat, p: Protos, l: Links, p': Protos, l': Links)
    requires t in g && i <= |g[t].types|
  {
    && BuiltExcept(g, t, {t}, p, l, p', l')
    && forall j :: 0 <= j < i && IsLinkOf(g[t], j, true) ==> Linked(g, p', l', t, j)
  }

  /** The singular links of the fields before i are made; all other links of t are as they were. */
  ghost predicate SingularLinksMade(g: Schema, t: TypeId, i: nat, p: Protos, l: Links, p': Protos, l': Links)
    requires t in g && i <= |g[t].types|
  {
    && BuiltExcept(g, t, {t}, p, l, p', l')
    && (forall j :: 0 <= j < i && IsLinkOf(g[t], j, false) ==> Linked(g, p', l', t, j))
    && forall j :: 0 <= j < |g[t].descriptor.fields| && (j >= i || !IsLinkOf(g[t], j, false)) ==> SameLinks(l, l', t, j)
  }

  lemma NoMapLinksYet(g: Schema, t: TypeId, p: Protos, l: Links)
    requires t in g && p.Keys <= g.Keys
    ensures MapLinksMade(g, t, 0, p, l, p, l)
  {
  }

  lemma NoSingularLinksYet(g: Schema, t: TypeId, p: Protos, l: Links)
    requires t in g && p.Keys <= g.Keys
    ensures SingularLinksMade(g, t, 0, p, l, p, l)
  {
  }

  /** Building keeps the types that were there, so the number of types still missing never grows. */
  lemma MapLinksGrow(g: Schema, t: TypeId, i: nat, p: Protos, l: Links, p': Protos, l': Links)
    requires t in g && t in p && i <= |g[t].types| && MapLinksMade(g, t, i, p, l, p', l')
    ensures t in p' && p'[t] == p[t] && |g.Keys - p'.Keys| <= |g.Keys - p.Keys|
    ensures i < |g[t].types| && !IsLinkOf(g[t], i, true) ==>
      MapLinksMade(g, t, i + 1, p, l, p', l')
  {
    FewerMissing(g, p, p');
  }

  lemma SingularLinksGrow(g: Schema, t: TypeId, i: nat, p: Protos, l: Links, p': Protos, l': Links)
    requires t in g && t in p && i <= |g[t].types| && SingularLinksMade(g, t, i, p, l, p', l')
    ensures t in p' && p'[t] == p[t] && |g.Keys - p'.Keys| <= |g.Keys - p.Keys|
    ensures i < |g[t].types| && !IsLinkOf(g[t], i, false) ==>
      SingularLinksMade(g, t, i + 1, p, l, p', l')
  {
    FewerMissing(g, p, p');
  }

  lemma MapLinkMade(g: Schema, t: TypeId, i: nat, p: Protos, l: Links, p': Protos, l': Links, p'': Protos, l'': Links,
                    l3: Links)
    requires t in g && t in p && i < |g[t].types| && IsLink(g[t], i)
    requires MapLinksMade(g, t, i, p, l, p', l') && Built(g, g[t].types[i], p', l', p'', l'')
    requires g[t].types[i] in p'' && l3 == l''[(t, i) := p''[g[t].types[i]]]
    ensures MapLinksMade(g, t, i + 1, p, l, p'', l3)
  {
    BuiltThen(g, t, i, p, l, p', l', p'', l'');
    LinkWritten(g, t, i, p, l, p'', l'', p''[g[t].types[i]]);
    OwnLinks(g, t, i, p', l', p'', l'', p''[g[t].types[i]], l3);
    hide BuiltExcept, Linked, IsLink, IsLinkOf;
  }

  lemma SingularLinkMade(g: Schema, t: TypeId, i: nat, p: Protos, l: Links, p': Protos, l': Links, p'': Protos,
                         l'': Links, l3: Links)
    requires t in g && t in p && i < |g[t].types| && IsLink(g[t], i) && i < |g[t].descriptor.fields|
    requires IsLinkOf(g[t], i, false)
    requires SingularLinksMade(g, t, i, p, l, p', l') && Built(g, g[t].types[i], p', l', p'', l'')
    requires g[t].types[i] in p'' && l3 == l''[(t, i) := p''[g[t].types[i]]]
    ensures SingularLinksMade(g, t, i + 1, p, l, p'', l3)
  {
    BuiltThen(g, t, i, p, l, p', l', p'', l'');
    LinkWritten(g, t, i, p, l, p'', l'', p''[g[t].types[i]]);
    OwnLinks(g, t, i, p', l', p'', l'', p''[g[t].types[i]], l3);
    forall j | j != i && SameLinks(l, l', t, j) ensures SameLinks(l, l3, t, j) { assert SameLinks(l', l3, t, j); }
    hide BuiltExcept, Linked, IsLink, IsLinkOf, SameLinks;
  }

  ghost predicate AllComplete(g: Schema, p: Protos, l: Links) {
    forall x :: x in p ==> x in g && Complete(g, p, l, x)
  }

  lemma {:induction false} ReachedIsPresent(g: Schema, p: Protos, l: Links, a: TypeId, b: TypeId, n: nat)
    requires AllComplete(g, p, l) && a in p && ReachedIn(g, a, b, n)
    ensures b in p
    decreases n
  {
    if n > 0 {
      var i :| 0 <= i < |g[a].types| && IsLink(g[a], i) && ReachedIn(g, g[a].types[i], b, n - 1);
      assert Linked(g, p, l, a, i);
      ReachedIsPresent(g, p, l, g[a].types[i], b, n - 1);
    }
  }

  /** A call from outside leaves exactly the types reachable from t added, all of them complete. */
  lemma {:induction false} BuiltIsReachable(g: Schema, t: TypeId, p: Protos, l: Links, p': Protos, l': Links)
    requires AllComplete(g, p, l) && Built(g, t, p, l, p', l') && t in p'
    ensures AllComplete(g, p', l') && forall x :: x in p' <==> x in p || Reachable(g, t, x)
  {
    forall x | x in p' ensures x in g && Complete(g, p', l', x) {
      if x in p {
        assert forall i :: SameLinks(l, l', x, i);
        CompleteKept(g, p, l, p', l', x);
      }
    }
    forall x | Reachable(g, t, x) ensures x in p' {
      var n: nat :| ReachedIn(g, t, x, n);
      ReachedIsPresent(g, p', l', t, x, n);
    }
    assert forall x :: x in p ==> x in p';
  }

  lemma LinkAdded(g: Schema, p: Protos, l: Links, t: TypeId, i: nat, q: nat)
    requires LinksOnly(g, p, l) && t in p && t in g && IsLink(g[t], i)
    ensures LinksOnly(g, p, l[(t, i) := q])
  {
  }

  /** When all recorded types are complete, the entries of `links` are exactly their links. */
  lemma {:induction false} LinkedExactly(g: Schema, p: Protos, l: Links, x: TypeId, i: nat)
    requires ValidSchema(g) && AllComplete(g, p, l) && LinksOnly(g, p, l)
    ensures (x, i) in l <==> x in p && IsLink(g[x], i)
    ensures (x, i) in l ==> g[x].types[i] in p && l[(x, i)] == p[g[x].types[i]]
  {
    if x in p && IsLink(g[x], i) { assert Complete(g, p, l, x) && Linked(g, p, l, x, i); }
  }

  class DynamicMessageFactory {
    const schema: Schema
    var prototypes: Protos
    var links: Links
    var next: nat

    ghost predicate Valid()
      reads this
    {
      ValidSchema(schema) && Sound(schema, prototypes, next) && LinksOnly(schema, prototypes, links)
    }

    constructor (schema: Schema)
      requires ValidSchema(schema)
      ensures Valid() && this.schema == schema && prototypes == map[] && links == map[]
    {
      this.schema := schema;
      prototypes, links, next := map[], map[], 1;
    }

    /** GetPrototype, under the factory's lock: on every finite type graph it ends, with one
        prototype for each type reachable from t and every link pointing at the right one. */
    method GetPrototype(t: TypeId) returns (prototype: nat)
      requires Valid() && AllComplete(schema, prototypes, links) && t in schema
      modifies this
      ensures Valid() && AllComplete(schema, prototypes, links)
      ensures prototype != NULL && t in prototypes && prototypes[t] == prototype
      ensures forall x, i: nat :: (x, i) in links <==> x in prototypes && IsLink(schema[x], i)
      ensures forall x, i: nat :: (x, i) in links ==>
        schema[x].types[i] in prototypes && links[(x, i)] == prototypes[schema[x].types[i]]
      ensures forall x :: x in prototypes <==> x in old(prototypes) || Reachable(schema, t, x)
      ensures forall x :: x in old(prototypes) ==> x in prototypes && prototypes[x] == old(prototypes)[x]
    {
      ghost var p, l := prototypes, links;
      prototype := GetPrototypeNoLock(t);
      BuiltIsReachable(schema, t, p, l, prototypes, links);
      assert Extends(p, prototypes);
      forall x, i: nat
        ensures (x, i) in links <==> x in prototypes && IsLink(schema[x], i)
        ensures (x, i) in links ==>
          schema[x].types[i] in prototypes && links[(x, i)] == prototypes[schema[x].types[i]]
      {
        LinkedExactly(schema, prototypes, links, x, i);
      }
      hide Sound, ValidSchema, AllComplete, BuiltExcept, Reachable;
    }

    /** The entry of a new type: it is made first and holds the new prototype right after. */
    method AddEntry(t: TypeId) returns (prototype: nat)
      requires Valid() && t in schema && t !in prototypes
      modifies this
      ensures Valid() && prototype == old(next) != NULL
      ensures prototypes == old(prototypes)[t := prototype] && links == old(links)
    {
      SoundEntry(schema, prototypes, t, next);
      TwiceUpdated(prototypes, t, NULL, next);
      assert next != NULL;
      hide Sound, ValidSchema;
      prototypes := prototypes[t := NULL];
      prototype := next;
      next := next + 1;
      prototypes := prototypes[t := prototype];
    }

    /** An entry is made before the recursion starts and holds the new prototype by then, so that a
        type met again on the way down is found and its prototype is never null. */
    method GetPrototypeNoLock(t: TypeId) returns (prototype: nat)
      requires Valid() && t in schema
      modifies this
      ensures Valid() && prototype != NULL && t in prototypes && prototypes[t] == prototype
      ensures Built(schema, t, old(prototypes), old(links), prototypes, links)
      decreases |schema.Keys - prototypes.Keys|, 0
    {
      NothingBuilt(schema, t, {}, prototypes, links);
      if t in prototypes { return prototypes[t]; }
      assert ValidSchema(schema);
      ghost var before := prototypes;
      EntryAdded(schema, before, t, next);
      prototype := AddEntry(t);
      hide *;
      ghost var p, l := prototypes, links;
      SharedCtor(t);
      ghost var p', l' := prototypes, links;
      MapLinksGrow(schema, t, |schema[t].types|, p, l, p', l');
      CrossLinkPrototypes(t);
      SingularLinksGrow(schema, t, |schema[t].types|, p', l', prototypes, links);
      BothPhases(schema, t, before, p, l, p', l', prototypes, links);
    }

    /** Link i of t is pointed at the prototype of its type. */
    method LinkField(t: TypeId, i: nat) returns (ghost built: Links)
      requires Valid() && t in schema && t in prototypes && IsLink(schema[t], i)
      requires i < |schema[t].types| && schema[t].types[i] in schema
      modifies this
      ensures Valid() && Built(schema, schema[t].types[i], old(prototypes), old(links), prototypes, built)
      ensures schema[t].types[i] in prototypes && links == built[(t, i) := prototypes[schema[t].types[i]]]
      decreases |schema.Keys - prototypes.Keys|, 1
    {
      hide Sound, ValidSchema, BuiltExcept, IsLink, LinksOnly;
      ghost var p, l := prototypes, links;
      var prototype := GetPrototypeNoLock(schema[t].types[i]);
      built := links;
      BuiltExtends(schema, schema[t].types[i], p, l, prototypes, links, t);
      LinkAdded(schema, prototypes, links, t, i, prototype);
      links := links[(t, i) := prototype];
    }

    /** The part of the constructor that recurses: the map fields. */
    method SharedCtor(t: TypeId)
      requires Valid() && t in schema && t in prototypes
      modifies this
      ensures Valid() && MapLinksMade(schema, t, |schema[t].types|, old(prototypes), old(links), prototypes, links)
      decreases |schema.Keys - prototypes.Keys|, 2
    {
      ghost var p, l := prototypes, links;
      NoMapLinksYet(schema, t, p, l);
      assert ValidSchema(schema);
      hide *;
      for i := 0 to |schema[t].types|
        invariant Valid() && MapLinksMade(schema, t, i, p, l, prototypes, links)
      {
        ghost var p', l' := prototypes, links;
        SameLength(schema, t);
        TestsAreExact(schema[t], i);
        MapLinksGrow(schema, t, i, p, l, p', l');
        if IsMapLink(schema[t], i) {
          LinkInSchema(schema, t, i);
          ghost var built := LinkField(t, i);
          MapLinkMade(schema, t, i, p, l, p', l', prototypes, built, links);
        }
      }
    }

    /** The body of the loop of CrossLinkPrototypes. */
    method CrossLinkField(t: TypeId, i: nat, ghost p: Protos, ghost l: Links)
      requires Valid() && t in schema && t in p && i < |schema[t].types|
      requires SingularLinksMade(schema, t, i, p, l, prototypes, links)
      modifies this
      ensures Valid() && SingularLinksMade(schema, t, i + 1, p, l, prototypes, links)
      decreases |schema.Keys - p.Keys|, 2
    {
      ghost var p', l' := prototypes, links;
      SameLength(schema, t);
      TestsAreExact(schema[t], i);
      hide *;
      SingularLinksGrow(schema, t, i, p, l, p', l');
      if IsSingularLink(schema[t], i) {
        LinkInSchema(schema, t, i);
        ghost var built := LinkField(t, i);
        SingularLinkMade(schema, t, i, p, l, p', l', prototypes, built, links);
      }
    }

    method CrossLinkPrototypes(t: TypeId)
      requires Valid() && t in schema && t in prototypes
      modifies this
      ensures Valid() && SingularLinksMade(schema, t, |schema[t].types|, old(prototypes), old(links), prototypes, links)
      decreases |schema.Keys - prototypes.Keys|, 3
    {
      ghost var p, l := prototypes, links;
      NoSingularLinksYet(schema, t, p, l);
      hide *;
      for i := 0 to |schema[t].types|
        invariant Valid() && SingularLinksMade(schema, t, i, p, l, prototypes, links)
      {
        CrossLinkField(t, i, p, l);
      }
    }
  }

  lemma SameLength(g: Schema, t: TypeId)
    requires ValidSchema(g) && t in g
    ensures |g[t].types| == |g[t].descriptor.fields|
  {
  }

  lemma LinkInSchema(g: Schema, t: TypeId, i: nat)
    requires ValidSchema(g) && t in g && i < |g[t].types| == |g[t].descriptor.fields|
    requires IsMapLink(g[t], i) || IsSingularLink(g[t], i)
    ensures IsLink(g[t], i) && g[t].types[i] in g
  {
  }
}
