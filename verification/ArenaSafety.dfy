/** Safety of ArenaProtocol over every interleaving. */
module ArenaSafety {
  import opened ArenaProtocol

  // ----- what a step of thread t leaves alone -----

  ghost predicate Extends(s: State, s': State, t: nat) {
    && |s'.threads| == |s.threads|
    && (forall u :: 0 <= u < |s.threads| && u != t ==> s'.threads[u] == s.threads[u])
    && s.issued <= s'.issued
    && (forall y :: y in s.serials ==> y in s'.serials && Owner(s', y) == Owner(s, y))
    && (forall y :: y in s.serials && Owner(s, y) != t ==> Next(s', y) == Next(s, y))
    && (forall a :: a in s.arenas ==> a in s'.arenas && s'.arenas[a].tag == s.arenas[a].tag && Grows(s, s', t, a))
    && (forall a :: a in s'.arenas && a !in s.arenas ==>
          && LifeCycleId(s'.arenas[a].tag) !in s.issued && LifeCycleId(s'.arenas[a].tag) != UNSEEN
          && forall x :: x in s'.arenas[a].list ==> Owner(s', x) == t)
  }

  ghost predicate Grows(s: State, s': State, t: nat, a: nat)
    requires a in s.arenas && a in s'.arenas
  {
    var list, list' := s.arenas[a].list, s'.arenas[a].list;
    list' == list || (|list'| > 0 && list' == [list'[0]] + list && Owner(s', list'[0]) == t)
  }

  lemma MineKept(s: State, s': State, t: nat, u: nat, a: nat, x: Addr)
    requires Extends(s, s', t) && Mine(s, u, a, x)
    ensures Mine(s', u, a, x)
  {
    assert Grows(s, s', t, a);
  }

  lemma NoneMineKept(s: State, s': State, t: nat, u: nat, a: nat)
    requires ListsOk(s) && Extends(s, s', t) && u != t && NoneMine(s, u, a)
    ensures NoneMine(s', u, a)
  {
    assert Grows(s, s', t, a) && Linked(s, a);
  }

  lemma NoneMineBeforeKept(s: State, s': State, t: nat, u: nat, a: nat, cur: Addr)
    requires ListsOk(s) && Extends(s, s', t) && u != t && a in s.arenas && cur in s.arenas[a].list
    requires NoneMineBefore(s, u, a, cur)
    ensures a in s'.arenas && NoneMineBefore(s', u, a, cur)
  {
    assert Grows(s, s', t, a) && Linked(s, a);
    var list, list' := s.arenas[a].list, s'.arenas[a].list;
    forall i, j | 0 <= j < i < |list'| && list'[i] == cur ensures Owner(s', list'[j]) != u {
      if list' != list {
        assert list'[i] == list[i - 1];
        if j > 0 { assert list'[j] == list[j - 1]; }
      } else {
        assert list[i] == cur;
      }
    }
  }

  lemma PendingKept(s: State, s': State, t: nat, u: nat, x: Addr)
    requires Extends(s, s', t) && u != t && Pending(s, u, x)
    ensures Pending(s', u, x)
  {
    forall a | a in s'.arenas ensures x !in s'.arenas[a].list {
      if a in s.arenas { assert Grows(s, s', t, a); }
    }
  }

  lemma OtherKept(s: State, s': State, t: nat, u: nat)
    requires ListsOk(s) && Extends(s, s', t) && u < |s.threads| && u != t && PcOk(s, u) && CacheOk(s, u)
    ensures PcOk(s', u) && CacheOk(s', u)
  {
    var pc := s.threads[u].pc;
    forall a, x | Mine(s, u, a, x) ensures Mine(s', u, a, x) { MineKept(s, s', t, u, a, x); }
    forall a | NoneMine(s, u, a) ensures NoneMine(s', u, a) { NoneMineKept(s, s', t, u, a); }
    forall x | Pending(s, u, x) ensures Pending(s', u, x) { PendingKept(s, s', t, u, x); }
    if pc.Traverse? && pc.cur != NULL { NoneMineBeforeKept(s, s', t, u, pc.a, pc.cur); }
  }

  lemma StepKeepsInv(s: State, s': State, t: nat)
    requires Inv(s) && Extends(s, s', t) && t < |s.threads|
    requires IdsOk(s') && TagsOk(s') && ListsOk(s') && PcOk(s', t) && CacheOk(s', t)
    ensures Inv(s')
  {
    assert forall u :: 0 <= u < |s.threads| ==> PcOk(s, u) && CacheOk(s, u);
    hide PcOk, CacheOk, ListsOk, IdsOk, TagsOk;
    forall u | 0 <= u < |s'.threads| ensures PcOk(s', u) && CacheOk(s', u) {
      if u != t { OtherKept(s, s', t, u); }
    }
  }

  // ----- steps that change only the thread itself -----

  /** The thread's own fields change; the id it holds and the shared state do not. */
  ghost predicate OwnStep(s: State, s': State, t: nat) {
    && t < |s.threads| == |s'.threads|
    && s' == s.(threads := s'.threads)
    && s'.threads[t].nextId == s.threads[t].nextId
    && forall u :: 0 <= u < |s.threads| && u != t ==> s'.threads[u] == s.threads[u]
  }

  lemma IdsFrame(s: State, s': State)
    requires IdsOk(s) && s'.batches == s.batches && s'.issued == s.issued && |s'.threads| == |s.threads|
    requires forall u :: 0 <= u < |s.threads| ==> s'.threads[u].nextId == s.threads[u].nextId
    ensures IdsOk(s')
  {
    forall u | 0 <= u < |s'.threads| ensures BatchOk(s', u) { assert BatchOk(s, u); }
  }

  lemma SameArenaKept(s: State, s': State, b: nat)
    requires b in s.arenas && b in s'.arenas && s'.arenas[b] == s.arenas[b] && s'.serials == s.serials
    requires Linked(s, b) && OneEach(s, b)
    ensures Linked(s', b) && OneEach(s', b)
  {
  }

  lemma SameListsOk(s: State, s': State)
    requires ListsOk(s) && s'.arenas == s.arenas && s'.serials == s.serials
    ensures ListsOk(s')
  {
    hide Linked, OneEach;
    forall a | a in s'.arenas ensures Linked(s', a) && OneEach(s', a) { SameArenaKept(s, s', a); }
  }

  lemma SameTagsOk(s: State, s': State)
    requires TagsOk(s) && s'.arenas == s.arenas && s'.issued == s.issued
    ensures TagsOk(s')
  {
  }

  lemma OwnStepExtends(s: State, s': State, t: nat)
    requires t < |s.threads| == |s'.threads| && s' == s.(threads := s'.threads)
    requires forall u :: 0 <= u < |s.threads| && u != t ==> s'.threads[u] == s.threads[u]
    ensures Extends(s, s', t)
  {
  }

  lemma OwnStepInv(s: State, s': State, t: nat)
    requires Inv(s) && OwnStep(s, s', t) && PcOk(s', t) && CacheOk(s', t)
    ensures Inv(s')
  {
    hide PcOk, CacheOk, ListsOk, IdsOk, TagsOk, BatchOk, ThreadsOk, Extends;
    SameListsOk(s, s');
    SameTagsOk(s, s');
    IdsFrame(s, s');
    OwnStepExtends(s, s', t);
    StepKeepsInv(s, s', t);
  }

  lemma ExitIds(s: State, t: nat)
    requires IdsOk(s) && t < |s.threads|
    ensures IdsOk(Exited(s, t))
  {
    var s' := Exited(s, t);
    forall u | 0 <= u < |s'.threads| ensures BatchOk(s', u) { assert BatchOk(s, u); }
  }

  lemma ExitThread(s: State, t: nat)
    requires IdsOk(s) && TagsOk(s) && t < |s.threads|
    ensures PcOk(Exited(s, t), t) && CacheOk(Exited(s, t), t)
  {
    forall a | a in s.arenas ensures LifeCycleId(s.arenas[a].tag) != UNSEEN {
      IdBelowUnseen(LifeCycleId(s.arenas[a].tag));
    }
  }

  lemma ExitInv(s: State, t: nat)
    requires Inv(s) && t < |s.threads|
    ensures Inv(Exited(s, t))
  {
    var s' := Exited(s, t);
    hide PcOk, CacheOk, ListsOk, IdsOk, TagsOk, ThreadsOk, Extends;
    ExitIds(s, t);
    ExitThread(s, t);
    SameListsOk(s, s');
    SameTagsOk(s, s');
    OwnStepExtends(s, s', t);
    StepKeepsInv(s, s', t);
  }

  lemma PcInv(s: State, t: nat, pc: Pc)
    requires Inv(s) && t < |s.threads| && PcOk(WithPc(s, t, pc), t)
    requires !s.threads[t].pc.SetCacheId? && !pc.SetCacheId?
    ensures Inv(WithPc(s, t, pc))
  {
    assert CacheOk(s, t);
    OwnStepInv(s, WithPc(s, t, pc), t);
  }

  /** A hit in the thread cache yields this thread's entry of this arena, never a stale one. */
  lemma {:induction false} CacheHitIsMine(s: State, t: nat, a: nat, id: nat, maybe: bool)
    requires Inv(s) && t < |s.threads| && s.threads[t].pc == CheckCache(a, id, maybe) && s.threads[t].lastSeen == id
    ensures Mine(s, t, a, s.threads[t].lastSerial)
  {
    assert PcOk(s, t) && CacheOk(s, t);
    var tag := s.arenas[a].tag;
    assert LifeCycleId(tag) in s.issued;
    TagBelowUnseen(s, tag);
  }

  lemma TagBelowUnseen(s: State, tag: nat)
    requires IdsOk(s) && LifeCycleId(tag) in s.issued
    ensures LifeCycleId(tag) < UNSEEN && (tag in s.issued ==> tag == LifeCycleId(tag))
  {
    IdBelowUnseen(LifeCycleId(tag));
  }

  ghost predicate MayMove(s: State, t: nat, spare: Addr) {
    Enabled(s, Move(t, spare, false))
  }

  lemma CheckCacheInv(s: State, t: nat, spare: Addr, spurious: bool)
    requires Inv(s) && MayMove(s, t, spare) && s.threads[t].pc.CheckCache?
    ensures Inv(Moved(s, t, spare, spurious))
  {
    assert PcOk(s, t);
    var CheckCache(a, id, maybe) := s.threads[t].pc;
    if s.threads[t].lastSeen == id {
      CacheHitIsMine(s, t, a, id, maybe);
      PcInv(s, t, Using(a, s.threads[t].lastSerial));
    } else if maybe {
      PcInv(s, t, Idle);
    } else if id % 2 == 1 {
      PcInv(s, t, CheckCache(a, id - 1, false));
    } else {
      PcInv(s, t, ReadHint(a));
    }
  }

  lemma LookInv(s: State, t: nat, spare: Addr, spurious: bool)
    requires Inv(s) && MayMove(s, t, spare)
    requires var pc := s.threads[t].pc; pc.ReadHint? || pc.LoadThreads? || pc.LoadHead? || pc.Using?
    ensures Inv(Moved(s, t, spare, spurious))
  {
    assert PcOk(s, t);
    assert Linked(s, s.threads[t].pc.a);
    PcInv(s, t, Moved(s, t, spare, spurious).threads[t].pc);
  }

  lemma TraverseInv(s: State, t: nat, spare: Addr, spurious: bool)
    requires Inv(s) && MayMove(s, t, spare) && s.threads[t].pc.Traverse?
    ensures Inv(Moved(s, t, spare, spurious))
  {
    assert PcOk(s, t);
    var Traverse(a, cur) := s.threads[t].pc;
    assert Linked(s, a) && OneEach(s, a);
    if cur != NULL && Owner(s, cur) != t { NextIsFurther(s, t, a, cur); }
    PcInv(s, t, Moved(s, t, spare, spurious).threads[t].pc);
  }

  /** Following `next` past an entry of another thread leaves none of this thread's behind. */
  lemma {:induction false} NextIsFurther(s: State, t: nat, a: nat, cur: Addr)
    requires a in s.arenas && Linked(s, a) && OneEach(s, a)
    requires cur in s.arenas[a].list && NoneMineBefore(s, t, a, cur) && Owner(s, cur) != t
    ensures if Next(s, cur) == NULL then NoneMine(s, t, a)
      else Next(s, cur) in s.arenas[a].list && NoneMineBefore(s, t, a, Next(s, cur))
  {
    var list := s.arenas[a].list;
    var i :| 0 <= i < |list| && list[i] == cur;
    forall j | 0 <= j <= i ensures Owner(s, list[j]) != t {}
    if i + 1 < |list| {
      assert Next(s, list[i]) == list[i + 1];
      forall k, j | 0 <= j < k < |list| && list[k] == list[i + 1] ensures Owner(s, list[j]) != t {
        assert k == i + 1;
      }
    }
  }

  lemma CacheWriteInv(s: State, t: nat, spare: Addr, spurious: bool)
    requires Inv(s) && MayMove(s, t, spare) && (s.threads[t].pc.SetCacheSerial? || s.threads[t].pc.SetCacheId?)
    ensures Inv(Moved(s, t, spare, spurious))
  {
    assert PcOk(s, t) && CacheOk(s, t);
    var s' := Moved(s, t, spare, spurious);
    assert PcOk(s', t) && CacheOk(s', t);
    OwnStepInv(s, s', t);
  }

  // ----- steps that change serials or the arena -----

  /** Only the thread itself and its own unpublished SerialArena change. */
  ghost predicate SerialStep(s: State, s': State, t: nat) {
    && t < |s.threads| == |s'.threads|
    && s' == s.(threads := s'.threads, serials := s'.serials)
    && s'.threads[t].nextId == s.threads[t].nextId
    && (forall u :: 0 <= u < |s.threads| && u != t ==> s'.threads[u] == s.threads[u])
    && (forall y :: y in s.serials ==> y in s'.serials && Owner(s', y) == Owner(s, y))
    && (forall y :: y in s.serials && !Pending(s, t, y) ==> Next(s', y) == Next(s, y))
  }

  lemma PublishedKept(s: State, s': State, t: nat, a: nat)
    requires SerialStep(s, s', t) && a in s.arenas && Linked(s, a) && OneEach(s, a)
    ensures Linked(s', a) && OneEach(s', a)
  {
    var list := s.arenas[a].list;
    forall i | 0 <= i < |list| ensures Next(s', list[i]) == Next(s, list[i]) { assert !Pending(s, t, list[i]); }
    hide Pending, Next;
  }

  lemma SerialStepExtends(s: State, s': State, t: nat)
    requires SerialStep(s, s', t)
    ensures Extends(s, s', t)
  {
  }

  lemma SerialsKeepLists(s: State, s': State, t: nat)
    requires IdsOk(s) && TagsOk(s) && ListsOk(s) && SerialStep(s, s', t)
    ensures IdsOk(s') && TagsOk(s') && ListsOk(s') && Extends(s, s', t)
  {
    SerialStepExtends(s, s', t);
    IdsFrame(s, s');
    SameTagsOk(s, s');
    hide Linked, OneEach, IdsOk, TagsOk, Extends;
    assert ListsOk(s') by {
      hide SerialStep;
      forall a | a in s'.arenas ensures Linked(s', a) && OneEach(s', a) { PublishedKept(s, s', t, a); }
    }
  }

  lemma NoneMineKeptSameList(s: State, s': State, t: nat, a: nat)
    requires ListsOk(s) && SerialStep(s, s', t) && NoneMine(s, t, a)
    ensures NoneMine(s', t, a)
  {
    assert Linked(s, a);
  }

  lemma CreateThread(s: State, t: nat, spare: Addr, spurious: bool)
    requires ListsOk(s) && MayMove(s, t, spare) && s.threads[t].pc.Create? && PcOk(s, t) && CacheOk(s, t)
    ensures SerialStep(s, Moved(s, t, spare, spurious), t)
    ensures PcOk(Moved(s, t, spare, spurious), t) && CacheOk(Moved(s, t, spare, spurious), t)
  {
    var s' := Moved(s, t, spare, spurious);
    NoneMineKeptSameList(s, s', t, s.threads[t].pc.a);
    forall b | b in s.arenas ensures spare !in s.arenas[b].list { assert Linked(s, b); }
    hide Linked, OneEach, ListsOk;
  }

  lemma CreateInv(s: State, t: nat, spare: Addr, spurious: bool)
    requires Inv(s) && MayMove(s, t, spare) && s.threads[t].pc.Create?
    ensures Inv(Moved(s, t, spare, spurious))
  {
    assert PcOk(s, t) && CacheOk(s, t);
    hide PcOk, CacheOk, ListsOk, IdsOk, TagsOk, ThreadsOk, Extends, Moved, SerialStep;
    var s' := Moved(s, t, spare, spurious);
    CreateThread(s, t, spare, spurious);
    SerialsKeepLists(s, s', t);
    StepKeepsInv(s, s', t);
  }

  lemma SetNextThread(s: State, t: nat, spare: Addr, spurious: bool)
    requires ListsOk(s) && MayMove(s, t, spare) && s.threads[t].pc.SetNext? && PcOk(s, t) && CacheOk(s, t)
    ensures SerialStep(s, Moved(s, t, spare, spurious), t)
    ensures PcOk(Moved(s, t, spare, spurious), t) && CacheOk(Moved(s, t, spare, spurious), t)
  {
    NoneMineKeptSameList(s, Moved(s, t, spare, spurious), t, s.threads[t].pc.a);
    hide Linked, OneEach, ListsOk;
  }

  lemma SetNextInv(s: State, t: nat, spare: Addr, spurious: bool)
    requires Inv(s) && MayMove(s, t, spare) && s.threads[t].pc.SetNext?
    ensures Inv(Moved(s, t, spare, spurious))
  {
    assert PcOk(s, t) && CacheOk(s, t);
    hide PcOk, CacheOk, ListsOk, IdsOk, TagsOk, ThreadsOk, Extends, Moved, SerialStep;
    var s' := Moved(s, t, spare, spurious);
    SetNextThread(s, t, spare, spurious);
    SerialsKeepLists(s, s', t);
    StepKeepsInv(s, s', t);
  }

  /** Arena a and the thread's own pc change; the list stays, or gains the thread's pending entry. */
  ghost predicate ArenaStep(s: State, s': State, t: nat, a: nat) {
    && t < |s.threads| == |s'.threads| && a in s.arenas
    && s' == WithPc(s.(arenas := s'.arenas), t, s'.threads[t].pc)
    && a in s'.arenas && s'.arenas == s.arenas[a := s'.arenas[a]] && s'.arenas[a].tag == s.arenas[a].tag
    && var list, list' := s.arenas[a].list, s'.arenas[a].list;
    list' == list || (|list'| > 0 && list' == [list'[0]] + list && Pending(s, t, list'[0]))
  }

  lemma ArenaStepApart(s: State, s': State, t: nat, a: nat)
    requires Apart(s) && ArenaStep(s, s', t, a)
    ensures Apart(s')
  {
  }

  lemma ArenaStepLists(s: State, s': State, t: nat, a: nat)
    requires ListsOk(s) && ArenaStep(s, s', t, a) && Linked(s', a) && OneEach(s', a)
    ensures ListsOk(s')
  {
    hide Linked, OneEach;
    ArenaStepApart(s, s', t, a);
    hide Apart;
    forall b | b in s'.arenas && b != a ensures Linked(s', b) && OneEach(s', b) { SameArenaKept(s, s', b); }
  }

  lemma ArenaStepExtends(s: State, s': State, t: nat, a: nat)
    requires ArenaStep(s, s', t, a) && TagsOk(s)
    ensures Extends(s, s', t) && TagsOk(s')
  {
    assert Grows(s, s', t, a);
  }

  lemma ArenaStepIds(s: State, s': State, t: nat, a: nat)
    requires IdsOk(s) && ArenaStep(s, s', t, a)
    ensures IdsOk(s')
  {
    IdsFrame(s, s');
  }

  lemma ArenaStepInv(s: State, s': State, t: nat, a: nat)
    requires Inv(s) && ArenaStep(s, s', t, a) && Linked(s', a) && OneEach(s', a) && PcOk(s', t) && CacheOk(s', t)
    ensures Inv(s')
  {
    assert t < |s.threads|;
    hide Linked, OneEach, PcOk, CacheOk, ListsOk, IdsOk, TagsOk, ThreadsOk, ArenaStep, Extends;
    ArenaStepLists(s, s', t, a);
    ArenaStepExtends(s, s', t, a);
    ArenaStepIds(s, s', t, a);
    StepKeepsInv(s, s', t);
  }

  /** The cache of the thread still holds: lists only gain entries. */
  lemma ArenaStepCache(s: State, s': State, t: nat, a: nat)
    requires ArenaStep(s, s', t, a) && CacheOk(s, t) && !s.threads[t].pc.SetCacheId?
    ensures CacheOk(s', t)
  {
    forall b, x | Mine(s, t, b, x) ensures Mine(s', t, b, x) {
      if b != a { assert s'.arenas[b] == s.arenas[b]; }
    }
  }

  /** A successful compare-and-swap publishes the thread's first entry for this arena: the value
      it compared with is the head of the list, and `next` of the new entry already points there. */
  lemma {:induction false} PushLinked(s: State, s': State, t: nat, a: nat, x: Addr)
    requires a in s.arenas && Linked(s, a) && Pending(s, t, x) && Next(s, x) == s.arenas[a].head
    requires s'.serials == s.serials && a in s'.arenas
    requires s'.arenas[a] == s.arenas[a].(head := x, list := [x] + s.arenas[a].list)
    ensures Linked(s', a)
  {
    var list, list' := s.arenas[a].list, s'.arenas[a].list;
    assert list' == [x] + list && s'.arenas[a].hint == s.arenas[a].hint;
    forall y ensures Next(s', y) == Next(s, y) {}
    forall i, j | 0 <= i < |list'| && j == i + 1 < |list'| ensures Next(s', list'[i]) == list'[j] {
      if i > 0 { assert list'[i] == list[i - 1] && list'[j] == list[i]; }
    }
    if |list| > 0 { assert list'[|list'| - 1] == list[|list| - 1]; }
    assert forall y :: y in list ==> y in list';
  }

  lemma {:induction false} PushOneEach(s: State, s': State, t: nat, a: nat, x: Addr)
    requires a in s.arenas && OneEach(s, a) && NoneMine(s, t, a) && Pending(s, t, x)
    requires s'.serials == s.serials && a in s'.arenas && s'.arenas[a].list == [x] + s.arenas[a].list
    ensures OneEach(s', a)
  {
    var list, list' := s.arenas[a].list, s'.arenas[a].list;
    forall i, j | 0 <= i < j < |list'| ensures Owner(s', list'[i]) != Owner(s', list'[j]) {
      assert list'[j] == list[j - 1];
      if i > 0 { assert list'[i] == list[i - 1]; }
    }
  }

  lemma CasSwapped(s: State, t: nat, spare: Addr)
    requires ListsOk(s) && MayMove(s, t, spare) && s.threads[t].pc.Cas? && PcOk(s, t) && CacheOk(s, t)
    requires s.arenas[s.threads[t].pc.a].head == s.threads[t].pc.head
    ensures var s', a := Moved(s, t, spare, false), s.threads[t].pc.a;
      ArenaStep(s, s', t, a) && Linked(s', a) && OneEach(s', a) && PcOk(s', t) && CacheOk(s', t)
  {
    var s' := Moved(s, t, spare, false);
    var Cas(a, x, head) := s.threads[t].pc;
    assert Linked(s, a) && OneEach(s, a);
    hide Linked, OneEach, ListsOk, CacheOk;
    PushLinked(s, s', t, a, x);
    PushOneEach(s, s', t, a, x);
    ArenaStepCache(s, s', t, a);
  }

  lemma CasInv(s: State, t: nat, spare: Addr, spurious: bool)
    requires Inv(s) && MayMove(s, t, spare) && s.threads[t].pc.Cas?
    ensures Inv(Moved(s, t, spare, spurious))
  {
    assert PcOk(s, t) && CacheOk(s, t);
    var Cas(a, x, head) := s.threads[t].pc;
    hide ListsOk, IdsOk, TagsOk, ThreadsOk, CacheOk, ArenaStep;
    if s.arenas[a].head == head && !spurious {
      CasSwapped(s, t, spare);
      ArenaStepInv(s, Moved(s, t, spare, spurious), t, a);
    } else {
      PcInv(s, t, SetNext(a, x, s.arenas[a].head));
    }
  }

  lemma HintStep(s: State, t: nat, spare: Addr, spurious: bool)
    requires ListsOk(s) && MayMove(s, t, spare) && s.threads[t].pc.SetHint? && PcOk(s, t) && CacheOk(s, t)
    ensures var s', a := Moved(s, t, spare, spurious), s.threads[t].pc.a;
      ArenaStep(s, s', t, a) && Linked(s', a) && OneEach(s', a) && PcOk(s', t) && CacheOk(s', t)
  {
    var s', a := Moved(s, t, spare, spurious), s.threads[t].pc.a;
    assert Linked(s, a) && OneEach(s, a);
    assert Linked(s', a) && OneEach(s', a);
    hide Linked, OneEach, ListsOk, CacheOk;
    ArenaStepCache(s, s', t, a);
  }

  lemma SetHintInv(s: State, t: nat, spare: Addr, spurious: bool)
    requires Inv(s) && MayMove(s, t, spare) && s.threads[t].pc.SetHint?
    ensures Inv(Moved(s, t, spare, spurious))
  {
    assert PcOk(s, t) && CacheOk(s, t);
    hide ListsOk, IdsOk, TagsOk, ThreadsOk, CacheOk, PcOk, ArenaStep, Moved;
    HintStep(s, t, spare, spurious);
    ArenaStepInv(s, Moved(s, t, spare, spurious), t, s.threads[t].pc.a);
  }

  lemma {:induction false} MovedInv(s: State, t: nat, spare: Addr, spurious: bool)
    requires Inv(s) && MayMove(s, t, spare)
    ensures Inv(Moved(s, t, spare, spurious))
  {
    hide Inv, Moved;
    match s.threads[t].pc {
      case CheckCache(_, _, _) => CheckCacheInv(s, t, spare, spurious);
      case ReadHint(_) => LookInv(s, t, spare, spurious);
      case LoadThreads(_) => LookInv(s, t, spare, spurious);
      case Traverse(_, _) => TraverseInv(s, t, spare, spurious);
      case Create(_) => CreateInv(s, t, spare, spurious);
      case LoadHead(_, _) => LookInv(s, t, spare, spurious);
      case SetNext(_, _, _) => SetNextInv(s, t, spare, spurious);
      case Cas(_, _, _) => CasInv(s, t, spare, spurious);
      case SetCacheSerial(_, _) => CacheWriteInv(s, t, spare, spurious);
      case SetCacheId(_, _) => CacheWriteInv(s, t, spare, spurious);
      case SetHint(_, _) => SetHintInv(s, t, spare, spurious);
      case Using(_, _) => LookInv(s, t, spare, spurious);
    }
  }

  // ----- construction and destruction -----

  /** A new arena whose entries, if any, were no SerialArena before. */
  lemma NewArenaLists(s: State, s': State, a: nat)
    requires ListsOk(s) && a !in s.arenas && a in s'.arenas && s'.arenas == s.arenas[a := s'.arenas[a]]
    requires forall y :: y in s.serials ==> y in s'.serials && s'.serials[y] == s.serials[y]
    requires Linked(s', a) && OneEach(s', a) && forall x :: x in s'.arenas[a].list ==> x !in s.serials
    ensures ListsOk(s')
  {
    forall b | b in s'.arenas && b != a
      ensures Linked(s', b) && OneEach(s', b) && forall x :: x in s'.arenas[b].list ==> x in s.serials
    {
      OldArenaKept(s, s', b);
    }
    hide Linked, OneEach;
  }

  lemma OldArenaKept(s: State, s': State, b: nat)
    requires b in s.arenas && b in s'.arenas && s'.arenas[b] == s.arenas[b] && Linked(s, b) && OneEach(s, b)
    requires forall y :: y in s.serials ==> y in s'.serials && s'.serials[y] == s.serials[y]
    ensures Linked(s', b) && OneEach(s', b) && forall x :: x in s'.arenas[b].list ==> x in s.serials
  {
  }

  lemma ConstructedLists(s: State, t: nat, a: nat, record: bool, initial: Addr)
    requires ListsOk(s) && t < |s.threads| && a !in s.arenas && initial !in s.serials
    ensures ListsOk(Constructed(s, t, a, record, initial))
  {
    var s' := Constructed(s, t, a, record, initial);
    assert Linked(s', a) && OneEach(s', a);
    hide Linked, OneEach, ListsOk, IdTaken;
    NewArenaLists(s, s', a);
  }

  lemma ConstructedTag(s: State, t: nat, a: nat, record: bool, initial: Addr)
    requires IdsOk(s) && Enabled(s, Construct(t, a, record, initial))
    ensures var tag := Constructed(s, t, a, record, initial).arenas[a].tag;
      LifeCycleId(tag) == NewId(s, t) && tag != UNSEEN
    ensures NewId(s, t) !in s.issued && NewId(s, t) < UNSEEN
  {
    NewIdIsFresh(s, t);
    hide LifeCycleId, NeedsBatch;
  }

  lemma ConstructedIds(s: State, t: nat, a: nat, record: bool, initial: Addr)
    requires IdsOk(s) && TagsOk(s) && Enabled(s, Construct(t, a, record, initial))
    ensures IdsOk(Constructed(s, t, a, record, initial)) && TagsOk(Constructed(s, t, a, record, initial))
  {
    var s1, s' := IdTaken(s, t), Constructed(s, t, a, record, initial);
    assert s1.issued == s.issued + {NewId(s, t)} && s'.issued == s1.issued && s'.batches == s1.batches;
    IdTakenOk(s, t);
    IdsFrame(s1, s');
    ConstructedTag(s, t, a, record, initial);
    hide IdsOk, IdTaken, NewId, NeedsBatch, LifeCycleId;
  }

  lemma ConstructedInv(s: State, t: nat, a: nat, record: bool, initial: Addr)
    requires Inv(s) && Enabled(s, Construct(t, a, record, initial))
    ensures Inv(Constructed(s, t, a, record, initial))
  {
    ConstructedTag(s, t, a, record, initial);
    ConstructedIds(s, t, a, record, initial);
    ConstructedLists(s, t, a, record, initial);
    assert CacheOk(s, t);
    hide ListsOk, IdsOk, TagsOk, Linked, OneEach;
    ConstructedExtends(s, t, a, record, initial);
    ConstructedCache(s, t, a, record, initial);
    StepKeepsInv(s, Constructed(s, t, a, record, initial), t);
  }

  lemma ConstructedExtends(s: State, t: nat, a: nat, record: bool, initial: Addr)
    requires Enabled(s, Construct(t, a, record, initial)) && NewId(s, t) !in s.issued && NewId(s, t) != UNSEEN
    requires LifeCycleId(Constructed(s, t, a, record, initial).arenas[a].tag) == NewId(s, t)
    ensures Extends(s, Constructed(s, t, a, record, initial), t)
  {
    hide LifeCycleId;
  }

  lemma ConstructedCache(s: State, t: nat, a: nat, record: bool, initial: Addr)
    requires Enabled(s, Construct(t, a, record, initial)) && CacheOk(s, t) && NewId(s, t) !in s.issued
    requires NewId(s, t) != UNSEEN
    requires LifeCycleId(Constructed(s, t, a, record, initial).arenas[a].tag) == NewId(s, t)
    requires forall b :: b in s.arenas ==> LifeCycleId(s.arenas[b].tag) in s.issued
    ensures PcOk(Constructed(s, t, a, record, initial), t) && CacheOk(Constructed(s, t, a, record, initial), t)
  {
    hide LifeCycleId;
  }

  lemma DestroyedThread(s: State, a: nat, u: nat)
    requires ListsOk(s) && a in s.arenas && u < |s.threads| && PcOk(s, u) && CacheOk(s, u)
    requires Outside(s.threads[u].pc, a)
    ensures PcOk(Destroyed(s, a), u) && CacheOk(Destroyed(s, a), u)
  {
    var s' := Destroyed(s, a);
    forall b, x | b != a && Mine(s, u, b, x) ensures Mine(s', u, b, x) {}
    forall b | b != a && NoneMine(s, u, b) ensures NoneMine(s', u, b) { assert Linked(s, b); }
    forall x | Pending(s, u, x) ensures Pending(s', u, x) && Next(s', x) == Next(s, x) {}
    var pc := s.threads[u].pc;
    if pc.Traverse? && pc.cur != NULL { assert Linked(s, pc.a); }
  }

  lemma OtherArenaKept(s: State, a: nat, b: nat)
    requires Apart(s) && a in s.arenas && b in s.arenas && b != a && Linked(s, b) && OneEach(s, b)
    ensures Linked(Destroyed(s, a), b) && OneEach(Destroyed(s, a), b)
  {
    var s', list := Destroyed(s, a), s.arenas[b].list;
    forall i | 0 <= i < |list|
      ensures list[i] in s'.serials && Next(s', list[i]) == Next(s, list[i]) && Owner(s', list[i]) == Owner(s, list[i])
    {
      assert list[i] !in s.arenas[a].list;
    }
    hide Next, Owner, Apart;
  }

  lemma DestroyedLists(s: State, a: nat)
    requires ListsOk(s) && a in s.arenas
    ensures ListsOk(Destroyed(s, a))
  {
    var s' := Destroyed(s, a);
    hide Linked, OneEach;
    forall b | b in s'.arenas ensures Linked(s', b) && OneEach(s', b) { OtherArenaKept(s, a, b); }
  }

  lemma DestroyedInv(s: State, t: nat, a: nat)
    requires Inv(s) && Enabled(s, Destroy(t, a))
    ensures Inv(Destroyed(s, a))
  {
    var s' := Destroyed(s, a);
    DestroyedLists(s, a);
    IdsFrame(s, s');
    hide ListsOk, IdsOk, PcOk, CacheOk;
    forall u | 0 <= u < |s'.threads| ensures PcOk(s', u) && CacheOk(s', u) { DestroyedThread(s, a, u); }
  }

  /** Every step of every thread keeps the invariant. */
  lemma {:induction false} DoKeepsInv(s: State, act: Action)
    requires Inv(s) && Enabled(s, act)
    ensures Inv(Do(s, act))
  {
    hide Inv;
    match act {
      case Construct(t, a, record, initial) => ConstructedInv(s, t, a, record, initial);
      case Destroy(t, a) => DestroyedInv(s, t, a);
      case Enter(t, a, tagged, maybe) => EnterInv(s, t, a, tagged, maybe);
      case Exit(t) => ExitInv(s, t);
      case Move(t, spare, spurious) => MovedInv(s, t, spare, spurious);
    }
  }

  lemma EnterInv(s: State, t: nat, a: nat, tagged: bool, maybe: bool)
    requires Inv(s) && Enabled(s, Enter(t, a, tagged, maybe))
    ensures Inv(Do(s, Enter(t, a, tagged, maybe)))
  {
    var tag := s.arenas[a].tag;
    PcInv(s, t, CheckCache(a, if tagged then tag else LifeCycleId(tag), maybe));
  }

  // ----- every interleaving -----

  ghost predicate Runs(s: State, acts: seq<Action>, s': State)
    decreases |acts|
  {
    if acts == [] then s == s' else Enabled(s, acts[0]) && Runs(Do(s, acts[0]), acts[1..], s')
  }

  lemma {:induction false} RunKeepsInv(s: State, acts: seq<Action>, s': State)
    requires Inv(s) && Runs(s, acts, s')
    ensures Inv(s')
    decreases |acts|
  {
    if acts != [] {
      DoKeepsInv(s, acts[0]);
      hide Inv, Do, Enabled;
      RunKeepsInv(Do(s, acts[0]), acts[1..], s');
    }
  }

  /** The ids that the Construct steps of a run hand out, in order. */
  ghost function IdsHandedOut(s: State, acts: seq<Action>, s': State): seq<nat>
    requires Runs(s, acts, s')
    decreases |acts|
  {
    if acts == [] then []
    else (if acts[0].Construct? then [NewId(s, acts[0].t)] else []) + IdsHandedOut(Do(s, acts[0]), acts[1..], s')
  }

  lemma IssuedGrows(s: State, act: Action)
    requires Enabled(s, act)
    ensures s.issued <= Do(s, act).issued && (act.Construct? ==> NewId(s, act.t) in Do(s, act).issued)
  {
  }

  /** Whichever threads take batches and in whatever order, every id is even, below the initial
      last_lifecycle_id_seen, and handed out once: an id seen before a Reset never comes back. */
  lemma {:induction false} IdsNeverRepeat(s: State, acts: seq<Action>, s': State)
    requires Inv(s) && Runs(s, acts, s')
    ensures var ids := IdsHandedOut(s, acts, s');
      && (forall i :: 0 <= i < |ids| ==> ids[i] % 2 == 0 && ids[i] < UNSEEN && ids[i] !in s.issued)
      && (forall i, j :: 0 <= i < j < |ids| ==> ids[i] != ids[j])
    decreases |acts|
  {
    if acts != [] {
      var u := Do(s, acts[0]);
      DoKeepsInv(s, acts[0]);
      IssuedGrows(s, acts[0]);
      if acts[0].Construct? { NewIdIsFresh(s, acts[0].t); }
      hide Inv, Do, Enabled, NewId;
      IdsNeverRepeat(u, acts[1..], s');
      IdsUnfold(s, acts, s');
      hide IdsHandedOut, Runs;
      if acts[0].Construct? { PrependFresh(NewId(s, acts[0].t), IdsHandedOut(u, acts[1..], s'), s.issued, u.issued); }
    }
  }

  lemma IdsUnfold(s: State, acts: seq<Action>, s': State)
    requires acts != [] && Runs(s, acts, s')
    ensures Runs(Do(s, acts[0]), acts[1..], s')
    ensures IdsHandedOut(s, acts, s')
      == (if acts[0].Construct? then [NewId(s, acts[0].t)] else []) + IdsHandedOut(Do(s, acts[0]), acts[1..], s')
  {
    hide Do, Enabled, NewId;
  }

  lemma PrependFresh(id: nat, ids: seq<nat>, before: set<nat>, after: set<nat>)
    requires id !in before && before <= after && id in after && id % 2 == 0 && id < UNSEEN
    requires forall i :: 0 <= i < |ids| ==> ids[i] % 2 == 0 && ids[i] < UNSEEN && ids[i] !in after
    requires forall i, j :: 0 <= i < j < |ids| ==> ids[i] != ids[j]
    ensures var all := [id] + ids;
      && (forall i :: 0 <= i < |all| ==> all[i] % 2 == 0 && all[i] < UNSEEN && all[i] !in before)
      && (forall i, j :: 0 <= i < j < |all| ==> all[i] != all[j])
  {
  }

  /** A thread that has obtained a SerialArena has obtained the one entry of the arena's list that
      it owns. */
  ghost predicate HasOwnEntry(s: State, t: nat)
    requires t < |s.threads|
  {
    s.threads[t].pc.Using? ==>
      var Using(a, x) := s.threads[t].pc;
      Mine(s, t, a, x) && forall y :: y in s.arenas[a].list && Owner(s, y) == t ==> y == x
  }

  /** However n threads are interleaved: whoever obtained a SerialArena, by cache, hint or fallback,
      obtained its own entry of that arena's list, and no two threads hold the same. */
  lemma {:induction false} EveryRunIsSafe(n: nat, acts: seq<Action>, s: State, t: nat, u: nat)
    requires Runs(Initial(n), acts, s) && t < |s.threads| && u < |s.threads|
    ensures HasOwnEntry(s, t)
    ensures t != u && s.threads[t].pc.Using? && s.threads[u].pc.Using? ==> s.threads[t].pc.x != s.threads[u].pc.x
  {
    InitialInv(n);
    RunKeepsInv(Initial(n), acts, s);
    hide Runs, Initial;
    if s.threads[t].pc.Using? { InvUsing(s, t); }
    if s.threads[u].pc.Using? { InvUsing(s, u); }
  }

  lemma InvUsing(s: State, t: nat)
    requires Inv(s) && t < |s.threads| && s.threads[t].pc.Using?
    ensures var Using(a, x) := s.threads[t].pc;
      Mine(s, t, a, x) && forall y :: y in s.arenas[a].list && Owner(s, y) == t ==> y == x
  {
    assert PcOk(s, t);
    assert OneEach(s, s.threads[t].pc.a);
  }

  /** In every run, no list ever holds two entries of one owner, and no entry sits in two lists. */
  lemma {:induction false} ListsStayUnique(n: nat, acts: seq<Action>, s: State, a: nat, b: nat, x: Addr, y: Addr)
    requires Runs(Initial(n), acts, s) && a in s.arenas && b in s.arenas && x in s.arenas[a].list
    requires y in s.arenas[b].list
    ensures a == b && Owner(s, x) == Owner(s, y) ==> x == y
    ensures a != b ==> x != y
    ensures LifeCycleId(s.arenas[a].tag) == LifeCycleId(s.arenas[b].tag) ==> a == b
  {
    InitialInv(n);
    RunKeepsInv(Initial(n), acts, s);
    assert OneEach(s, a);
  }

  /** In every run, every address a thread is about to dereference is that of a live entry, and a
      thread inside an arena keeps the arena alive. */
  lemma {:induction false} NothingFreedIsRead(n: nat, acts: seq<Action>, s: State, t: nat)
    requires Runs(Initial(n), acts, s) && t < |s.threads| && !s.threads[t].pc.Idle?
    ensures s.threads[t].pc.a in s.arenas
    ensures s.threads[t].pc.ReadHint? ==>
      s.arenas[s.threads[t].pc.a].hint == NULL || s.arenas[s.threads[t].pc.a].hint in s.serials
    ensures s.threads[t].pc.Traverse? ==> s.threads[t].pc.cur == NULL || s.threads[t].pc.cur in s.serials
    ensures s.threads[t].pc.SetNext? || s.threads[t].pc.Using? ==> s.threads[t].pc.x in s.serials
  {
    InitialInv(n);
    RunKeepsInv(Initial(n), acts, s);
    assert PcOk(s, t) && Linked(s, s.threads[t].pc.a);
  }
}
