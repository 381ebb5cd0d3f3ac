/** Progress of ArenaProtocol: a thread that asks an arena for a SerialArena obtains one. */
module ArenaProgress {
  import opened ArenaProtocol
  import opened ArenaSafety

  /** The entries of the list from cur on. */
  function Ahead(list: seq<Addr>, cur: Addr): (n: nat)
    ensures n <= |list| && (cur in list ==> n > 0)
  {
    if list == [] then 0 else if list[0] == cur then |list| else Ahead(list[1..], cur)
  }

  /** At most this many moves of the thread alone are left before it has a SerialArena. */
  function Distance(arena: Arena, pc: Pc): nat {
    match pc
    case Idle => 0
    case CheckCache(_, id, _) => 11 + |arena.list| + id % 2
    case ReadHint(_) => 10 + |arena.list|
    case LoadThreads(_) => 9 + |arena.list|
    case Traverse(_, cur) => 8 + Ahead(arena.list, cur)
    case Create(_) => 7
    case LoadHead(_, _) => 6
    case SetNext(_, _, head) => if head == arena.head then 5 else 7
    case Cas(_, _, head) => if head == arena.head then 4 else 6
    case SetCacheSerial(_, _) => 3
    case SetCacheId(_, _) => 2
    case SetHint(_, _) => 1
    case Using(_, _) => 0
  }

  /** The thread wants a SerialArena of arena a, and not only if its cache happens to hold it. */
  ghost predicate Asking(s: State, t: nat, a: nat) {
    && t < |s.threads|
    && var pc := s.threads[t].pc;
    && !pc.Idle? && !pc.Using? && pc.a == a && a in s.arenas
    && !(pc.CheckCache? && pc.maybe)
  }

  /** The thread has obtained its own entry of arena a. */
  ghost predicate Obtained(s: State, t: nat, a: nat) {
    && t < |s.threads| && s.threads[t].pc.Using? && s.threads[t].pc.a == a
    && Mine(s, t, a, s.threads[t].pc.x)
  }

  /** At most n moves of its own, whatever fresh address it is given, take the thread to its entry;
      until then it can always move. */
  ghost predicate Reaches(s: State, t: nat, a: nat, n: nat)
    decreases n
  {
    Obtained(s, t, a) || (n > 0
      && (exists spare :: MayMove(s, t, spare))
      && forall spare :: MayMove(s, t, spare) ==> Reaches(Moved(s, t, spare, false), t, a, n - 1))
  }

  lemma {:induction false} AheadAt(list: seq<Addr>, i: nat)
    requires i < |list| && forall j :: 0 <= j < i ==> list[j] != list[i]
    ensures Ahead(list, list[i]) == |list| - i
  {
    if i > 0 { AheadAt(list[1..], i - 1); }
  }

  lemma {:induction false} AheadOfNothing(list: seq<Addr>, cur: Addr)
    requires cur !in list
    ensures Ahead(list, cur) == 0
  {
    if list != [] { AheadOfNothing(list[1..], cur); }
  }

  /** Following `next` leaves fewer entries ahead. */
  lemma NextIsCloser(s: State, a: nat, cur: Addr)
    requires a in s.arenas && Linked(s, a) && OneEach(s, a) && cur in s.arenas[a].list
    ensures Ahead(s.arenas[a].list, Next(s, cur)) < Ahead(s.arenas[a].list, cur)
  {
    var list := s.arenas[a].list;
    var i :| 0 <= i < |list| && list[i] == cur;
    AheadAt(list, i);
    if i + 1 < |list| {
      assert Next(s, list[i]) == list[i + 1];
      AheadAt(list, i + 1);
    } else {
      AheadOfNothing(list, NULL);
    }
  }

  lemma HeadIsWhole(s: State, a: nat)
    requires a in s.arenas && Linked(s, a)
    ensures Ahead(s.arenas[a].list, s.arenas[a].head) <= |s.arenas[a].list|
  {
  }

  lemma AlwaysASpare(used: set<Addr>)
    ensures exists x: Addr :: x != NULL && x !in used
  {
    var top := Above(used);
    assert top != NULL && top !in used;
  }

  lemma Above(used: set<Addr>) returns (top: nat)
    ensures top > 0 && forall x :: x in used ==> x < top
  {
    top := 1;
    var rest := used;
    while rest != {}
      invariant rest <= used && top > 0 && forall x :: x in used && x !in rest ==> x < top
      decreases rest
    {
      var x :| x in rest;
      top := if x < top then top else x + 1;
      rest := rest - {x};
    }
  }

  ghost predicate StillIn(s: State, t: nat, a: nat) {
    a in s.arenas && (Asking(s, t, a) || (t < |s.threads| && s.threads[t].pc.Using? && s.threads[t].pc.a == a))
  }

  lemma StaysIn(s: State, t: nat, a: nat, spare: Addr, spurious: bool)
    requires Asking(s, t, a) && MayMove(s, t, spare)
    ensures StillIn(Moved(s, t, spare, spurious), t, a)
  {
    hide Owner, Next;
  }

  lemma UsingIsObtained(s: State, t: nat, a: nat)
    requires Inv(s) && StillIn(s, t, a)
    ensures Asking(s, t, a) || Obtained(s, t, a)
  {
    if s.threads[t].pc.Using? { InvUsing(s, t); }
    hide Inv, Mine;
  }

  lemma CloserWalking(s: State, t: nat, a: nat, spare: Addr)
    requires Asking(s, t, a) && MayMove(s, t, spare) && Linked(s, a) && OneEach(s, a) && PcOk(s, t)
    requires s.threads[t].pc.Traverse?
    ensures var s' := Moved(s, t, spare, false);
      a in s'.arenas && Distance(s'.arenas[a], s'.threads[t].pc) < Distance(s.arenas[a], s.threads[t].pc)
  {
    hide Linked, OneEach, NoneMine, NoneMineBefore, Pending, Ahead, Owner, Next, Mine;
    var pc := s.threads[t].pc;
    if pc.cur != NULL { NextIsCloser(s, a, pc.cur); }
  }

  lemma CloserElsewhere(s: State, t: nat, a: nat, spare: Addr)
    requires Asking(s, t, a) && MayMove(s, t, spare) && !s.threads[t].pc.Traverse?
    ensures var s' := Moved(s, t, spare, false);
      a in s'.arenas && Distance(s'.arenas[a], s'.threads[t].pc) < Distance(s.arenas[a], s.threads[t].pc)
  {
    hide Owner, Next, LifeCycleId;
  }

  lemma Closer(s: State, t: nat, a: nat, spare: Addr)
    requires Asking(s, t, a) && MayMove(s, t, spare) && Linked(s, a) && OneEach(s, a) && PcOk(s, t)
    ensures var s' := Moved(s, t, spare, false);
      a in s'.arenas && Distance(s'.arenas[a], s'.threads[t].pc) < Distance(s.arenas[a], s.threads[t].pc)
  {
    hide Moved, Distance, MayMove, Linked, OneEach, PcOk;
    if s.threads[t].pc.Traverse? { CloserWalking(s, t, a, spare); } else { CloserElsewhere(s, t, a, spare); }
  }

  /** Every move of its own brings the thread closer, unless the compare-and-swap fails spuriously. */
  lemma {:induction false} OwnMoveIsCloser(s: State, t: nat, a: nat, spare: Addr)
    requires Inv(s) && Asking(s, t, a) && MayMove(s, t, spare)
    ensures var s' := Moved(s, t, spare, false);
      && a in s'.arenas && (Asking(s', t, a) || Obtained(s', t, a)) && Inv(s')
      && Distance(s'.arenas[a], s'.threads[t].pc) < Distance(s.arenas[a], s.threads[t].pc)
  {
    assert PcOk(s, t) && Linked(s, a) && OneEach(s, a);
    Closer(s, t, a, spare);
    hide *;
    StaysIn(s, t, a, spare, false);
    MovedInv(s, t, spare, false);
    UsingIsObtained(Moved(s, t, spare, false), t, a);
  }

  /** From every reachable state, by its own moves alone, the thread comes to Using its own entry. */
  lemma {:induction false} AskingReaches(s: State, t: nat, a: nat)
    requires Inv(s) && Asking(s, t, a)
    ensures Reaches(s, t, a, Distance(s.arenas[a], s.threads[t].pc))
    decreases Distance(s.arenas[a], s.threads[t].pc)
  {
    var n := Distance(s.arenas[a], s.threads[t].pc);
    AlwaysASpare(s.serials.Keys);
    var x: Addr :| x != NULL && x !in s.serials;
    assert MayMove(s, t, x);
    forall spare | MayMove(s, t, spare) ensures n > 0 && Reaches(Moved(s, t, spare, false), t, a, n - 1) {
      OwnMoveIsCloser(s, t, a, spare);
      var s' := Moved(s, t, spare, false);
      hide Inv, Moved, Distance, MayMove;
      var m := Distance(s'.arenas[a], s'.threads[t].pc);
      if Asking(s', t, a) {
        AskingReaches(s', t, a);
        ReachesSooner(s', t, a, m, n - 1);
      }
    }
    hide Inv, Moved, Distance, MayMove, Asking;
  }

  lemma {:induction false} ReachesSooner(s: State, t: nat, a: nat, m: nat, n: nat)
    requires Reaches(s, t, a, m) && m <= n
    ensures Reaches(s, t, a, n)
    decreases m
  {
    hide Moved, Obtained;
    if !Obtained(s, t, a) {
      forall spare | MayMove(s, t, spare) ensures Reaches(Moved(s, t, spare, false), t, a, n - 1) {
        ReachesSooner(Moved(s, t, spare, false), t, a, m - 1, n - 1);
      }
    }
  }

  lemma DistanceBound(arena: Arena, pc: Pc)
    ensures Distance(arena, pc) <= 12 + |arena.list|
  {
    hide Ahead;
  }

  /** In every run: a thread that asks for a SerialArena of a live arena obtains its own entry by at
      most 12 moves of its own more than there are entries in the list. */
  lemma {:induction false} AskingObtains(n: nat, acts: seq<Action>, s: State, t: nat, a: nat)
    requires Runs(Initial(n), acts, s) && Asking(s, t, a)
    ensures Reaches(s, t, a, 12 + |s.arenas[a].list|)
  {
    InitialInv(n);
    RunKeepsInv(Initial(n), acts, s);
    AskingReaches(s, t, a);
    DistanceBound(s.arenas[a], s.threads[t].pc);
    ReachesSooner(s, t, a, Distance(s.arenas[a], s.threads[t].pc), 12 + |s.arenas[a].list|);
  }

  /** A thread stops without a SerialArena only when a call that may fail misses the cache. */
  lemma {:induction false} IdleOnlyWhenDone(s: State, act: Action, t: nat)
    requires Enabled(s, act) && t < |s.threads| && !s.threads[t].pc.Idle? && t < |Do(s, act).threads|
    requires Do(s, act).threads[t].pc.Idle?
    ensures act.Move? && act.t == t
    ensures var pc := s.threads[t].pc; pc.Using? || (pc.CheckCache? && pc.maybe && s.threads[t].lastSeen != pc.id)
  {
    hide Owner, Next, NewId, NeedsBatch, LifeCycleId;
  }

  // ----- the next call -----

  /** A call that went through the list leaves its entry in the thread cache and in the hint. */
  lemma {:induction false} FallbackFillsCache(s: State, t: nat, spare: Addr, spurious: bool)
    requires Inv(s) && MayMove(s, t, spare) && s.threads[t].pc.SetHint?
    ensures var SetHint(a, x) := s.threads[t].pc;
      var s' := Moved(s, t, spare, spurious);
      && s'.threads[t] == s.threads[t].(pc := Using(a, x)) && a in s'.arenas && s'.arenas[a].hint == x
      && s'.threads[t].lastSerial == x && s'.threads[t].lastSeen == LifeCycleId(s'.arenas[a].tag)
  {
    assert PcOk(s, t);
    hide Inv;
  }

  /** The next call in the same arena then takes one move, be it one that may fail: whatever others
      did in between, only the thread itself changes its cache. */
  lemma {:induction false} CachedCallHits(s: State, t: nat, a: nat, maybe: bool, spare: Addr, spurious: bool)
    requires t < |s.threads| && s.threads[t].pc.Idle? && a in s.arenas
    requires s.threads[t].lastSeen == LifeCycleId(s.arenas[a].tag) && spare != NULL && spare !in s.serials
    ensures Enabled(s, Enter(t, a, false, maybe))
    ensures var asked := Do(s, Enter(t, a, false, maybe));
      && Enabled(asked, Move(t, spare, spurious))
      && Moved(asked, t, spare, spurious).threads[t].pc == Using(a, s.threads[t].lastSerial)
  {
    hide LifeCycleId;
  }

  lemma {:induction false} CacheIsPrivate(s: State, act: Action, t: nat)
    requires Enabled(s, act) && t < |s.threads| && act.t != t
    ensures t < |Do(s, act).threads| && Do(s, act).threads[t] == s.threads[t]
    ensures forall a :: a in s.arenas && a in Do(s, act).arenas ==> Do(s, act).arenas[a].tag == s.arenas[a].tag
  {
    hide Owner, Next, NewId, NeedsBatch, LifeCycleId;
  }

  /** The moves left when the hint of the arena is the thread's own entry. */
  ghost function HintMoves(pc: Pc): (n: nat)
    ensures 0 < n <= 3
  {
    if pc.CheckCache? then if pc.id % 2 == 1 then 3 else 2 else 1
  }

  lemma HintNext(s: State, t: nat, a: nat, spare: Addr)
    requires Asking(s, t, a) && MayMove(s, t, spare) && (s.threads[t].pc.CheckCache? || s.threads[t].pc.ReadHint?)
    requires s.arenas[a].hint != NULL && Owner(s, s.arenas[a].hint) == t
    ensures var s' := Moved(s, t, spare, false);
      && a in s'.arenas && s'.arenas[a] == s.arenas[a] && s'.serials == s.serials && t < |s'.threads|
      && (Asking(s', t, a) ==>
            var pc, pc' := s.threads[t].pc, s'.threads[t].pc;
            (pc'.CheckCache? || pc'.ReadHint?) && HintMoves(pc') < HintMoves(pc))
  {
    hide LifeCycleId;
  }

  /** When the cache misses but the hint is the thread's own entry, the list is not walked: the call
      takes at most three moves, however long the list is. */
  lemma {:induction false} HintHits(s: State, t: nat, a: nat)
    requires Inv(s) && Asking(s, t, a) && (s.threads[t].pc.CheckCache? || s.threads[t].pc.ReadHint?)
    requires s.arenas[a].hint != NULL && Owner(s, s.arenas[a].hint) == t
    ensures Reaches(s, t, a, HintMoves(s.threads[t].pc)) && HintMoves(s.threads[t].pc) <= 3
    decreases HintMoves(s.threads[t].pc)
  {
    hide Inv, Moved, MayMove, HintMoves, Owner, Obtained, Distance, Mine;
    var n := HintMoves(s.threads[t].pc);
    CanMove(s, t, a);
    forall spare | MayMove(s, t, spare) ensures Reaches(Moved(s, t, spare, false), t, a, n - 1) {
      OwnMoveIsCloser(s, t, a, spare);
      HintNext(s, t, a, spare);
      var s' := Moved(s, t, spare, false);
      if Asking(s', t, a) {
        SameOwner(s, s', s.arenas[a].hint);
        HintHits(s', t, a);
        ReachesSooner(s', t, a, HintMoves(s'.threads[t].pc), n - 1);
      }
    }
  }

  lemma CanMove(s: State, t: nat, a: nat)
    requires Asking(s, t, a)
    ensures exists spare :: MayMove(s, t, spare)
  {
    AlwaysASpare(s.serials.Keys);
    var x: Addr :| x != NULL && x !in s.serials;
    assert MayMove(s, t, x);
  }

  lemma SameOwner(s: State, s': State, x: Addr)
    requires s'.serials == s.serials
    ensures Owner(s', x) == Owner(s, x)
  {
  }

  // ----- the first call and the last -----

  /** An arena that starts with a block has one entry, its constructor's, and the constructor's first
      call takes one move. */
  lemma {:induction false} FirstCallHits(s: State, t: nat, a: nat, record: bool, initial: Addr, maybe: bool,
                                         spare: Addr, spurious: bool)
    requires Inv(s) && Enabled(s, Construct(t, a, record, initial))
    requires spare != NULL && spare !in s.serials && spare != initial
    ensures var s' := Do(s, Construct(t, a, record, initial));
      && a in s'.arenas
      && (initial == NULL ==> s'.arenas[a].list == [] && s'.arenas[a].hint == NULL && s'.serials == s.serials)
      && (initial != NULL ==>
            && s'.arenas[a].list == [initial] && s'.arenas[a].hint == initial && Owner(s', initial) == t
            && Enabled(s', Enter(t, a, false, maybe))
            && var asked := Do(s', Enter(t, a, false, maybe));
              && Enabled(asked, Move(t, spare, spurious))
              && Moved(asked, t, spare, spurious).threads[t].pc == Using(a, initial))
  {
    NewIdIsFresh(s, t);
    hide NewId, NeedsBatch, Inv;
  }

  /** The next id of a thread is two above its last, until its 512 numbers are used up. */
  lemma {:induction false} IdsInTwos(s: State, t: nat, a: nat, record: bool, initial: Addr)
    requires Inv(s) && Enabled(s, Construct(t, a, record, initial))
    ensures var s', id := Do(s, Construct(t, a, record, initial)), NewId(s, t);
      && t < |s'.threads|
      && NewId(s', t) == if (id + 2) % 512 == 0 then 512 * |s'.batches| else id + 2
  {
    NewIdIsFresh(s, t);
    hide Inv, LifeCycleId;
  }

  /** Destruction frees the arena's SerialArenas and no other. */
  lemma {:induction false} DestroyFrees(s: State, t: nat, a: nat, x: Addr)
    requires Enabled(s, Destroy(t, a))
    ensures var s' := Do(s, Destroy(t, a));
      && a !in s'.arenas && s'.threads == s.threads
      && (forall b :: b in s.arenas && b != a ==> b in s'.arenas && s'.arenas[b] == s.arenas[b])
      && (x in s'.serials <==> x in s.serials && x !in s.arenas[a].list)
      && (x in s'.serials ==> s'.serials[x] == s.serials[x])
  {
  }

  // ----- while others move -----

  /** A successful compare-and-swap on the list of arena a. */
  ghost predicate PushesOnto(s: State, act: Action, a: nat) {
    && Enabled(s, act) && act.Move? && !act.spurious
    && var pc := s.threads[act.t].pc; pc.Cas? && pc.a == a && s.arenas[a].head == pc.head
  }

  ghost predicate KeepsAsking(s: State, acts: seq<Action>, t: nat, a: nat)
    decreases |acts|
  {
    Asking(s, t, a) && (acts == [] || (Enabled(s, acts[0]) && KeepsAsking(Do(s, acts[0]), acts[1..], t, a)))
  }

  ghost function OwnMoves(acts: seq<Action>, t: nat): nat {
    if acts == [] then 0 else OwnMoves(acts[1..], t) + if acts[0].t == t then 1 else 0
  }

  ghost function SpuriousFailures(acts: seq<Action>, t: nat): nat {
    if acts == [] then 0
    else SpuriousFailures(acts[1..], t) + if acts[0].t == t && acts[0].Move? && acts[0].spurious then 1 else 0
  }

  ghost function PushesOfOthers(s: State, acts: seq<Action>, t: nat, a: nat): nat
    decreases |acts|
  {
    if acts == [] || !Enabled(s, acts[0]) then 0
    else
      var here: nat := if acts[0].t != t && PushesOnto(s, acts[0], a) then 1 else 0;
      here + PushesOfOthers(Do(s, acts[0]), acts[1..], t, a)
  }

  /** What a step of another thread does to the arena a thread is asking. */
  lemma OthersStep(s: State, act: Action, t: nat, a: nat)
    requires Enabled(s, act) && Asking(s, t, a) && Asking(Do(s, act), t, a) && act.t != t
    ensures Do(s, act).threads[t] == s.threads[t]
    ensures var arena, arena' := s.arenas[a], Do(s, act).arenas[a];
      if PushesOnto(s, act, a) then arena'.list == [s.threads[act.t].pc.x] + arena.list
      else arena'.list == arena.list && arena'.head == arena.head
  {
    hide Owner, Next, NewId, NeedsBatch, LifeCycleId;
  }

  lemma AheadOfPushed(list: seq<Addr>, x: Addr, cur: Addr)
    requires x != cur
    ensures Ahead([x] + list, cur) == Ahead(list, cur)
  {
    assert ([x] + list)[1..] == list;
  }

  /** The pushed entry is nowhere in the list yet, so the thread is not standing on it. */
  lemma PushedIsElsewhere(s: State, act: Action, t: nat, a: nat)
    requires Inv(s) && PushesOnto(s, act, a) && Asking(s, t, a) && s.threads[t].pc.Traverse?
    ensures s.threads[act.t].pc.x != s.threads[t].pc.cur
  {
    assert PcOk(s, t) && PcOk(s, act.t);
  }

  lemma OthersDelay(s: State, act: Action, t: nat, a: nat)
    requires Inv(s) && Enabled(s, act) && Asking(s, t, a) && Asking(Do(s, act), t, a) && act.t != t
    ensures var s' := Do(s, act);
      Distance(s'.arenas[a], s'.threads[t].pc)
      <= Distance(s.arenas[a], s.threads[t].pc) + if PushesOnto(s, act, a) then 2 else 0
  {
    OthersStep(s, act, t, a);
    if PushesOnto(s, act, a) && s.threads[t].pc.Traverse? {
      PushedIsElsewhere(s, act, t, a);
      AheadOfPushed(s.arenas[a].list, s.threads[act.t].pc.x, s.threads[t].pc.cur);
    }
    hide Inv, Enabled, Do, PushesOnto, Ahead;
  }

  lemma SpuriousDelay(s: State, t: nat, a: nat, spare: Addr)
    requires Inv(s) && Asking(s, t, a) && MayMove(s, t, spare)
    ensures var s' := Moved(s, t, spare, true);
      a in s'.arenas && Distance(s'.arenas[a], s'.threads[t].pc) <= Distance(s.arenas[a], s.threads[t].pc) + 1
  {
    if s.threads[t].pc.Cas? {
      hide Inv, Ahead, Owner, Next;
    } else {
      assert Moved(s, t, spare, true) == Moved(s, t, spare, false);
      OwnMoveIsCloser(s, t, a, spare);
      hide *;
    }
  }

  lemma OwnStep(s: State, act: Action, t: nat, a: nat)
    requires Inv(s) && Enabled(s, act) && Asking(s, t, a) && Asking(Do(s, act), t, a) && act.t == t
    ensures var s' := Do(s, act);
      Distance(s'.arenas[a], s'.threads[t].pc) + 1
      <= Distance(s.arenas[a], s.threads[t].pc) + if act.Move? && act.spurious then 2 else 0
  {
    assert act.Move? && MayMove(s, t, act.spare);
    if act.spurious { SpuriousDelay(s, t, a, act.spare); } else { OwnMoveIsCloser(s, t, a, act.spare); }
    hide Inv, Enabled, Moved, Distance;
  }

  /** Over every interleaving, a thread is held up only by the success of others: the moves it makes
      while it keeps asking are at most the distance it started with, and two more for each entry
      another thread pushes meanwhile and for each spurious failure. */
  lemma {:induction false} OnlyPushesDelay(s: State, acts: seq<Action>, t: nat, a: nat)
    requires Inv(s) && KeepsAsking(s, acts, t, a)
    ensures OwnMoves(acts, t) <= Distance(s.arenas[a], s.threads[t].pc)
      + 2 * PushesOfOthers(s, acts, t, a) + 2 * SpuriousFailures(acts, t)
    decreases |acts|
  {
    if acts != [] {
      var act := acts[0];
      assert Asking(Do(s, act), t, a);
      if act.t == t { OwnStep(s, act, t, a); } else { OthersDelay(s, act, t, a); }
      DoKeepsInv(s, act);
      hide Inv, Enabled, Do, Asking, Distance, PushesOnto;
      OnlyPushesDelay(Do(s, act), acts[1..], t, a);
    }
  }

  /** The same from the start: 12 moves and the length of the list, plus two for each delay. */
  lemma {:induction false} CallsAreLockFree(n: nat, before: seq<Action>, s: State, acts: seq<Action>, t: nat, a: nat)
    requires Runs(Initial(n), before, s) && KeepsAsking(s, acts, t, a)
    ensures OwnMoves(acts, t)
      <= 12 + |s.arenas[a].list| + 2 * PushesOfOthers(s, acts, t, a) + 2 * SpuriousFailures(acts, t)
  {
    InitialInv(n);
    RunKeepsInv(Initial(n), before, s);
    OnlyPushesDelay(s, acts, t, a);
    DistanceBound(s.arenas[a], s.threads[t].pc);
    hide *;
  }
}
