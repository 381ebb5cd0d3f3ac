/** How threads find their SerialArena in a ThreadSafeArena: the thread cache, the hint, and the
    lock-free list, as atomic steps of any number of threads on any number of arenas. */
module ArenaProtocol {
  import opened Alignment

  type Addr = nat
  const NULL: Addr := 0

  const DELTA := 2
  const INC := 512
  /** last_lifecycle_id_seen of a thread that has used no arena: -1 in 64 bits. */
  const UNSEEN := 0xFFFF_FFFF_FFFF_FFFF
  /** The batches of ids that 64 bits can tell apart. */
  const MAX_BATCHES := 0x80_0000_0000_0000

  /** Where a thread is. Each constructor but Idle names the next atomic step it will take. */
  datatype Pc =
    | Idle
    | CheckCache(a: nat, id: nat, maybe: bool)
    | ReadHint(a: nat)
    | LoadThreads(a: nat)
    | Traverse(a: nat, cur: Addr)
    | Create(a: nat)
    | LoadHead(a: nat, x: Addr)
    | SetNext(a: nat, x: Addr, head: Addr)
    | Cas(a: nat, x: Addr, head: Addr)
    | SetCacheSerial(a: nat, x: Addr)
    | SetCacheId(a: nat, x: Addr)
    | SetHint(a: nat, x: Addr)
    | Using(a: nat, x: Addr)

  datatype Thread = Thread(nextId: nat, lastSeen: nat, lastSerial: Addr, pc: Pc)

  const FRESH_THREAD := Thread(0, UNSEEN, NULL, Idle)

  /** `list` is history: the entries of the linked list, newest first. The steps follow `head`
      and the `next` fields. */
  datatype Arena = Arena(tag: nat, hint: Addr, head: Addr, list: seq<Addr>)
  datatype SerialRec = SerialRec(owner: nat, next: Addr)

  /** `batches` records which thread took each batch of ids, `issued` every id handed out. A
      freed SerialArena leaves `serials`, and its address may be used again. */
  datatype State = State(batches: seq<nat>, issued: set<nat>, threads: seq<Thread>,
                         arenas: map<nat, Arena>, serials: map<Addr, SerialRec>)

  datatype Action =
    | Construct(t: nat, a: nat, record: bool, initial: Addr)
    | Destroy(t: nat, a: nat)
    | Enter(t: nat, a: nat, tagged: bool, maybe: bool)
    | Exit(t: nat)
    | Move(t: nat, spare: Addr, spurious: bool)

  function LifeCycleId(tag: nat): nat { tag - tag % 2 }

  function Owner(s: State, x: Addr): nat {
    if x in s.serials then s.serials[x].owner else 0
  }

  function Next(s: State, x: Addr): Addr {
    if x in s.serials then s.serials[x].next else NULL
  }

  function WithPc(s: State, t: nat, pc: Pc): State
    requires t < |s.threads|
  {
    s.(threads := s.threads[t := s.threads[t].(pc := pc)])
  }

  predicate Outside(pc: Pc, a: nat) {
    pc.Idle? || pc.a != a
  }

  // ----- Init: lifecycle ids -----

  predicate NeedsBatch(s: State, t: nat)
    requires t < |s.threads|
  {
    s.threads[t].nextId % INC == 0
  }

  function NewId(s: State, t: nat): nat
    requires t < |s.threads|
  {
    if NeedsBatch(s, t) then |s.batches| * INC else s.threads[t].nextId
  }

  function IdTaken(s: State, t: nat): State
    requires t < |s.threads|
  {
    var id := NewId(s, t);
    s.(batches := if NeedsBatch(s, t) then s.batches + [t] else s.batches,
       issued := s.issued + {id},
       threads := s.threads[t := s.threads[t].(nextId := id + DELTA)])
  }

  // ----- the steps -----

  predicate Enabled(s: State, act: Action) {
    && act.t < |s.threads|
    && match act
       case Construct(t, a, record, initial) =>
         && s.threads[t].pc.Idle? && a !in s.arenas && initial !in s.serials
         && (NeedsBatch(s, t) ==> |s.batches| < MAX_BATCHES)
         && (record ==> NewId(s, t) + 1 != UNSEEN)
       case Destroy(t, a) =>
         s.threads[t].pc.Idle? && a in s.arenas && forall u :: 0 <= u < |s.threads| ==> Outside(s.threads[u].pc, a)
       case Enter(t, a, tagged, maybe) => s.threads[t].pc.Idle? && a in s.arenas
       case Exit(t) => s.threads[t].pc.Idle?
       case Move(t, spare, spurious) =>
         !s.threads[t].pc.Idle? && s.threads[t].pc.a in s.arenas && spare != NULL && spare !in s.serials
  }

  /** Init, and SetInitialBlock when the arena starts with a block. No other thread can be inside
      the arena, so this is one step. */
  function Constructed(s: State, t: nat, a: nat, record: bool, initial: Addr): State
    requires t < |s.threads|
  {
    var id := NewId(s, t);
    var tag := if record then id + 1 else id;
    var s1 := IdTaken(s, t);
    if initial == NULL then s1.(arenas := s1.arenas[a := Arena(tag, NULL, NULL, [])])
    else s1.(arenas := s1.arenas[a := Arena(tag, initial, initial, [initial])],
             serials := s1.serials[initial := SerialRec(t, NULL)],
             threads := s1.threads[t := s1.threads[t].(lastSerial := initial, lastSeen := id)])
  }

  function Destroyed(s: State, a: nat): State
    requires a in s.arenas
  {
    s.(arenas := s.arenas - {a}, serials := s.serials - (set x | x in s.arenas[a].list))
  }

  /** A thread ends, and a new one gets a fresh ThreadCache at the same address: entries of the old
      thread stay in the lists, and now belong to the new one. */
  function Exited(s: State, t: nat): State
    requires t < |s.threads|
  {
    s.(threads := s.threads[t := FRESH_THREAD])
  }

  function Moved(s: State, t: nat, spare: Addr, spurious: bool): State
    requires t < |s.threads| && !s.threads[t].pc.Idle? && s.threads[t].pc.a in s.arenas
  {
    var me := s.threads[t];
    var arena := s.arenas[me.pc.a];
    match me.pc
    case CheckCache(a, id, maybe) =>
      if me.lastSeen == id then WithPc(s, t, Using(a, me.lastSerial))
      else if maybe then WithPc(s, t, Idle)
      else if id % 2 == 1 then WithPc(s, t, CheckCache(a, id - 1, false))
      else WithPc(s, t, ReadHint(a))
    case ReadHint(a) =>
      if arena.hint != NULL && Owner(s, arena.hint) == t then WithPc(s, t, Using(a, arena.hint))
      else WithPc(s, t, LoadThreads(a))
    case LoadThreads(a) => WithPc(s, t, Traverse(a, arena.head))
    case Traverse(a, cur) =>
      if cur == NULL then WithPc(s, t, Create(a))
      else if Owner(s, cur) == t then WithPc(s, t, SetCacheSerial(a, cur))
      else WithPc(s, t, Traverse(a, Next(s, cur)))
    case Create(a) => WithPc(s.(serials := s.serials[spare := SerialRec(t, NULL)]), t, LoadHead(a, spare))
    case LoadHead(a, x) => WithPc(s, t, SetNext(a, x, arena.head))
    case SetNext(a, x, head) => WithPc(s.(serials := s.serials[x := SerialRec(Owner(s, x), head)]), t, Cas(a, x, head))
    case Cas(a, x, head) =>
      if arena.head == head && !spurious then
        WithPc(s.(arenas := s.arenas[a := arena.(head := x, list := [x] + arena.list)]), t, SetCacheSerial(a, x))
      else WithPc(s, t, SetNext(a, x, arena.head))
    case SetCacheSerial(a, x) => s.(threads := s.threads[t := me.(lastSerial := x, pc := SetCacheId(a, x))])
    case SetCacheId(a, x) => s.(threads := s.threads[t := me.(lastSeen := LifeCycleId(arena.tag), pc := SetHint(a, x))])
    case SetHint(a, x) => WithPc(s.(arenas := s.arenas[a := arena.(hint := x)]), t, Using(a, x))
    case Using(a, x) => WithPc(s, t, Idle)
  }

  function Do(s: State, act: Action): State
    requires Enabled(s, act)
  {
    match act
    case Construct(t, a, record, initial) => Constructed(s, t, a, record, initial)
    case Destroy(t, a) => Destroyed(s, a)
    case Enter(t, a, tagged, maybe) =>
      var tag := s.arenas[a].tag;
      WithPc(s, t, CheckCache(a, if tagged then tag else LifeCycleId(tag), maybe))
    case Exit(t) => Exited(s, t)
    case Move(t, spare, spurious) => Moved(s, t, spare, spurious)
  }

  // ----- the invariant -----

  /** Every id handed out is even, and the unused ids of a thread's batch lie above its next id. */
  ghost predicate IdsOk(s: State) {
    && |s.batches| <= MAX_BATCHES
    && (forall i :: i in s.issued ==> i % 2 == 0 && i / INC < |s.batches|)
    && (forall t :: 0 <= t < |s.threads| ==> BatchOk(s, t))
  }

  ghost predicate BatchOk(s: State, t: nat)
    requires t < |s.threads|
  {
    var next := s.threads[t].nextId;
    && next % 2 == 0
    && (next % INC != 0 ==>
          && next / INC < |s.batches| && s.batches[next / INC] == t
          && forall i :: i in s.issued && i / INC == next / INC ==> i < next)
  }

  /** Live arenas have distinct ids, all of them handed out, and none is tagged -1. */
  ghost predicate TagsOk(s: State) {
    && (forall a :: a in s.arenas ==> LifeCycleId(s.arenas[a].tag) in s.issued && s.arenas[a].tag != UNSEEN)
    && (forall a, b :: a in s.arenas && b in s.arenas && a != b ==>
          LifeCycleId(s.arenas[a].tag) != LifeCycleId(s.arenas[b].tag))
  }

  ghost predicate Linked(s: State, a: nat)
    requires a in s.arenas
  {
    var list := s.arenas[a].list;
    && (forall i :: 0 <= i < |list| ==> list[i] != NULL && list[i] in s.serials)
    && (forall i, j :: 0 <= i < |list| && j == i + 1 < |list| ==> Next(s, list[i]) == list[j])
    && (|list| > 0 ==> Next(s, list[|list| - 1]) == NULL)
    && s.arenas[a].head == (if |list| == 0 then NULL else list[0])
    && (s.arenas[a].hint == NULL || s.arenas[a].hint in list)
  }

  ghost predicate OneEach(s: State, a: nat)
    requires a in s.arenas
  {
    var list := s.arenas[a].list;
    forall i, j :: 0 <= i < j < |list| ==> Owner(s, list[i]) != Owner(s, list[j])
  }

  /** No entry sits in two lists. */
  ghost predicate Apart(s: State) {
    forall a, b, x :: a in s.arenas && b in s.arenas && a != b && x in s.arenas[a].list ==> x !in s.arenas[b].list
  }

  ghost predicate ListsOk(s: State) {
    (forall a :: a in s.arenas ==> Linked(s, a) && OneEach(s, a)) && Apart(s)
  }

  /** x is in the list of arena a and belongs to thread t. */
  ghost predicate Mine(s: State, t: nat, a: nat, x: Addr) {
    a in s.arenas && x in s.arenas[a].list && x in s.serials && Owner(s, x) == t
  }

  ghost predicate NoneMine(s: State, t: nat, a: nat) {
    a in s.arenas && forall x :: x in s.arenas[a].list ==> Owner(s, x) != t
  }

  ghost predicate Pending(s: State, t: nat, x: Addr) {
    x != NULL && x in s.serials && Owner(s, x) == t && forall a :: a in s.arenas ==> x !in s.arenas[a].list
  }

  ghost predicate NoneMineBefore(s: State, t: nat, a: nat, cur: Addr)
    requires a in s.arenas
  {
    var list := s.arenas[a].list;
    forall i, j :: 0 <= j < i < |list| && list[i] == cur ==> Owner(s, list[j]) != t
  }

  ghost predicate PcOk(s: State, t: nat)
    requires t < |s.threads|
  {
    var pc := s.threads[t].pc;
    pc.Idle? || (pc.a in s.arenas &&
      match pc
      case CheckCache(a, id, maybe) => id == s.arenas[a].tag || id == LifeCycleId(s.arenas[a].tag)
      case ReadHint(a) => true
      case LoadThreads(a) => true
      case Traverse(a, cur) =>
        if cur == NULL then NoneMine(s, t, a) else cur in s.arenas[a].list && NoneMineBefore(s, t, a, cur)
      case Create(a) => NoneMine(s, t, a)
      case LoadHead(a, x) => NoneMine(s, t, a) && Pending(s, t, x)
      case SetNext(a, x, head) => NoneMine(s, t, a) && Pending(s, t, x)
      case Cas(a, x, head) => NoneMine(s, t, a) && Pending(s, t, x) && Next(s, x) == head
      case SetCacheSerial(a, x) => Mine(s, t, a, x)
      case SetCacheId(a, x) => Mine(s, t, a, x) && s.threads[t].lastSerial == x
      case SetHint(a, x) =>
        && Mine(s, t, a, x) && s.threads[t].lastSerial == x
        && s.threads[t].lastSeen == LifeCycleId(s.arenas[a].tag)
      case Using(a, x) => Mine(s, t, a, x))
  }

  /** A cache entry that matches a live arena names this thread's entry in that arena's list. */
  ghost predicate CacheOk(s: State, t: nat)
    requires t < |s.threads|
  {
    var me := s.threads[t];
    && (me.lastSeen == UNSEEN || me.lastSeen in s.issued)
    && (!me.pc.SetCacheId? ==>
          forall a :: a in s.arenas && LifeCycleId(s.arenas[a].tag) == me.lastSeen ==> Mine(s, t, a, me.lastSerial))
  }

  ghost predicate ThreadsOk(s: State) {
    forall t :: 0 <= t < |s.threads| ==> PcOk(s, t) && CacheOk(s, t)
  }

  ghost predicate Inv(s: State) {
    IdsOk(s) && TagsOk(s) && ListsOk(s) && ThreadsOk(s)
  }

  function Initial(n: nat): State {
    State([], {}, seq(n, _ => FRESH_THREAD), map[], map[])
  }

  lemma InitialInv(n: nat)
    ensures Inv(Initial(n))
  {
  }

  // ----- lifecycle ids -----

  /** The id Init takes has never been handed out before and is even, and the tag made of it is -1
      only for the very last id there is. */
  lemma {:induction false} NewIdIsFresh(s: State, t: nat)
    requires IdsOk(s) && t < |s.threads| && (NeedsBatch(s, t) ==> |s.batches| < MAX_BATCHES)
    ensures NewId(s, t) !in s.issued && NewId(s, t) % 2 == 0 && NewId(s, t) < UNSEEN
    ensures LifeCycleId(NewId(s, t)) == NewId(s, t) == LifeCycleId(NewId(s, t) + 1)
  {
    assert BatchOk(s, t);
    BatchStart(|s.batches|);
    var id := NewId(s, t);
    assert id % 2 == 0 && id / INC < MAX_BATCHES && id !in s.issued;
    hide *;
    IdBelowUnseen(id);
    Untagged(id);
  }

  /** The one construction that is left out: its recording tag is what a thread that has used no
      arena remembers, and the thread would take NULL for its SerialArena. */
  lemma {:induction false} LastTagLooksSeen(s: State, t: nat, a: nat, record: bool, u: nat)
    requires IdsOk(s) && t < |s.threads| && u < |s.threads| && u != t && s.threads[u] == FRESH_THREAD
    requires a !in s.arenas && (NeedsBatch(s, t) ==> |s.batches| < MAX_BATCHES)
    ensures var s' := Constructed(s, t, a, record, NULL);
      Moved(Do(s', Enter(u, a, true, false)), u, 1, false).threads[u].pc == Using(a, NULL)
      <==> record && NewId(s, t) + 1 == UNSEEN
  {
    NewIdIsFresh(s, t);
  }

  lemma BatchStart(n: nat)
    ensures (n * INC) / INC == n && (n * INC) % INC == 0 && (n * INC) % 2 == 0
  {
    FundamentalDivMod(n * INC, INC);
    RemainderUnique(n, (n * INC) / INC, 0, (n * INC) % INC, INC);
    MultipleMod(n * 256, 2);
  }

  lemma NextInBatch(id: nat, half: nat)
    requires id == 2 * half
    ensures (id + DELTA) % INC != 0 ==> (id + DELTA) / INC == id / INC
  {
    FundamentalDivMod(id, INC);
    FundamentalDivMod(id + DELTA, INC);
    Wraps(id / INC, id % INC, half, (id + DELTA) / INC, (id + DELTA) % INC);
  }

  lemma Wraps(q: nat, r: nat, half: nat, q': nat, r': nat)
    requires r < INC && r' < INC && q * INC + r == 2 * half && q' * INC + r' == q * INC + r + 2
    ensures r' != 0 ==> q' == q
  {
    assert r == 2 * (half - 256 * q);
    if r < 510 {
      RemainderUnique(q, q', r + 2, r', INC);
    } else {
      RemainderUnique(q + 1, q', 0, r', INC);
    }
  }

  lemma IdBelowUnseen(id: nat)
    requires id / INC < MAX_BATCHES && id % 2 == 0
    ensures id < UNSEEN
  {
  }

  lemma Untagged(id: nat)
    requires id % 2 == 0
    ensures LifeCycleId(id) == id == LifeCycleId(id + 1)
  {
  }

  /** The new id lies in a batch of the thread, above all ids handed out from it. */
  lemma NewIdInBatch(s: State, t: nat)
    requires IdsOk(s) && t < |s.threads| && (NeedsBatch(s, t) ==> |s.batches| < MAX_BATCHES)
    ensures var id, s' := NewId(s, t), IdTaken(s, t);
      && id % 2 == 0 && id / INC < |s'.batches| && s'.batches[id / INC] == t
      && forall i :: i in s.issued && i / INC == id / INC ==> i < id
  {
    assert BatchOk(s, t);
    BatchStart(|s.batches|);
  }

  lemma IdTakenOk(s: State, t: nat)
    requires IdsOk(s) && t < |s.threads| && (NeedsBatch(s, t) ==> |s.batches| < MAX_BATCHES)
    ensures IdsOk(IdTaken(s, t))
  {
    var s', id := IdTaken(s, t), NewId(s, t);
    NewIdInBatch(s, t);
    assert BatchOk(s', t) by { OwnBatchKept(s, t); }
    assert |s'.batches| <= MAX_BATCHES && s'.issued == s.issued + {id} && s.batches <= s'.batches;
    forall u | 0 <= u < |s'.threads| && u != t ensures BatchOk(s', u) { OtherBatchKept(s, t, u); }
    hide BatchOk, IdTaken, NewId, NeedsBatch;
  }

  lemma OwnBatchKept(s: State, t: nat)
    requires t < |s.threads|
    requires var id, s' := NewId(s, t), IdTaken(s, t);
      && id % 2 == 0 && id / INC < |s'.batches| && s'.batches[id / INC] == t
      && forall i :: i in s.issued && i / INC == id / INC ==> i < id
    ensures BatchOk(IdTaken(s, t), t)
  {
    var id, s' := NewId(s, t), IdTaken(s, t);
    NextInBatch(id, id / 2);
    assert s'.issued == s.issued + {id} && s'.threads[t].nextId == id + DELTA;
    assert (id + DELTA) % 2 == 0;
    hide NewId, NeedsBatch, IdTaken;
    forall i | i in s'.issued && i / INC == id / INC ensures i < id + DELTA {}
    hide INC;
  }

  lemma OtherBatchKept(s: State, t: nat, u: nat)
    requires IdsOk(s) && t < |s.threads| && u < |s.threads| && u != t
    ensures BatchOk(IdTaken(s, t), u)
  {
    assert BatchOk(s, u) && BatchOk(s, t);
    BatchStart(|s.batches|);
  }
}
