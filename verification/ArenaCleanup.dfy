/** ThreadSafeArena together with its SerialArena objects: Reset and the destructor first call every
    registered cleanup, and only then give blocks back. */
module ArenaCleanup {
  import opened Alignment
  import opened Sequences
  import opened SerialArenas
  import opened SerialArenaProperties
  import opened SerialArenaClass
  import opened ArenaRelease
  import opened ThreadSafeArenas
  import opened ArenaBlocks

  /** The state of one SerialArena arena. */
  datatype Snapshot = Snapshot(view: Serial, cells: Cells, log: seq<CleanupNode>)

  /** What the CleanupList of one SerialArena calls. */
  ghost function CallsOf(snap: Snapshot): seq<CleanupNode> {
    if snap.view.blocks == [] then [] else Called(snap.cells, Visits(Synced(snap.view), |snap.view.blocks|))
  }

  /** What the pass over the first n SerialArenas of the list calls. */
  ghost function AllCalls(snaps: seq<Snapshot>, n: nat): seq<CleanupNode>
    requires n <= |snaps|
  {
    if n == 0 then [] else AllCalls(snaps, n - 1) + CallsOf(snaps[n - 1])
  }

  /** Everything registered in them, each one's newest first. */
  ghost function AllRegistered(snaps: seq<Snapshot>, n: nat): seq<CleanupNode>
    requires n <= |snaps|
  {
    if n == 0 then [] else AllRegistered(snaps, n - 1) + Reverse(snaps[n - 1].log)
  }

  ghost predicate SnapshotOk(snap: Snapshot) {
    Inv(snap.view) && Logged(snap.view, snap.cells, snap.log)
  }

  ghost predicate NoBlockSkipped(s: Serial) {
    forall i :: 0 <= i < |s.blocks| ==> !Skipped(s, i)
  }

  lemma OneArenaExact(snap: Snapshot)
    requires SnapshotOk(snap)
    ensures CallsOf(snap) == Reverse(snap.log) <==> NoBlockSkipped(snap.view)
    ensures |CallsOf(snap)| <= |snap.log|
    ensures |CallsOf(snap)| == |snap.log| ==> NoBlockSkipped(snap.view)
  {
    CallsAreTheLog(snap.view, snap.cells, snap.log);
    VisitsAll(snap.view, |snap.view.blocks|);
    NoneSkippedAnywhere(snap.view, |snap.view.blocks|);
  }

  lemma BothEqual<T>(a: seq<T>, b: seq<T>, c: seq<T>, d: seq<T>)
    requires |a| <= |c| && |b| <= |d|
    ensures a + b == c + d <==> a == c && b == d
    ensures |a + b| <= |c + d| && (|a + b| == |c + d| ==> |a| == |c| && |b| == |d|)
  {
    if a + b == c + d {
      assert (a + b)[..|a|] == a && (c + d)[..|c|] == c;
      assert (a + b)[|a|..] == b && (c + d)[|c|..] == d;
    }
  }

  ghost predicate CleanPass(snaps: seq<Snapshot>, n: nat)
    requires n <= |snaps|
  {
    forall k :: 0 <= k < n ==> NoBlockSkipped(snaps[k].view)
  }

  lemma PassStep(snaps: seq<Snapshot>, n: nat)
    requires 0 < n <= |snaps|
    ensures CleanPass(snaps, n) <==> CleanPass(snaps, n - 1) && NoBlockSkipped(snaps[n - 1].view)
    ensures AllCalls(snaps, n) == AllCalls(snaps, n - 1) + CallsOf(snaps[n - 1])
    ensures AllRegistered(snaps, n) == AllRegistered(snaps, n - 1) + Reverse(snaps[n - 1].log)
    ensures |Reverse(snaps[n - 1].log)| == |snaps[n - 1].log|
  {
    hide NoBlockSkipped;
  }

  lemma {:induction false} NoMoreThanRegistered(snaps: seq<Snapshot>, n: nat)
    requires n <= |snaps| && forall k :: 0 <= k < |snaps| ==> SnapshotOk(snaps[k])
    ensures |AllCalls(snaps, n)| <= |AllRegistered(snaps, n)|
  {
    if n > 0 {
      assert SnapshotOk(snaps[n - 1]);
      hide *;
      PassStep(snaps, n);
      NoMoreThanRegistered(snaps, n - 1);
      OneArenaExact(snaps[n - 1]);
    } else {
      assert AllCalls(snaps, 0) == [];
    }
  }

  /** The whole pass calls every cleanup registered in any SerialArena exactly once, each one's
      newest first, if and only if none of them has a block that its CleanupList skips. */
  lemma {:induction false} PassIsExact(snaps: seq<Snapshot>, n: nat)
    requires n <= |snaps| && forall k :: 0 <= k < |snaps| ==> SnapshotOk(snaps[k])
    ensures AllCalls(snaps, n) == AllRegistered(snaps, n) <==> CleanPass(snaps, n)
  {
    if n > 0 {
      assert SnapshotOk(snaps[n - 1]);
      hide *;
      PassStep(snaps, n);
      PassIsExact(snaps, n - 1);
      NoMoreThanRegistered(snaps, n - 1);
      OneArenaExact(snaps[n - 1]);
      BothEqual(AllCalls(snaps, n - 1), CallsOf(snaps[n - 1]), AllRegistered(snaps, n - 1), Reverse(snaps[n - 1].log));
    }
  }

  // ----- the arena with its objects -----

  datatype Event = Ran(node: CleanupNode) | Freed(mem: Memory)

  ghost function CallEvents(calls: seq<CleanupNode>): seq<Event> {
    seq(|calls|, i requires 0 <= i < |calls| => Ran(calls[i]))
  }

  ghost function FreeEvents(blocks: Chain): seq<Event> {
    seq(|blocks|, i requires 0 <= i < |blocks| => Freed(blocks[i]))
  }

  ghost function SnapOf(a: SerialArena): Snapshot
    reads a
  {
    Snapshot(a.View(), a.cells, a.log)
  }

  ghost function SnapsOf(objects: seq<SerialArena>): (snaps: seq<Snapshot>)
    reads objects
    ensures |snaps| == |objects| && forall k :: 0 <= k < |snaps| ==> snaps[k] == SnapOf(objects[k])
  {
    if objects == [] then [] else [SnapOf(objects[0])] + SnapsOf(objects[1..])
  }

  ghost predicate ObjectsOk(objects: seq<SerialArena>)
    reads objects
  {
    && (forall k :: 0 <= k < |objects| ==> objects[k].Valid())
    && (forall j, k :: 0 <= j < k < |objects| ==> objects[j] != objects[k])
  }

  ghost function ViewsOf(objects: seq<SerialArena>): (views: seq<Serial>)
    reads objects
    ensures |views| == |objects| && forall k :: 0 <= k < |views| ==> views[k] == objects[k].View()
  {
    if objects == [] then [] else [objects[0].View()] + ViewsOf(objects[1..])
  }

  /** What CleanupList leaves of a SerialArena. */
  ghost function CleanedUp(snap: Snapshot): Snapshot {
    if snap.view.blocks == [] then snap else snap.(view := snap.view.(blocks := Synced(snap.view)))
  }

  /** The first k objects are cleaned up, the others are as they were. */
  ghost predicate Remaining(objects: seq<SerialArena>, snaps: seq<Snapshot>, k: nat)
    reads objects
  {
    && |objects| == |snaps|
    && (forall j :: k <= j < |objects| ==> SnapOf(objects[j]) == snaps[j])
    && forall j :: 0 <= j < k && j < |objects| ==> SnapOf(objects[j]) == CleanedUp(snaps[j])
  }

  /** At most one SerialArena of one block, large enough for what the initialisation puts in it. */
  ghost predicate JustInitialized(arena: ThreadSafeArena)
    reads arena, arena.system
  {
    && arena.Valid() && (arena.userOwned ==> arena.user.addr % 8 == 0)
    && |arena.lists| <= 1
    && (|arena.lists| == 1 ==>
          && |arena.lists[0]| == 1
          && var first := arena.lists[0][0];
          && first.addr % 8 == 0 && BLOCK_HEADER_SIZE + SERIAL_ARENA_SIZE <= first.size
          && (arena.policyAt != NO_POLICY ==> MINIMUM_SIZE <= first.size))
  }

  lemma InitializedFacts(arena: ThreadSafeArena)
    requires JustInitialized(arena)
    ensures arena.Valid() && (arena.threads != NULL <==> |arena.lists| == 1)
    ensures |arena.lists| == 1 ==>
      && |arena.lists[0]| == 1 && arena.lists == [[arena.lists[0][0]]]
      && var mem := arena.lists[0][0];
      && mem.addr % 8 == 0 && BLOCK_HEADER_SIZE + SERIAL_ARENA_SIZE <= mem.size
      && (arena.policyAt != NO_POLICY ==> arena.policyAt == PolicyIn(mem) && MINIMUM_SIZE <= mem.size)
    ensures arena.policyAt != NO_POLICY ==> |arena.lists| == 1
  {
    EndOfList(arena.system.heap, arena.threads, arena.lists, 0);
    if |arena.lists| == 1 {
      assert arena.lists[0] == [arena.lists[0][0]] && arena.lists == [arena.lists[0]];
      assert Flat(arena.lists, 0) == [] && Flat(arena.lists, 1) == arena.lists[0];
    }
    hide SerialOk;
  }

  lemma ObjectsOkAgain(objects: seq<SerialArena>)
    requires |objects| == 1 && objects[0].Valid()
    ensures ObjectsOk(objects)
  {
  }

  lemma ObjectStarted(objects: seq<SerialArena>, lists: seq<Chain>, policyAt: Addr, mem: Memory)
    requires |objects| == 1 && lists == [[mem]] && mem.addr % 8 == 0
    requires BLOCK_HEADER_SIZE + SERIAL_ARENA_SIZE <= mem.size
    requires if policyAt == NO_POLICY then objects[0].View() == NewSerial(mem)
      else (
        && MINIMUM_SIZE <= mem.size && policyAt == PolicyIn(mem) && NewSerial(mem).ptr <= NewSerial(mem).limit
        && HasSpace(NewSerial(mem), POLICY_SIZE) && objects[0].View() == Bumped(NewSerial(mem), POLICY_SIZE, 0))
    ensures JustStarted(ViewsOf(objects), lists, policyAt)
  {
    hide SerialArena.View, Bumped, NewSerial;
  }

  class Arena {
    const inner: ThreadSafeArena
    /** The SerialArena objects, in the order of the list. */
    var objects: seq<SerialArena>
    /** History: the cleanups called and the blocks given back. */
    ghost var trace: seq<Event>

    ghost predicate Valid()
      reads this, inner, inner.system, objects
    {
      && inner.Valid() && ObjectsOk(objects) && Tied(ViewsOf(objects), inner.lists, inner.policyAt)
      && (inner.userOwned ==> inner.user.addr % 8 == 0)
    }

    /** AllocPolicy(), or the policy AllocateMemory falls back on. */
    function CurrentPolicy(): Policy
      reads this, inner, inner.system
      requires inner.Valid()
    {
      if inner.policyAt != NO_POLICY then inner.system.heap.policies[inner.policyAt] else DEFAULT_POLICY
    }

    /** The system's answer if n bytes and the nodes do not fit the k-th SerialArena: a block of the
        size asked for that overlaps no block in use. */
    ghost predicate SystemServes(k: nat, n: nat, nodes: nat, mem: Memory)
      reads this, inner, inner.system, objects
    {
      && Valid() && k < |objects| && objects[k].SystemServes(n, nodes, CurrentPolicy(), mem)
      && (!HasSpaceSafe(objects[k].View(), n + nodes * CLEANUP_SIZE) ==>
            mem.addr != NULL && mem.addr !in inner.system.heap.blocks && FreshFor(inner.lists, mem))
    }

    constructor (system: System, mem: Memory, owner: nat)
      requires mem.addr % 8 == 0
      modifies system
      ensures Valid() && inner.system == system && trace == [] && inner.policyAt == NO_POLICY
      ensures JustStarted(ViewsOf(objects), inner.lists, inner.policyAt)
      ensures forall k :: 0 <= k < |objects| ==> objects[k].log == []
    {
      hide Owns, JustInitialized, JustStarted, Tied, SerialArena.Valid, ObjectsOk, ViewsOf;
      var arena := new ThreadSafeArena(system, mem);
      inner, objects, trace := arena, [], [];
      new;
      AfterReset(inner, mem);
      Restart(owner);
    }

    constructor WithPolicy(system: System, mem: Memory, policy: Policy, hooks: bool, own: Memory, owner: nat)
      requires mem.addr % 8 == 0 && own.addr % 8 == 0
      requires !IsDefault(policy, hooks) && (mem.addr == NULL || mem.size < MINIMUM_SIZE) ==>
        own.addr != NULL && own.size == BlockSize(policy, 0, MINIMUM_SIZE)
      modifies system
      ensures Valid() && inner.system == system && trace == []
      ensures JustStarted(ViewsOf(objects), inner.lists, inner.policyAt)
      ensures CurrentPolicy() == if IsDefault(policy, hooks) then DEFAULT_POLICY else policy
      ensures forall k :: 0 <= k < |objects| ==> objects[k].log == []
    {
      hide Owns, JustInitialized, JustStarted, Tied, SerialArena.Valid, ObjectsOk, ViewsOf;
      var arena := new ThreadSafeArena.WithPolicy(system, mem, policy, hooks, own);
      inner, objects, trace := arena, [], [];
      new;
      AfterReset(inner, own);
      Restart(owner);
    }

    /** SerialArena::New in SetInitialBlock. */
    method ObjectForFirstBlock(mem: Memory, owner: nat)
      requires mem.addr % 8 == 0 && BLOCK_HEADER_SIZE + SERIAL_ARENA_SIZE <= mem.size
      modifies this`objects
      ensures |objects| == 1 && fresh(objects[0]) && ObjectsOk(objects) && objects[0].log == []
      ensures objects[0].View() == NewSerial(mem)
    {
      var first := new SerialArena.New(mem, owner);
      objects := [first];
    }

    /** A thread's first request: a new SerialArena in front of the list, in a block of the start
        size unless that is too small. */
    method AddSerial(mem: Memory, owner: nat)
      requires Valid() && mem.addr != NULL && mem.addr % 8 == 0 && FreshFor(inner.lists, mem)
      requires mem.size == BlockSize(CurrentPolicy(), 0, SERIAL_ARENA_SIZE)
      requires mem.addr !in inner.system.heap.blocks && Embedded(mem) !in inner.system.heap.serials
      modifies this`objects, inner, inner.system
      ensures Valid() && inner.lists == [[mem]] + old(inner.lists)
      ensures |objects| == |old(objects)| + 1 && objects[1..] == old(objects) && objects[0].log == []
      ensures objects[0].View() == NewSerial(mem) && CurrentPolicy() == old(CurrentPolicy())
    {
      hide Arena.Valid, ThreadSafeArena.Valid, SerialArena.Valid, SerialArena.View;
      hide ObjectsOk, ViewsOf, Tied, Inv, Logged;
      hide NewSerial, Owns, Flat, FreshFor, SerialAt, Embedded, BlockSize;
      ghost var views := ViewsOf(objects);
      ReadyToAdd(this, mem);
      inner.PushSerial(mem);
      objects := AddObject(objects, mem, owner);
      ValidAgain(this, [NewSerial(mem)] + views);
    }

    /** The list gains the block that a request which does not fit is going to get. */
    method MakeRoom(serial: Addr, k: nat, bytes: nat, mem: Memory)
      requires inner.Valid() && k < |objects| == |inner.lists| && serial == SerialAt(inner.lists, k)
      requires objects[k].ptr <= objects[k].limit
      requires bytes > objects[k].limit - objects[k].ptr ==> mem.addr != NULL && mem.addr !in inner.system.heap.blocks
      modifies inner`lists, inner.system
      ensures inner.Valid() && inner.system.freed == old(inner.system.freed)
      ensures inner.system.heap.policies == old(inner.system.heap.policies)
      ensures k < |old(inner.lists)|
        && inner.lists == ListsAfter(old(inner.lists), k, bytes > objects[k].limit - objects[k].ptr, mem)
    {
      hide Owns;
      if !(bytes <= objects[k].limit - objects[k].ptr) { inner.GrowSerial(serial, mem, k); }
    }

    /** AllocateAligned on the k-th SerialArena of the list. What it returns never overlaps the
        policy. */
    method AllocateAligned(serial: Addr, k: nat, n: nat, mem: Memory) returns (ret: nat)
      requires SystemServes(k, n, 0, mem) && serial == SerialAt(inner.lists, k)
      requires AlignUpTo8(n) == n && n + BLOCK_HEADER_SIZE <= MAX_REQUEST
      modifies objects[k], inner`lists, inner.system
      ensures Valid() && k < |old(objects)| && CurrentPolicy() == old(CurrentPolicy())
      ensures HandedOut(old(objects[k].View()), objects[k].View(), n, 0, mem, ret)
      ensures objects[k].log == old(objects[k].log)
      ensures inner.policyAt != NO_POLICY ==> Disjoint(Range(ret, ret + n), PolicyRange(inner.policyAt))
    {
      hide Arena.Valid, Arena.SystemServes, ThreadSafeArena.Valid;
      hide SerialArena.Valid, SerialArena.View, ObjectsOk, ViewsOf;
      hide Tied, Inv, Logged, Owns, Allocated, Ready;
      hide SerialAt, FreshFor, HandedOut, ListsAfter, HasSpaceSafe, BlockSize;
      ghost var views := ViewsOf(objects);
      ReadyToServe(this, k, n, 0, mem);
      var policy := CurrentPolicy();
      MakeRoom(serial, k, n, mem);
      ret := AllocateFrom(objects, k, n, policy, mem);
      HandedOutIs(views[k], objects[k].View(), n, 0, mem, ret);
      ValidAgain(this, views[k := Allocated(views[k], n, 0, mem)]);
    }

    /** AddCleanup on the k-th SerialArena of the list, which may need a block for the node. */
    method AddCleanup(serial: Addr, k: nat, elem: nat, cleanup: nat, mem: Memory)
      requires SystemServes(k, 0, 1, mem) && serial == SerialAt(inner.lists, k)
      modifies objects[k], inner`lists, inner.system
      ensures Valid() && k < |old(objects)| && CurrentPolicy() == old(CurrentPolicy())
      ensures objects[k].log == old(objects[k].log) + [CleanupNode(elem, cleanup)]
      ensures inner.system.freed == old(inner.system.freed)
    {
      hide Arena.Valid, Arena.SystemServes, ThreadSafeArena.Valid;
      hide SerialArena.Valid, SerialArena.View, ObjectsOk, ViewsOf;
      hide Tied, Inv, Logged, Owns, Allocated, Ready;
      hide SerialAt, FreshFor, HandedOut, ListsAfter, HasSpaceSafe, BlockSize;
      ghost var views := ViewsOf(objects);
      ReadyToServe(this, k, 0, 1, mem);
      var policy := CurrentPolicy();
      MakeRoom(serial, k, CLEANUP_SIZE, mem);
      CleanupFrom(objects, k, elem, cleanup, policy, mem);
      ValidAgain(this, views[k := Allocated(views[k], 0, 1, mem)]);
    }

    /** The CleanupList of each SerialArena. The heap is not changed: every block of the arena is
        still there for the cleanups to refer to. */
    method CleanupList() returns (calls: seq<CleanupNode>)
      requires Valid()
      modifies this`trace, objects
      ensures Valid()
      ensures calls == AllCalls(old(SnapsOf(objects)), |objects|) && trace == old(trace) + CallEvents(calls)
    {
      hide ThreadSafeArena.Valid, SerialArena.Valid, AllCalls, Shape, CallEvents, Tied, CleanedUp;
      assert Shape(inner.system.heap, inner.threads, inner.lists) by { ListIsThere(inner); }
      ghost var views, snaps := ViewsOf(objects), SnapsOf(objects);
      assert |objects| == |inner.lists| by { TiedSizes(views, inner.lists, inner.policyAt); }
      calls := PerSerialArena(inner.system, inner.threads, inner.lists, objects, snaps);
      trace := trace + CallEvents(calls);
      CleanedTied(objects, snaps, views, inner.lists, inner.policyAt);
    }

    method FirstBlock() returns (mem: Memory)
      requires inner.Valid() && |inner.lists| == 1 && |inner.lists[0]| == 1
      ensures mem == inner.lists[0][0]
    {
      assert SerialOk(inner.system.heap, inner.lists, 0);
      var head := inner.system.heap.serials[inner.threads].head;
      mem := Memory(head, inner.system.heap.blocks[head].size);
    }

    /** The SerialArena that an initialisation makes, with the policy in it. */
    method Restart(owner: nat)
      requires JustInitialized(inner)
      modifies this`objects
      ensures Valid() && fresh(objects) && forall k :: 0 <= k < |objects| ==> objects[k].log == []
      ensures JustStarted(ViewsOf(objects), inner.lists, inner.policyAt)
    {
      InitializedFacts(inner);
      hide Owns, Shape, PolicyIn, SerialArena.Valid;
      objects := [];
      if inner.threads != NULL { RestartObject(owner); }
      StartedTied(inner, ViewsOf(objects));
    }

    method RestartObject(owner: nat)
      requires JustInitialized(inner) && |inner.lists| == 1
      modifies this`objects
      ensures |objects| == 1 && fresh(objects[0]) && ObjectsOk(objects) && objects[0].log == []
      ensures JustStarted(ViewsOf(objects), inner.lists, inner.policyAt)
    {
      hide *;
      InitializedFacts(inner);
      var mem := FirstBlock();
      ObjectForFirstBlock(mem, owner);
      if inner.policyAt != NO_POLICY {
        PlacePolicy(mem, objects[0]);
        ObjectsOkAgain(objects);
      }
      ObjectStarted(objects, inner.lists, inner.policyAt, mem);
    }

    /** There is always room for the policy, at the address the arena remembers. */
    method PlacePolicy(mem: Memory, first: SerialArena)
      requires MINIMUM_SIZE <= mem.size && first.Valid() && first.View() == NewSerial(mem)
      requires inner.policyAt == PolicyIn(mem)
      modifies first
      ensures first.Valid() && first.log == old(first.log)
      ensures NewSerial(mem).ptr <= NewSerial(mem).limit && HasSpace(NewSerial(mem), POLICY_SIZE)
      ensures first.View() == Bumped(NewSerial(mem), POLICY_SIZE, 0)
    {
      PolicyFits(mem);
      hide Inv, Logged;
      var p, ok := first.MaybeAllocateAligned(POLICY_SIZE);
      assert ok && p == inner.policyAt;
    }

    /** First every cleanup of every SerialArena, then the blocks: nothing is given back before the
        last cleanup has been called. Then a SerialArena with all of its first block free, or all but
        the policy. */
    method Reset(own: Memory, owner: nat) returns (space: nat)
      requires Valid() && own.addr % 8 == 0
      requires inner.policyAt != NO_POLICY && !inner.userOwned ==>
        && own.addr != NULL
        && own.size == BlockSize(inner.system.heap.policies[inner.policyAt], 0, MINIMUM_SIZE)
      modifies this, objects, inner, inner.system
      ensures Valid() && fresh(objects) && forall k :: 0 <= k < |objects| ==> objects[k].log == []
      ensures JustStarted(ViewsOf(objects), inner.lists, inner.policyAt) && CurrentPolicy() == old(CurrentPolicy())
      ensures space == Total(All(old(inner.lists)))
      ensures trace == old(trace) + CallEvents(AllCalls(old(SnapsOf(objects)), |old(objects)|))
        + FreeEvents(if old(inner.userOwned) then Front(All(old(inner.lists))) else All(old(inner.lists)))
    {
      hide Owns, AllCalls, CallEvents, FreeEvents, SerialArena.Valid, SnapsOf, Tied, JustStarted;
      var _ := CleanupList();
      ghost var blocks := if inner.userOwned then Front(All(inner.lists)) else All(inner.lists);
      space := inner.Reset(own);
      AfterReset(inner, own);
      trace := trace + FreeEvents(blocks);
      Restart(owner);
    }

    /** The destructor, in the same two passes. */
    method Destroy() returns (space: nat)
      requires Valid()
      modifies this, objects, inner.system
      ensures space == Total(All(inner.lists))
      ensures trace == old(trace) + CallEvents(AllCalls(old(SnapsOf(objects)), |old(objects)|))
        + FreeEvents(if inner.userOwned then Front(All(inner.lists)) else All(inner.lists))
    {
      hide Owns, Tied, ObjectsOk, ViewsOf, SnapsOf, AllCalls, CallEvents, FreeEvents, Front, Flat, Total;
      var _ := CleanupList();
      space := inner.Destroy();
      trace := trace + FreeEvents(if inner.userOwned then Front(All(inner.lists)) else All(inner.lists));
    }
  }

  lemma ReadyToAdd(arena: Arena, mem: Memory)
    requires arena.Valid() && mem.addr % 8 == 0 && FreshFor(arena.inner.lists, mem)
    requires mem.size == BlockSize(arena.CurrentPolicy(), 0, SERIAL_ARENA_SIZE)
    ensures arena.inner.Valid() && ObjectsOk(arena.objects)
    ensures BLOCK_HEADER_SIZE + SERIAL_ARENA_SIZE <= mem.size
    ensures Tied([NewSerial(mem)] + ViewsOf(arena.objects), [[mem]] + arena.inner.lists, arena.inner.policyAt)
    ensures arena.inner.userOwned ==> arena.inner.user.addr % 8 == 0
  {
    TiedPushed(ViewsOf(arena.objects), arena.inner.lists, arena.inner.policyAt, mem);
  }

  lemma ServeFacts(arena: Arena, k: nat, n: nat, nodes: nat, mem: Memory)
    requires arena.SystemServes(k, n, nodes, mem)
    ensures arena.inner.Valid() && ObjectsOk(arena.objects)
    ensures (arena.inner.userOwned ==> arena.inner.user.addr % 8 == 0)
    ensures k < |arena.objects| == |ViewsOf(arena.objects)| == |arena.inner.lists|
    ensures Tied(ViewsOf(arena.objects), arena.inner.lists, arena.inner.policyAt)
    ensures arena.objects[k].SystemServes(n, nodes, arena.CurrentPolicy(), mem)
    ensures ViewsOf(arena.objects)[k] == arena.objects[k].View()
    ensures Serving(arena.objects[k].View(), n, nodes, arena.CurrentPolicy(), mem)
    ensures !HasSpaceSafe(arena.objects[k].View(), n + nodes * CLEANUP_SIZE) ==>
      mem.addr != NULL && mem.addr !in arena.inner.system.heap.blocks && FreshFor(arena.inner.lists, mem)
  {
    hide Owns, Serving, HasSpaceSafe, FreshFor;
  }

  lemma RoomFacts(a: SerialArena, n: nat, nodes: nat, mem: Memory)
    ensures a.View().ptr == a.ptr && a.View().limit == a.limit
    ensures a.ptr <= a.limit ==>
      (HasSpaceSafe(a.View(), n + nodes * CLEANUP_SIZE)
       <==> n + nodes * CLEANUP_SIZE <= a.limit - a.ptr)
  {
  }

  lemma RoomIsFresh(views: seq<Serial>, lists: seq<Chain>, k: nat, n: nat, nodes: nat, policy: Policy, mem: Memory)
    requires k < |views| && Serving(views[k], n, nodes, policy, mem) && views[k].ptr <= views[k].limit
    requires !HasSpaceSafe(views[k], n + nodes * CLEANUP_SIZE) ==> FreshFor(lists, mem)
    ensures !HasSpace(views[k], n + nodes * CLEANUP_SIZE) ==> FreshBlock(views[k], mem) && FreshFor(lists, mem)
  {
    hide FreshBlock, FreshFor, Inv;
  }

  lemma ReadyToServe(arena: Arena, k: nat, n: nat, nodes: nat, mem: Memory)
    requires arena.SystemServes(k, n, nodes, mem) && n % 8 == 0 && nodes <= 1
    ensures arena.inner.Valid() && ObjectsOk(arena.objects)
    ensures (arena.inner.userOwned ==> arena.inner.user.addr % 8 == 0)
    ensures k < |arena.objects| == |arena.inner.lists|
    ensures arena.objects[k].SystemServes(n, nodes, arena.CurrentPolicy(), mem)
    ensures var s, bytes := ViewsOf(arena.objects)[k], n + nodes * CLEANUP_SIZE;
      && s == arena.objects[k].View() && s.ptr <= s.limit && Ready(s, n, nodes, mem)
      && s.ptr == arena.objects[k].ptr && s.limit == arena.objects[k].limit
      && (bytes > s.limit - s.ptr ==> mem.addr != NULL && mem.addr !in arena.inner.system.heap.blocks)
      && Tied(ViewsOf(arena.objects)[k := Allocated(s, n, nodes, mem)],
              ListsAfter(arena.inner.lists, k, bytes > s.limit - s.ptr, mem), arena.inner.policyAt)
      && (arena.inner.policyAt != NO_POLICY ==>
            var t := Allocated(s, n, nodes, mem);
            t.ptr >= n && Disjoint(Range(t.ptr - n, t.ptr), PolicyRange(arena.inner.policyAt)))
  {
    hide *;
    var views, lists, policyAt := ViewsOf(arena.objects), arena.inner.lists, arena.inner.policyAt;
    ServeFacts(arena, k, n, nodes, mem);
    TiedRoom(views, lists, policyAt, k, n, nodes, arena.CurrentPolicy(), mem);
    RoomFacts(arena.objects[k], n, nodes, mem);
    if policyAt != NO_POLICY {
      RoomIsFresh(views, lists, k, n, nodes, arena.CurrentPolicy(), mem);
      ServedIsApart(views, lists, policyAt, k, n, nodes, mem);
    }
  }

  lemma ValidAgain(arena: Arena, views: seq<Serial>)
    requires arena.inner.Valid() && ObjectsOk(arena.objects) && ViewsOf(arena.objects) == views
    requires Tied(views, arena.inner.lists, arena.inner.policyAt)
    requires arena.inner.userOwned ==> arena.inner.user.addr % 8 == 0
    ensures arena.Valid()
  {
    hide Tied;
  }

  method AddObject(objects: seq<SerialArena>, mem: Memory, owner: nat) returns (objects': seq<SerialArena>)
    requires ObjectsOk(objects) && mem.addr % 8 == 0 && BLOCK_HEADER_SIZE + SERIAL_ARENA_SIZE <= mem.size
    ensures ObjectsOk(objects') && |objects'| == |objects| + 1 && objects'[1..] == objects && fresh(objects'[0])
    ensures objects'[0].View() == NewSerial(mem) && objects'[0].log == []
    ensures ViewsOf(objects') == [NewSerial(mem)] + ViewsOf(objects)
  {
    hide Inv, Logged, NewSerial, SerialArena.Valid;
    var first := new SerialArena.New(mem, owner);
    objects' := [first] + objects;
  }

  method AllocateFrom(objects: seq<SerialArena>, k: nat, n: nat, policy: Policy, mem: Memory) returns (ret: nat)
    requires ObjectsOk(objects) && k < |objects| && objects[k].SystemServes(n, 0, policy, mem)
    requires AlignUpTo8(n) == n && n + BLOCK_HEADER_SIZE <= MAX_REQUEST
    modifies objects[k]
    ensures ObjectsOk(objects) && HandedOut(old(objects[k].View()), objects[k].View(), n, 0, mem, ret)
    ensures objects[k].log == old(objects[k].log)
    ensures ViewsOf(objects) == old(ViewsOf(objects))[k := objects[k].View()]
  {
    hide HandedOut, SerialArena.Valid, SerialArena.SystemServes;
    ghost var views := ViewsOf(objects);
    ret := objects[k].AllocateAligned(n, policy, mem);
    assert ViewsOf(objects) == views[k := objects[k].View()];
  }

  method CleanupFrom(objects: seq<SerialArena>, k: nat, elem: nat, cleanup: nat, policy: Policy, mem: Memory)
    requires ObjectsOk(objects) && k < |objects| && objects[k].SystemServes(0, 1, policy, mem)
    modifies objects[k]
    ensures ObjectsOk(objects) && Ready(old(objects[k].View()), 0, 1, mem)
    ensures objects[k].log == old(objects[k].log) + [CleanupNode(elem, cleanup)]
    ensures ViewsOf(objects) == old(ViewsOf(objects))[k := Allocated(old(objects[k].View()), 0, 1, mem)]
  {
    hide Allocated, Ready, SerialArena.Valid, SerialArena.SystemServes;
    ghost var views := ViewsOf(objects);
    objects[k].AddCleanup(elem, cleanup, policy, mem);
    assert ViewsOf(objects) == views[k := objects[k].View()];
  }

  /** What serving a request from SerialArena k does to the whole. */
  lemma TiedRoom(views: seq<Serial>, lists: seq<Chain>, policyAt: Addr, k: nat, n: nat, nodes: nat, policy: Policy,
                 mem: Memory)
    requires Tied(views, lists, policyAt) && k < |views| && n % 8 == 0 && nodes <= 1
    requires Serving(views[k], n, nodes, policy, mem)
    requires !HasSpaceSafe(views[k], n + nodes * CLEANUP_SIZE) ==> FreshFor(lists, mem)
    ensures |views| == |lists| && views[k].ptr <= views[k].limit && Ready(views[k], n, nodes, mem)
    ensures Tied(views[k := Allocated(views[k], n, nodes, mem)],
                 ListsAfter(lists, k, n + nodes * CLEANUP_SIZE > views[k].limit - views[k].ptr, mem), policyAt)
  {
    InvReady(views[k], n, nodes, mem);
    TiedServed(views, lists, policyAt, k, n, nodes, mem);
  }

  lemma HandedOutIs(s: Serial, t: Serial, n: nat, nodes: nat, mem: Memory, ret: nat)
    requires HandedOut(s, t, n, nodes, mem, ret)
    ensures Ready(s, n, nodes, mem) && t == Allocated(s, n, nodes, mem) && ret + n == t.ptr
  {
  }

  /** An arena as its initialisation leaves it: at most one SerialArena, of one block, from which
      nothing but the policy was allocated. */
  ghost predicate JustStarted(views: seq<Serial>, lists: seq<Chain>, policyAt: Addr) {
    if lists == [] then views == [] && policyAt == NO_POLICY
    else
      && |views| == |lists| == |lists[0]| == 1
      && var mem := lists[0][0];
      && mem.addr % 8 == 0 && BLOCK_HEADER_SIZE + SERIAL_ARENA_SIZE <= mem.size
      && if policyAt == NO_POLICY then views[0] == NewSerial(mem)
         else (
           && MINIMUM_SIZE <= mem.size && policyAt == PolicyIn(mem)
           && HasSpaceSafe(NewSerial(mem), POLICY_SIZE) && views[0] == Bumped(NewSerial(mem), POLICY_SIZE, 0))
  }

  lemma JustStartedIsTied(views: seq<Serial>, lists: seq<Chain>, policyAt: Addr)
    requires JustStarted(views, lists, policyAt)
    ensures Tied(views, lists, policyAt)
  {
    if lists != [] {
      var mem := lists[0][0];
      assert lists[0] == [mem] && lists == [lists[0]] && views == [views[0]];
      if policyAt == NO_POLICY { TiedFirst(mem); } else { TiedWithPolicy(mem); }
      hide *;
    }
  }

  lemma StartedTied(arena: ThreadSafeArena, views: seq<Serial>)
    requires JustInitialized(arena)
    requires if arena.threads == NULL then views == []
      else JustStarted(views, arena.lists, arena.policyAt)
    ensures JustStarted(views, arena.lists, arena.policyAt) && Tied(views, arena.lists, arena.policyAt)
  {
    InitializedFacts(arena);
    assert arena.threads == NULL ==> arena.lists == [];
    JustStartedIsTied(views, arena.lists, arena.policyAt);
  }

  lemma TiedSizes(views: seq<Serial>, lists: seq<Chain>, policyAt: Addr)
    requires Tied(views, lists, policyAt)
    ensures |views| == |lists|
  {
  }

  lemma CleanedTied(objects: seq<SerialArena>, snaps: seq<Snapshot>, views: seq<Serial>, lists: seq<Chain>,
                    policyAt: Addr)
    requires |snaps| == |objects| == |views| && forall k :: 0 <= k < |snaps| ==> snaps[k].view == views[k]
    requires ObjectsOk(objects) && Remaining(objects, snaps, |snaps|) && Tied(views, lists, policyAt)
    ensures Tied(ViewsOf(objects), lists, policyAt)
  {
    hide ObjectsOk, Remaining, Inv, Tied, SerialArena.View, Synced;
    forall k | 0 <= k < |objects|
      ensures var s := ViewsOf(objects)[k];
        Inv(s) && views[k].blocks != [] && s == views[k].(blocks := Synced(views[k]))
    {
      TiedView(views, lists, policyAt, k);
      CleanedView(objects, snaps, views[k], k);
    }
    TiedCleaned(views, ViewsOf(objects), lists, policyAt);
  }

  lemma TiedView(views: seq<Serial>, lists: seq<Chain>, policyAt: Addr, k: nat)
    requires Tied(views, lists, policyAt) && k < |views|
    ensures Inv(views[k]) && views[k].blocks != []
  {
  }

  lemma CleanedView(objects: seq<SerialArena>, snaps: seq<Snapshot>, s: Serial, k: nat)
    requires k < |objects| == |snaps| && ObjectsOk(objects) && Remaining(objects, snaps, |snaps|)
    requires snaps[k].view == s && s.blocks != []
    ensures Inv(objects[k].View()) && objects[k].View() == s.(blocks := Synced(s))
  {
    hide Inv, Synced, Logged;
    assert objects[k].Valid() && SnapOf(objects[k]) == CleanedUp(snaps[k]);
  }

  lemma AfterReset(arena: ThreadSafeArena, own: Memory)
    requires arena.Valid() && own.addr % 8 == 0 && (arena.userOwned ==> arena.user.addr % 8 == 0)
    requires !arena.userOwned && arena.policyAt != NO_POLICY ==> own.size >= MINIMUM_SIZE
    requires arena.lists
      == if arena.userOwned then [[arena.user]] else if arena.policyAt != NO_POLICY then [[own]] else []
    ensures JustInitialized(arena)
  {
    hide Shape;
  }

  lemma ListIsThere(arena: ThreadSafeArena)
    requires arena.Valid()
    ensures Shape(arena.system.heap, arena.threads, arena.lists)
  {
  }

  lemma SyncedSize(s: Serial)
    requires s.blocks != []
    ensures |Synced(s)| == |s.blocks|
  {
  }

  /** The walk over the list: each SerialArena cleans up before its link is followed. */
  method PerSerialArena(system: System, threads: Addr, ghost lists: seq<Chain>, objects: seq<SerialArena>,
                        ghost snaps: seq<Snapshot>)
      returns (calls: seq<CleanupNode>)
    requires Shape(system.heap, threads, lists) && |objects| == |lists| == |snaps|
    requires ObjectsOk(objects) && Remaining(objects, snaps, 0)
    modifies objects
    ensures ObjectsOk(objects) && Remaining(objects, snaps, |snaps|) && calls == AllCalls(snaps, |snaps|)
  {
    hide *;
    var serial, k := threads, 0;
    calls := [];
    PassStarts(system.heap, threads, lists, snaps);
    while serial != NULL
      invariant k <= |objects| && (serial == NULL <==> k == |objects|) && serial == SerialAt(lists, k)
      invariant calls == AllCalls(snaps, k) && ObjectsOk(objects) && Remaining(objects, snaps, k)
      decreases |objects| - k
    {
      var more := CleanupNext(objects, snaps, k);
      CallsNext(snaps, k);
      calls := calls + more;
      NextSerial(system.heap, threads, lists, k);
      serial := system.heap.serials[serial].next;
      k := k + 1;
    }
  }

  lemma PassStarts(h: Heap, threads: Addr, lists: seq<Chain>, snaps: seq<Snapshot>)
    requires Shape(h, threads, lists)
    ensures threads == SerialAt(lists, 0) && (threads == NULL <==> 0 == |lists|) && AllCalls(snaps, 0) == []
  {
    EndOfList(h, threads, lists, 0);
  }

  method CleanupOne(arena: SerialArena) returns (calls: seq<CleanupNode>)
    requires arena.Valid()
    modifies arena
    ensures arena.Valid() && calls == CallsOf(old(SnapOf(arena)))
    ensures SnapOf(arena) == CleanedUp(old(SnapOf(arena)))
  {
    assert arena.blocks != [];
    SyncedSize(arena.View());
    hide Inv, Logged, Visits, Called, Synced, Registered, Skipped, Reverse;
    calls := arena.CleanupList();
  }

  method CleanupNext(objects: seq<SerialArena>, ghost snaps: seq<Snapshot>, k: nat) returns (calls: seq<CleanupNode>)
    requires k < |objects| && ObjectsOk(objects) && Remaining(objects, snaps, k)
    modifies objects[k]
    ensures ObjectsOk(objects) && Remaining(objects, snaps, k + 1) && calls == CallsOf(snaps[k])
  {
    hide CallsOf, SerialArena.Valid, CleanedUp;
    calls := CleanupOne(objects[k]);
  }

  lemma NextSerial(h: Heap, threads: Addr, lists: seq<Chain>, k: nat)
    requires Shape(h, threads, lists) && k < |lists|
    ensures SerialAt(lists, k) in h.serials && h.serials[SerialAt(lists, k)].next == SerialAt(lists, k + 1)
    ensures SerialAt(lists, k + 1) == NULL <==> k + 1 == |lists|
  {
    assert SerialOk(h, lists, k);
    EndOfList(h, threads, lists, k + 1);
  }

  lemma CallsNext(snaps: seq<Snapshot>, k: nat)
    requires k < |snaps|
    ensures AllCalls(snaps, k + 1) == AllCalls(snaps, k) + CallsOf(snaps[k])
  {
  }
}
