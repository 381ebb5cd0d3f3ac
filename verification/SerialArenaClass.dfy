/** The SerialArena object: each method against the step it performs. The memory the system hands
    out when a block is needed is a parameter. */
module SerialArenaClass {
  import opened Alignment
  import opened Sequences
  import opened SerialArenas
  import opened SerialArenaProperties

  /** What the program wrote into the cleanup nodes, by address. */
  type Cells = map<int, CleanupNode>

  function Cell(cells: Cells, a: int): CleanupNode {
    if a in cells then cells[a] else CleanupNode(0, 0)
  }

  function Called(cells: Cells, visits: seq<int>): seq<CleanupNode> {
    seq(|visits|, i requires 0 <= i < |visits| => Cell(cells, visits[i]))
  }

  lemma CalledAppend(cells: Cells, a: seq<int>, b: seq<int>)
    ensures Called(cells, a + b) == Called(cells, a) + Called(cells, b)
  {
  }

  /** The object handed out last. */
  ghost function Newest(s: Serial): Range {
    if s.extents == [] || s.extents[|s.extents| - 1].objects == [] then Range(0, 0)
    else s.extents[|s.extents| - 1].objects[|s.extents[|s.extents| - 1].objects| - 1]
  }

  const NO_DESTRUCTOR := 0

  /** The cleanup nodes AllocateInternal takes: none without a destructor. */
  function NodesFor(destructor: nat): nat { if destructor == NO_DESTRUCTOR then 0 else 1 }

  /** The bytes AllocateInternal asks for: alignments above 8 are met by asking for more. */
  function Requested(size: nat, align: nat): nat {
    if align <= 8 then AlignUpTo8(size) else size + align - 8
  }

  function Placed(p: nat, align: nat): nat
    requires align > 0
  {
    if align <= 8 then p else AlignTo(p, align)
  }

  lemma AlignedIsKept(n: nat)
    requires n % 8 == 0
    ensures AlignUpTo8(n) == n
  {
  }

  lemma OverAlignedRequest(size: nat, align: nat)
    requires size % 8 == 0 && align % 8 == 0 && align > 8
    ensures (size + align - 8) % 8 == 0
  {
  }

  lemma RequestedAligned(size: nat, align: nat)
    requires PowerOfTwo(align) && (align > 8 ==> size % 8 == 0)
    ensures Requested(size, align) % 8 == 0 && AlignUpTo8(Requested(size, align)) == Requested(size, align)
  {
    if align > 8 {
      PowerAbove8(align);
      hide PowerOfTwo, AlignUpTo8;
      OverAlignedRequest(size, align);
      AlignedIsKept(size + align - 8);
    } else {
      hide PowerOfTwo, AlignUpTo8;
      AlignedIsKept(AlignUpTo8(size));
    }
  }

  /** The object is aligned and lies inside the range that was handed out for it. */
  lemma PlacedFits(p: nat, size: nat, align: nat)
    requires PowerOfTwo(align) && p % 8 == 0
    ensures Placed(p, align) % align == 0
    ensures Within(Range(Placed(p, align), Placed(p, align) + size), Range(p, p + Requested(size, align)))
  {
    if align <= 8 { SmallPowerDivides(p, align); } else { OverAlignedFits(p, size, align); }
  }

  /** No smaller request would do: for some address that may be handed out the object would not fit. */
  lemma {:induction false} RequestIsLeast(size: nat, align: nat, n: nat)
    requires PowerOfTwo(align) && (align > 8 ==> size % 8 == 0) && n % 8 == 0 && n < Requested(size, align)
    ensures exists p: nat ::
      p % 8 == 0 && !Within(Range(Placed(p, align), Placed(p, align) + size), Range(p, p + n))
  {
    var p := if align <= 8 then 0 else 8;
    if align > 8 {
      PowerAbove8(align);
      AlignToBounds(8, align);
      OnlyMultipleBetween(AlignTo(8, align), align);
    }
    assert p % 8 == 0 && !Within(Range(Placed(p, align), Placed(p, align) + size), Range(p, p + n));
  }

  lemma OnlyMultipleBetween(x: nat, align: nat)
    requires align > 8 && 8 <= x < 8 + align && x % align == 0
    ensures x == align
  {
  }

  lemma VisitsCalled(cells: Cells, bs: seq<Block>, n: nat)
    requires 0 < n <= |bs|
    ensures Called(cells, Visits(bs, n)) == Called(cells, Visit(bs[n - 1])) + Called(cells, Visits(bs, n - 1))
  {
    CalledAppend(cells, Visit(bs[n - 1]), Visits(bs, n - 1));
  }

  lemma VisitsNone(cells: Cells, bs: seq<Block>)
    ensures Called(cells, Visits(bs, 0)) == []
  {
  }

  lemma CalledStep(cells: Cells, it: int, end: int)
    requires it < end
    ensures Called(cells, Walk(it, end)) == [Cell(cells, it)] + Called(cells, Walk(it + CLEANUP_SIZE, end))
  {
    CalledAppend(cells, [it], Walk(it + CLEANUP_SIZE, end));
  }

  lemma SyncedBlock(s: Serial, i: nat)
    requires |s.blocks| == |s.extents| > i && BlockInv(s, i)
    ensures BlockInv(s.(blocks := Synced(s)), i)
  {
    hide Tiles;
  }

  lemma SyncedShape(s: Serial)
    requires |s.blocks| == |s.extents| > 0
    ensures |Synced(s)| == |s.blocks|
    ensures forall i :: 0 <= i < |s.blocks| ==>
      Synced(s)[i].addr == s.blocks[i].addr && Synced(s)[i].size == s.blocks[i].size
  {
  }

  lemma SyncedSums(s: Serial)
    requires |s.blocks| == |s.extents| > 0
    ensures |Synced(s)| == |s.blocks| && UsedSum(s.(blocks := Synced(s)), |s.blocks| - 1) == UsedSum(s, |s.blocks| - 1)
    ensures SizeSum(Synced(s)) == SizeSum(s.blocks)
  {
    SyncedShape(s);
    hide Synced;
    UsedSumFrame(s, s.(blocks := Synced(s)), |s.blocks| - 1);
    SizeSumFrame(Synced(s), s.blocks);
  }

  /** Syncing `start` of the head block is invisible to the invariant. */
  lemma SyncedInv(s: Serial)
    requires Inv(s)
    ensures Inv(s.(blocks := Synced(s)))
  {
    var t := s.(blocks := Synced(s));
    SyncedShape(s);
    SyncedSums(s);
    forall i | 0 <= i < |t.blocks| ensures BlockInv(t, i) {
      SyncedBlock(s, i);
    }
    hide BlockInv, Synced, UsedSum, SizeSum;
  }

  /** The cleanups registered so far, in order: what the program wrote into the nodes it was given. */
  ghost predicate Logged(s: Serial, cells: Cells, log: seq<CleanupNode>) {
    Called(cells, Registered(s, |s.blocks|)) == log
  }

  lemma LogKept(s: Serial, t: Serial, cells: Cells, log: seq<CleanupNode>)
    requires Logged(s, cells, log) && Registered(t, |t.blocks|) == Registered(s, |s.blocks|)
    ensures Logged(t, cells, log)
  {
  }

  /** Writing a new node disturbs no earlier one. */
  lemma {:induction false} LogExtended(s: Serial, t: Serial, cells: Cells, log: seq<CleanupNode>, c: CleanupNode)
    requires Logged(s, cells, log) && Inv(t) && Registered(t, |t.blocks|) == Registered(s, |s.blocks|) + [t.limit]
    ensures Logged(t, cells[t.limit := c], log + [c])
  {
    var nodes := Registered(s, |s.blocks|);
    forall j | 0 <= j < |nodes| ensures nodes[j] != t.limit {
      assert Registered(t, |t.blocks|)[j] == nodes[j] && Registered(t, |t.blocks|)[|nodes|] == t.limit;
      hide *;
      RegisteredDistinct(t, |t.blocks|, j, |nodes|);
    }
  }

  lemma SyncedRegisters(s: Serial)
    requires Inv(s)
    ensures var t := s.(blocks := Synced(s)); Registered(t, |t.blocks|) == Registered(s, |s.blocks|)
  {
    var t := s.(blocks := Synced(s));
    SyncedShape(s);
    RegisteredFrame(s, t, |s.blocks|);
  }

  /** What CleanupList calls is the log backwards, if and only if no block is skipped. */
  lemma {:induction false} CallsAreTheLog(s: Serial, cells: Cells, log: seq<CleanupNode>)
    requires Inv(s) && Logged(s, cells, log)
    ensures Called(cells, Visits(Synced(s), |s.blocks|)) == Reverse(log)
      <==> forall i :: 0 <= i < |s.blocks| ==> !Skipped(s, i)
  {
    assert log == Called(cells, Registered(s, |s.blocks|));
    VisitsAll(s, |s.blocks|);
    NoneSkippedAnywhere(s, |s.blocks|);
    var nodes := Registered(s, |s.blocks|);
    hide *;
    CalledReversed(cells, nodes, Visits(Synced(s), |s.blocks|), NoneSkipped(s, |s.blocks|));
  }

  lemma CalledReversed(cells: Cells, nodes: seq<int>, visits: seq<int>, all: bool)
    requires if all then visits == Reverse(nodes) else |visits| < |nodes|
    ensures Called(cells, visits) == Reverse(Called(cells, nodes)) <==> all
  {
    if !all {
      assert |Called(cells, visits)| < |Reverse(Called(cells, nodes))|;
    }
  }

  lemma NewBlockServes(s: Serial, mem: Memory, cells: Cells, log: seq<CleanupNode>)
    requires Inv(s) && Logged(s, cells, log) && FreshBlock(s, mem) && BLOCK_HEADER_SIZE <= mem.size
    ensures s.blocks != [] && s.ptr >= s.blocks[|s.blocks| - 1].addr + BLOCK_HEADER_SIZE
    ensures Inv(WithNewBlock(s, mem)) && Logged(WithNewBlock(s, mem), cells, log)
  {
    assert BlockInv(s, |s.blocks| - 1);
    WithNewBlockInv(s, mem);
    NewBlockRegisters(s, mem);
    LogKept(s, WithNewBlock(s, mem), cells, log);
    hide *;
  }

  ghost predicate Serving(s: Serial, n: nat, nodes: nat, policy: Policy, mem: Memory) {
    Inv(s) && (!HasSpaceSafe(s, n + nodes * CLEANUP_SIZE) ==>
      FreshBlock(s, mem) && mem.size == BlockSize(policy, HeadSize(s), n + nodes * CLEANUP_SIZE))
  }

  /** A request was served: t is s after it, and ret is where the new range starts; it is 8-aligned,
      n bytes long and the newest one, and its node, if it asked for one, is now the lowest. */
  ghost predicate HandedOut(s: Serial, t: Serial, n: nat, nodes: nat, mem: Memory, ret: nat) {
    && Ready(s, n, nodes, mem) && t == Allocated(s, n, nodes, mem) && Inv(t)
    && Registered(t, |t.blocks|) == Registered(s, |s.blocks|) + (if nodes == 1 then [t.limit] else [])
    && ret % 8 == 0 && ret + n == t.ptr && Newest(t) == Range(ret, ret + n)
  }

  /** What a served request does, by the branch it takes. */
  lemma Served(s: Serial, n: nat, nodes: nat, policy: Policy, mem: Memory)
    requires n % 8 == 0 && nodes <= 1 && Serving(s, n, nodes, policy, mem)
    ensures s.ptr <= s.limit && s.blocks != [] && s.ptr >= s.blocks[|s.blocks| - 1].addr + BLOCK_HEADER_SIZE
    ensures HasSpace(s, n + nodes * CLEANUP_SIZE) ==>
      s.extents != [] && HandedOut(s, Bumped(s, n, nodes), n, nodes, mem, s.ptr)
    ensures !HasSpace(s, n + nodes * CLEANUP_SIZE) ==>
      && BLOCK_HEADER_SIZE + n + nodes * CLEANUP_SIZE <= mem.size && FreshBlock(s, mem)
      && HandedOut(s, Bumped(WithNewBlock(s, mem), n, nodes), n, nodes, mem, mem.addr + BLOCK_HEADER_SIZE)
  {
    InvReady(s, n, nodes, mem);
    AllocatedInv(s, n, nodes, mem);
    AllocatedRegisters(s, policy, Request(n, nodes, mem));
    hide Inv, Registered, FreshBlock;
  }

  class SerialArena {
    const owner: nat
    var blocks: seq<Block>
    var ptr: nat
    var limit: nat
    var spaceUsed: nat
    var spaceAllocated: nat
    var cells: Cells
    ghost var extents: seq<Extent>
    ghost var log: seq<CleanupNode>

    ghost function View(): Serial
      reads this
    {
      Serial(blocks, ptr, limit, spaceUsed, spaceAllocated, extents)
    }

    ghost predicate Valid()
      reads this
    {
      Inv(View()) && Logged(View(), cells, log)
    }

    constructor New(mem: Memory, owner: nat)
      requires mem.addr % 8 == 0 && BLOCK_HEADER_SIZE + SERIAL_ARENA_SIZE <= mem.size
      ensures View() == NewSerial(mem) && Valid() && this.owner == owner && log == []
    {
      this.owner := owner;
      blocks := [Block(mem.addr, mem.size, 0)];
      ptr := mem.addr + (BLOCK_HEADER_SIZE + SERIAL_ARENA_SIZE);
      limit := mem.addr + (mem.size - mem.size % 8);
      spaceUsed, spaceAllocated, cells := 0, mem.size, map[];
      extents, log := [Extent([], mem.addr + (BLOCK_HEADER_SIZE + SERIAL_ARENA_SIZE))], [];
      NewSerialInv(mem);
      NewRegistersNothing(mem);
    }

    /** The memory the system returns if the request does not fit the head block. */
    ghost predicate SystemServes(n: nat, nodes: nat, policy: Policy, mem: Memory)
      reads this
    {
      Valid() && Serving(View(), n, nodes, policy, mem)
    }

    method AllocateNewBlock(mem: Memory)
      requires Valid() && FreshBlock(View(), mem) && BLOCK_HEADER_SIZE <= mem.size
      modifies this
      ensures old(ptr) >= old(blocks)[|old(blocks)| - 1].addr + BLOCK_HEADER_SIZE
      ensures View() == WithNewBlock(old(View()), mem) && Valid() && cells == old(cells) && log == old(log)
    {
      NewBlockServes(View(), mem, cells, log);
      hide Inv, Logged, FreshBlock, Registered;
      var head := |blocks| - 1;
      blocks := blocks[head := blocks[head].(start := limit)];
      spaceUsed := spaceUsed + (ptr - (blocks[head].addr + BLOCK_HEADER_SIZE));
      spaceAllocated := spaceAllocated + mem.size;
      blocks := blocks + [Block(mem.addr, mem.size, 0)];
      ptr := mem.addr + BLOCK_HEADER_SIZE;
      limit := mem.addr + mem.size;
      extents := extents + [Extent([], ptr)];
    }

    method AllocateFromExisting(n: nat) returns (ret: nat)
      requires Valid() && n % 8 == 0 && n <= limit - ptr
      modifies this
      ensures View() == Bumped(old(View()), n, 0) && Valid() && ret == old(ptr) && cells == old(cells)
      ensures log == old(log)
    {
      BumpedInv(View(), n, 0);
      BumpedRegisters(View(), n, 0);
      LogKept(View(), Bumped(View(), n, 0), cells, log);
      hide Logged;
      ret := ptr;
      ptr := ptr + n;
      ghost var e := extents[|extents| - 1];
      extents := extents[|extents| - 1 := Extent(e.objects + [Range(ret, ret + n)], ret + n)];
    }

    /** The node is handed out unwritten: the caller writes it, and with that extends the log. */
    method AllocateFromExistingWithCleanup(n: nat) returns (ret: nat, node: nat)
      requires Inv(View()) && n % 8 == 0 && n + CLEANUP_SIZE <= limit - ptr
      modifies this
      ensures View() == Bumped(old(View()), n, 1) && Inv(View()) && ret == old(ptr) && node == limit
      ensures Registered(View(), |blocks|) == Registered(old(View()), |old(blocks)|) + [limit]
      ensures cells == old(cells) && log == old(log)
    {
      BumpedInv(View(), n, 1);
      BumpedRegisters(View(), n, 1);
      ret := ptr;
      ptr := ptr + n;
      limit := limit - CLEANUP_SIZE;
      node := limit;
      ghost var e := extents[|extents| - 1];
      extents := extents[|extents| - 1 := Extent(e.objects + [Range(ret, ret + n)], ret + n)];
    }

    method AllocateAlignedFallback(n: nat, mem: Memory) returns (ret: nat)
      requires Valid() && n % 8 == 0 && FreshBlock(View(), mem) && BLOCK_HEADER_SIZE + n <= mem.size
      modifies this
      ensures old(ptr) >= old(blocks)[|old(blocks)| - 1].addr + BLOCK_HEADER_SIZE
      ensures View() == Bumped(WithNewBlock(old(View()), mem), n, 0) && Valid()
      ensures ret == mem.addr + BLOCK_HEADER_SIZE && cells == old(cells) && log == old(log)
    {
      hide Inv, Logged, FreshBlock;
      AllocateNewBlock(mem);
      ret := AllocateFromExisting(n);
    }

    method AllocateAligned(n: nat, policy: Policy, mem: Memory) returns (ret: nat)
      requires AlignUpTo8(n) == n && n + BLOCK_HEADER_SIZE <= MAX_REQUEST && SystemServes(n, 0, policy, mem)
      modifies this
      ensures HandedOut(old(View()), View(), n, 0, mem, ret)
      ensures Valid() && cells == old(cells) && log == old(log)
    {
      Served(View(), n, 0, policy, mem);
      hide Logged, Inv, FreshBlock, WithNewBlock, Bumped, AlignUpTo8, HasSpaceSafe, HandedOut, Serving;
      if !(n <= limit - ptr) {
        ret := AllocateAlignedFallback(n, mem);
      } else {
        ret := AllocateFromExisting(n);
      }
    }

    method MaybeAllocateAligned(n: nat) returns (out: nat, ok: bool)
      requires Valid() && AlignUpTo8(n) == n
      modifies this
      ensures old(ptr) <= old(limit) && (ok <==> HasSpace(old(View()), n))
      ensures Valid() && cells == old(cells) && log == old(log)
      ensures View() == if ok then Bumped(old(View()), n, 0) else old(View())
      ensures ok ==> out + n == ptr
    {
      assert BlockInv(View(), |blocks| - 1);
      hide Logged;
      out, ok := 0, n <= limit - ptr;
      if ok { out := AllocateFromExisting(n); }
    }

    method AllocateAlignedWithCleanupFallback(n: nat, mem: Memory) returns (ret: nat, node: nat)
      requires Valid() && n % 8 == 0 && FreshBlock(View(), mem) && BLOCK_HEADER_SIZE + n + CLEANUP_SIZE <= mem.size
      modifies this
      ensures old(ptr) >= old(blocks)[|old(blocks)| - 1].addr + BLOCK_HEADER_SIZE
      ensures View() == Bumped(WithNewBlock(old(View()), mem), n, 1) && Inv(View())
      ensures node == limit && ret == mem.addr + BLOCK_HEADER_SIZE && cells == old(cells) && log == old(log)
    {
      hide Inv, Logged, FreshBlock, Registered;
      AllocateNewBlock(mem);
      ret, node := AllocateFromExistingWithCleanup(n);
    }

    method AllocateAlignedWithCleanup(n: nat, policy: Policy, mem: Memory) returns (ret: nat, node: nat)
      requires AlignUpTo8(n) == n && n + CLEANUP_SIZE + BLOCK_HEADER_SIZE <= MAX_REQUEST
      requires SystemServes(n, 1, policy, mem)
      modifies this
      ensures HandedOut(old(View()), View(), n, 1, mem, ret)
      ensures node == limit && cells == old(cells) && log == old(log)
    {
      Served(View(), n, 1, policy, mem);
      hide Logged, Registered, Inv, FreshBlock, WithNewBlock, Bumped, AlignUpTo8, HasSpaceSafe, HandedOut, Serving;
      if !(n + CLEANUP_SIZE <= limit - ptr) {
        ret, node := AllocateAlignedWithCleanupFallback(n, mem);
      } else {
        ret, node := AllocateFromExistingWithCleanup(n);
      }
    }

    method AddCleanup(elem: nat, cleanup: nat, policy: Policy, mem: Memory)
      requires SystemServes(0, 1, policy, mem)
      modifies this
      ensures Ready(old(View()), 0, 1, mem) && View() == Allocated(old(View()), 0, 1, mem)
      ensures Valid() && log == old(log) + [CleanupNode(elem, cleanup)]
    {
      hide Inv, Allocated, Ready, Logged, Registered, HasSpaceSafe, FreshBlock;
      var _, node := AllocateAlignedWithCleanup(0, policy, mem);
      LogExtended(old(View()), View(), cells, log, CleanupNode(elem, cleanup));
      cells := cells[node := CleanupNode(elem, cleanup)];
      log := log + [CleanupNode(elem, cleanup)];
    }

    /** Arena::AllocateAlignedWithHook: the object is aligned inside the range it asked for. */
    method AllocateAlignedWithHook(size: nat, align: nat, policy: Policy, mem: Memory) returns (placed: nat)
      requires PowerOfTwo(align) && (align > 8 ==> size % 8 == 0)
      requires Requested(size, align) + BLOCK_HEADER_SIZE <= MAX_REQUEST
      requires SystemServes(Requested(size, align), 0, policy, mem)
      modifies this
      ensures Valid() && log == old(log)
      ensures Ready(old(View()), Requested(size, align), 0, mem)
      ensures View() == Allocated(old(View()), Requested(size, align), 0, mem)
      ensures placed % align == 0 && Within(Range(placed, placed + size), Newest(View()))
    {
      assert align > 0;
      hide Inv, Allocated, Ready, Newest, Requested, Placed, PowerOfTwo, SystemServes, Logged;
      RequestedAligned(size, align);
      var ret := AllocateAligned(Requested(size, align), policy, mem);
      PlacedFits(ret, size, align);
      placed := Placed(ret, align);
    }

    /** The branch of AllocateInternal with a destructor: the node names the aligned object. */
    method AllocateDestructible(size: nat, align: nat, destructor: nat, policy: Policy, mem: Memory)
        returns (placed: nat)
      requires PowerOfTwo(align) && (align > 8 ==> size % 8 == 0)
      requires Requested(size, align) + CLEANUP_SIZE + BLOCK_HEADER_SIZE <= MAX_REQUEST
      requires SystemServes(Requested(size, align), 1, policy, mem)
      modifies this
      ensures Valid() && log == old(log) + [CleanupNode(placed, destructor)]
      ensures Ready(old(View()), Requested(size, align), 1, mem)
      ensures View() == Allocated(old(View()), Requested(size, align), 1, mem)
      ensures placed % align == 0 && Within(Range(placed, placed + size), Newest(View()))
    {
      var n := Requested(size, align);
      assert align > 0 && Valid();
      hide Inv, Allocated, Ready, Newest, Requested, Placed, PowerOfTwo, SystemServes, Logged, Registered;
      RequestedAligned(size, align);
      var ret, node := AllocateAlignedWithCleanup(n, policy, mem);
      PlacedFits(ret, size, align);
      placed := Placed(ret, align);
      LogExtended(old(View()), View(), cells, log, CleanupNode(placed, destructor));
      cells := cells[node := CleanupNode(placed, destructor)];
      log := log + [CleanupNode(placed, destructor)];
    }

    /** Arena::AllocateInternal: a cleanup is registered unless the destructor is null. */
    method AllocateInternal(size: nat, align: nat, destructor: nat, policy: Policy, mem: Memory) returns (placed: nat)
      requires PowerOfTwo(align) && (align > 8 ==> size % 8 == 0)
      requires Requested(size, align) + NodesFor(destructor) * CLEANUP_SIZE + BLOCK_HEADER_SIZE <= MAX_REQUEST
      requires SystemServes(Requested(size, align), NodesFor(destructor), policy, mem)
      modifies this
      ensures Valid() && log == old(log) + if destructor == NO_DESTRUCTOR then [] else [CleanupNode(placed, destructor)]
      ensures Ready(old(View()), Requested(size, align), NodesFor(destructor), mem)
      ensures View() == Allocated(old(View()), Requested(size, align), NodesFor(destructor), mem)
      ensures placed % align == 0 && Within(Range(placed, placed + size), Newest(View()))
    {
      assert align > 0;
      hide Inv, Allocated, Ready, Newest, Requested, Placed, PowerOfTwo, SystemServes, Logged;
      if destructor == NO_DESTRUCTOR {
        placed := AllocateAlignedWithHook(size, align, policy, mem);
      } else {
        placed := AllocateDestructible(size, align, destructor, policy, mem);
      }
    }

    method SpaceUsed() returns (used: int)
      requires Valid()
      ensures used == BytesHandedOut(View(), |blocks|)
    {
      SpaceUsedExact(View());
      used := (ptr - (blocks[|blocks| - 1].addr + BLOCK_HEADER_SIZE)) + spaceUsed - SERIAL_ARENA_SIZE;
    }

    /** Calls every cleanup ever registered exactly once, newest first, if and only if no block is
        skipped. */
    method CleanupList() returns (calls: seq<CleanupNode>)
      requires Valid()
      modifies this`blocks
      ensures old(blocks) != [] && blocks == Synced(old(View())) && Valid()
      ensures calls == Called(cells, Visits(blocks, |blocks|))
      ensures calls == Reverse(log) <==> forall i :: 0 <= i < |old(blocks)| ==> !Skipped(old(View()), i)
    {
      SyncedInv(View());
      SyncedRegisters(View());
      LogKept(View(), View().(blocks := Synced(View())), cells, log);
      CallsAreTheLog(View(), cells, log);
      hide *;
      blocks := blocks[|blocks| - 1 := blocks[|blocks| - 1].(start := limit)];
      calls := CleanupBlocks();
    }

    /** The loop of CleanupList over the blocks, newest first. */
    method CleanupBlocks() returns (calls: seq<CleanupNode>)
      ensures calls == Called(cells, Visits(blocks, |blocks|))
    {
      hide Visit, Visits, Called;
      var b: nat := |blocks|;
      calls := [];
      while b > 0
        invariant b <= |blocks|
        invariant calls + Called(cells, Visits(blocks, b)) == Called(cells, Visits(blocks, |blocks|))
      {
        b := b - 1;
        VisitsCalled(cells, blocks, b + 1);
        var more := CleanupBlock(blocks[b]);
        AppendAssociates(calls, more, Called(cells, Visits(blocks, b)));
        calls := calls + more;
      }
      VisitsNone(cells, blocks);
    }

    /** The body of the loop of CleanupList over the blocks. */
    method CleanupBlock(b: Block) returns (calls: seq<CleanupNode>)
      ensures calls == Called(cells, Visit(b))
    {
      var end := b.addr + (b.size - b.size % 8);
      var it: int := b.start;
      var num := (end - it) / CLEANUP_SIZE;
      var memory := cells;
      calls := [];
      if num > 0 {
        ghost var all := Called(memory, Walk(it, end));
        while it < end
          invariant calls + Called(memory, Walk(it, end)) == all
          decreases end - it
        {
          CalledStep(memory, it, end);
          AppendAssociates(calls, [Cell(memory, it)], Called(memory, Walk(it + CLEANUP_SIZE, end)));
          calls := calls + [Cell(memory, it)];
          it := it + CLEANUP_SIZE;
        }
      }
    }
  }

  lemma SmallPowers(align: nat)
    requires PowerOfTwo(align) && align <= 8
    ensures align == 1 || align == 2 || align == 4 || align == 8
  {
    assert align != 3 && align != 5 && align != 6 && align != 7;
  }

  lemma SmallPowerDivides(p: nat, align: nat)
    requires PowerOfTwo(align) && align <= 8 && p % 8 == 0
    ensures p % align == 0
  {
    SmallPowers(align);
    hide PowerOfTwo;
    var k := p / 8;
    assert p == 8 * k == 4 * (2 * k) == 2 * (4 * k);
    MultipleMod(if align == 8 then k else if align == 4 then 2 * k else if align == 2 then 4 * k else p, align);
  }
}
