/** The blocks of a ThreadSafeArena, in its list and in its SerialArena objects, and the policy kept
    in the first of them. */
module ArenaBlocks {
  import opened SerialArenas
  import opened SerialArenaProperties
  import opened ArenaRelease
  import opened ThreadSafeArenas

  function MemoryRange(mem: Memory): Range { Range(mem.addr, mem.addr + mem.size) }

  /** The blocks of a SerialArena are those of its chain, which lists the newest first. */
  ghost predicate SameBlocks(bs: seq<Block>, chain: Chain) {
    && |bs| == |chain|
    && forall i :: 0 <= i < |bs| ==>
      bs[i].addr == chain[|chain| - 1 - i].addr && bs[i].size == chain[|chain| - 1 - i].size
  }

  /** Blocks of different SerialArenas do not overlap. */
  ghost predicate Apart(lists: seq<Chain>) {
    forall j, k :: 0 <= j < k < |lists| ==> ChainsApart(lists[j], lists[k])
  }

  ghost predicate ChainsApart(a: Chain, b: Chain) {
    forall m, m' :: m in a && m' in b ==> Disjoint(MemoryRange(m), MemoryRange(m'))
  }

  /** What the system hands out overlaps no block the arena holds. */
  ghost predicate FreshFor(lists: seq<Chain>, mem: Memory) {
    forall k :: 0 <= k < |lists| ==> ChainsApart([mem], lists[k])
  }

  function PolicyRange(at: Addr): Range { Range(at, at + POLICY_SIZE) }

  /** The policy is the first object handed out in the first block. */
  ghost predicate HoldsPolicy(s: Serial, at: Addr) {
    s.extents != [] && s.extents[0].objects != [] && s.extents[0].objects[0] == PolicyRange(at)
  }

  /** The SerialArenas of an arena, its list, and the address of its policy belong together. */
  ghost predicate Tied(views: seq<Serial>, lists: seq<Chain>, policyAt: Addr) {
    && |views| == |lists| && Apart(lists)
    && (forall k :: 0 <= k < |views| ==> Inv(views[k]) && SameBlocks(views[k].blocks, lists[k]))
    && (policyAt != NO_POLICY ==> views != [] && HoldsPolicy(views[|views| - 1], policyAt))
  }

  lemma ChainsApartSymmetric(a: Chain, b: Chain)
    requires ChainsApart(a, b)
    ensures ChainsApart(b, a)
  {
  }

  lemma ChainsApartGrow(mem: Memory, a: Chain, b: Chain)
    requires ChainsApart([mem], b) && ChainsApart(a, b)
    ensures ChainsApart([mem] + a, b)
  {
    assert mem in [mem];
    assert forall m :: m in [mem] + a <==> m == mem || m in a;
  }

  lemma BlockInChain(bs: seq<Block>, chain: Chain, i: nat)
    requires SameBlocks(bs, chain) && i < |bs|
    ensures exists m :: m in chain && MemoryRange(m) == BlockRange(bs[i])
  {
    var m := chain[|chain| - 1 - i];
    assert m in chain;
  }

  /** Nothing in one SerialArena overlaps anything in another one. */
  lemma {:induction false} RegionsOfTwoDisjoint(views: seq<Serial>, lists: seq<Chain>, policyAt: Addr,
                                               j: nat, a: Region, k: nat, b: Region)
    requires Tied(views, lists, policyAt) && j < |views| && k < |views| && j != k
    requires IsRegion(views[j], a) && IsRegion(views[k], b)
    ensures Disjoint(Span(views[j], a), Span(views[k], b))
  {
    RegionInBlock(views[j], a);
    RegionInBlock(views[k], b);
    BlockInChain(views[j].blocks, lists[j], BlockOf(a));
    BlockInChain(views[k].blocks, lists[k], BlockOf(b));
    if j < k { assert ChainsApart(lists[j], lists[k]); } else { assert ChainsApart(lists[k], lists[j]); }
    hide Inv, IsRegion, Span, SameBlocks;
  }

  /** No object, cleanup node or header of any SerialArena overlaps the policy. */
  lemma {:induction false} PolicyIsApart(views: seq<Serial>, lists: seq<Chain>, policyAt: Addr, k: nat, r: Region)
    requires Tied(views, lists, policyAt) && policyAt != NO_POLICY && k < |views| && IsRegion(views[k], r)
    requires !(k == |views| - 1 && r == Object(0, 0))
    ensures Disjoint(Span(views[k], r), PolicyRange(policyAt))
  {
    var last := |views| - 1;
    assert Inv(views[last]) && IsRegion(views[last], Object(0, 0));
    assert Span(views[last], Object(0, 0)) == PolicyRange(policyAt);
    hide Inv, IsRegion, Span, Apart, SameBlocks;
    if k == last {
      RegionsDisjoint(views[k], r, Object(0, 0));
    } else {
      RegionsOfTwoDisjoint(views, lists, policyAt, k, r, last, Object(0, 0));
    }
  }

  // ----- what the steps keep -----

  lemma TiedFirst(mem: Memory)
    requires mem.addr % 8 == 0 && BLOCK_HEADER_SIZE + SERIAL_ARENA_SIZE <= mem.size
    ensures Tied([NewSerial(mem)], [[mem]], NO_POLICY)
  {
    NewSerialInv(mem);
  }

  /** The policy is the first thing allocated in the first block of an arena. */
  lemma TiedWithPolicy(mem: Memory)
    requires mem.addr % 8 == 0 && MINIMUM_SIZE <= mem.size
    ensures HasSpaceSafe(NewSerial(mem), POLICY_SIZE)
    ensures Tied([Bumped(NewSerial(mem), POLICY_SIZE, 0)], [[mem]], PolicyIn(mem))
  {
    NewSerialInv(mem);
    PolicyFits(mem);
    BumpedInv(NewSerial(mem), POLICY_SIZE, 0);
  }

  lemma TiedPushed(views: seq<Serial>, lists: seq<Chain>, policyAt: Addr, mem: Memory)
    requires Tied(views, lists, policyAt) && FreshFor(lists, mem)
    requires mem.addr % 8 == 0 && BLOCK_HEADER_SIZE + SERIAL_ARENA_SIZE <= mem.size
    ensures Tied([NewSerial(mem)] + views, [[mem]] + lists, policyAt)
  {
    hide Inv, HoldsPolicy, ChainsApart, NewSerial, SameBlocks;
    NewSerialInv(mem);
    var views', lists' := [NewSerial(mem)] + views, [[mem]] + lists;
    assert forall k :: 0 < k < |views'| ==> views'[k] == views[k - 1] && lists'[k] == lists[k - 1];
    NewSameBlocks(mem);
  }

  lemma NewSameBlocks(mem: Memory)
    requires BLOCK_HEADER_SIZE + SERIAL_ARENA_SIZE <= mem.size
    ensures SameBlocks(NewSerial(mem).blocks, [mem])
  {
  }

  /** The list after a request of SerialArena k was served. */
  function ListsAfter(lists: seq<Chain>, k: nat, grown: bool, mem: Memory): seq<Chain>
    requires k < |lists|
  {
    if grown then lists[k := [mem] + lists[k]] else lists
  }

  lemma GrownApart(lists: seq<Chain>, k: nat, mem: Memory)
    requires Apart(lists) && FreshFor(lists, mem) && k < |lists|
    ensures Apart(lists[k := [mem] + lists[k]])
  {
    var lists' := lists[k := [mem] + lists[k]];
    hide ChainsApart;
    forall i, j | 0 <= i < j < |lists'| ensures ChainsApart(lists'[i], lists'[j]) {
      if i == k {
        ChainsApartGrow(mem, lists[k], lists[j]);
      } else if j == k {
        ChainsApartSymmetric(lists[i], lists[k]);
        ChainsApartGrow(mem, lists[k], lists[i]);
        ChainsApartSymmetric([mem] + lists[k], lists[i]);
      }
    }
  }

  lemma ServedBlocks(s: Serial, n: nat, nodes: nat, mem: Memory, chain: Chain)
    requires Ready(s, n, nodes, mem) && SameBlocks(s.blocks, chain)
    ensures var grown := !HasSpace(s, n + nodes * CLEANUP_SIZE);
      SameBlocks(Allocated(s, n, nodes, mem).blocks, if grown then [mem] + chain else chain)
  {
  }

  lemma ServedHolds(s: Serial, n: nat, nodes: nat, mem: Memory, at: Addr)
    requires Ready(s, n, nodes, mem) && HoldsPolicy(s, at) && |s.blocks| == |s.extents|
    ensures HoldsPolicy(Allocated(s, n, nodes, mem), at)
  {
  }

  lemma {:induction false} TiedServed(views: seq<Serial>, lists: seq<Chain>, policyAt: Addr,
                                      k: nat, n: nat, nodes: nat, mem: Memory)
    requires Tied(views, lists, policyAt) && k < |views| && n % 8 == 0 && Ready(views[k], n, nodes, mem)
    requires !HasSpace(views[k], n + nodes * CLEANUP_SIZE) ==> FreshBlock(views[k], mem) && FreshFor(lists, mem)
    ensures var grown := !HasSpace(views[k], n + nodes * CLEANUP_SIZE);
      Tied(views[k := Allocated(views[k], n, nodes, mem)], ListsAfter(lists, k, grown, mem), policyAt)
  {
    AllocatedInv(views[k], n, nodes, mem);
    ServedBlocks(views[k], n, nodes, mem, lists[k]);
    if policyAt != NO_POLICY && k == |views| - 1 {
      assert |views[k].blocks| == |views[k].extents|;
      ServedHolds(views[k], n, nodes, mem, policyAt);
    }
    if !HasSpace(views[k], n + nodes * CLEANUP_SIZE) { GrownApart(lists, k, mem); }
    hide Inv, Allocated, Ready, SameBlocks, HoldsPolicy, Apart, FreshFor, FreshBlock, HasSpace;
  }

  /** What a later request is given does not overlap the policy. */
  lemma {:induction false} ServedIsApart(views: seq<Serial>, lists: seq<Chain>, policyAt: Addr,
                                         k: nat, n: nat, nodes: nat, mem: Memory)
    requires Tied(views, lists, policyAt) && policyAt != NO_POLICY
    requires k < |views| && n % 8 == 0 && Ready(views[k], n, nodes, mem)
    requires !HasSpace(views[k], n + nodes * CLEANUP_SIZE) ==> FreshBlock(views[k], mem) && FreshFor(lists, mem)
    ensures var t := Allocated(views[k], n, nodes, mem);
      t.ptr >= n && Disjoint(Range(t.ptr - n, t.ptr), PolicyRange(policyAt))
  {
    var t := Allocated(views[k], n, nodes, mem);
    var grown := !HasSpace(views[k], n + nodes * CLEANUP_SIZE);
    TiedServed(views, lists, policyAt, k, n, nodes, mem);
    AllocatedInv(views[k], n, nodes, mem);
    var last := |t.extents| - 1;
    var r := Object(last, |t.extents[last].objects| - 1);
    if k == |views| - 1 {
      assert HoldsPolicy(views[k], policyAt);
      FirstStays(views[k], n, nodes, mem);
    }
    assert IsRegion(t, r) && Span(t, r) == Range(t.ptr - n, t.ptr);
    hide Inv, Allocated, Ready, Tied, Span, IsRegion;
    PolicyIsApart(views[k := t], ListsAfter(lists, k, grown, mem), policyAt, k, r);
  }

  lemma FirstStays(s: Serial, n: nat, nodes: nat, mem: Memory)
    requires Ready(s, n, nodes, mem) && s.extents[0].objects != []
    ensures var t := Allocated(s, n, nodes, mem);
      t.extents != [] && (|t.extents| > 1 || |t.extents[0].objects| > 1)
  {
  }

  /** A cleanup pass changes no address, no size and no object. */
  lemma TiedCleaned(views: seq<Serial>, views': seq<Serial>, lists: seq<Chain>, policyAt: Addr)
    requires Tied(views, lists, policyAt) && |views'| == |views|
    requires forall k :: 0 <= k < |views| ==>
      Inv(views'[k]) && views[k].blocks != [] && views'[k] == views[k].(blocks := Synced(views[k]))
    ensures Tied(views', lists, policyAt)
  {
    hide Inv;
  }
}
