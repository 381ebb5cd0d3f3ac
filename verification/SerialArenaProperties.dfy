/** What SerialArena promises over whole runs: disjoint aligned ranges, exact space accounting,
    and cleanups called in reverse order of registration. */
module SerialArenaProperties {
  import opened Sequences
  import opened SerialArenas

  // ----- geometry -----

  /** Everything that occupies memory in an arena. Node(i, k) is the k-th cleanup node
      registered in block i. */
  datatype Region = Header(i: nat) | Self | Object(i: nat, k: nat) | Node(i: nat, k: nat)

  ghost predicate IsRegion(s: Serial, r: Region) {
    |s.blocks| == |s.extents| > 0 &&
    match r
    case Header(i) => i < |s.blocks|
    case Self => true
    case Object(i, k) => i < |s.blocks| && k < |s.extents[i].objects|
    case Node(i, k) => i < |s.blocks| && CLEANUP_SIZE * (k + 1) <= Top(s, i) - Low(s, i)
  }

  ghost function BlockOf(r: Region): nat {
    if r.Self? then 0 else r.i
  }

  ghost function Span(s: Serial, r: Region): Range
    requires IsRegion(s, r)
  {
    match r
    case Header(i) => Range(s.blocks[i].addr, s.blocks[i].addr + BLOCK_HEADER_SIZE)
    case Self => Range(s.blocks[0].addr + BLOCK_HEADER_SIZE, s.blocks[0].addr + BLOCK_HEADER_SIZE + SERIAL_ARENA_SIZE)
    case Object(i, k) => s.extents[i].objects[k]
    case Node(i, k) => Range(Top(s, i) - CLEANUP_SIZE * (k + 1), Top(s, i) - CLEANUP_SIZE * k)
  }

  lemma {:induction false} TilesOrdered(rs: seq<Range>, lo: nat, hi: nat, j: nat, k: nat)
    requires Tiles(rs, lo, hi) && j <= k < |rs|
    ensures lo <= rs[j].lo && rs[k].hi <= hi && (j < k ==> rs[j].hi <= rs[k].lo)
    decreases k - j
  {
    if j < k {
      TilesOrdered(rs, lo, hi, j, k - 1);
      assert rs[k - 1].hi == rs[k].lo;
    }
    TilesFromLo(rs, lo, hi, j);
    TilesToHi(rs, lo, hi, k);
  }

  lemma {:induction false} TilesFromLo(rs: seq<Range>, lo: nat, hi: nat, j: nat)
    requires Tiles(rs, lo, hi) && j < |rs|
    ensures lo <= rs[j].lo
  {
    if j > 0 { TilesFromLo(rs, lo, hi, j - 1); assert rs[j - 1].hi == rs[j].lo; }
  }

  lemma {:induction false} TilesToHi(rs: seq<Range>, lo: nat, hi: nat, k: nat)
    requires Tiles(rs, lo, hi) && k < |rs|
    ensures rs[k].hi <= hi
    decreases |rs| - k
  {
    if k + 1 < |rs| { TilesToHi(rs, lo, hi, k + 1); assert rs[k].hi == rs[k + 1].lo; }
  }

  lemma {:induction false} RegionInBlock(s: Serial, r: Region)
    requires Inv(s) && IsRegion(s, r)
    ensures Within(Span(s, r), BlockRange(s.blocks[BlockOf(r)]))
    ensures r.Object? ==> Span(s, r).lo % 8 == 0 && Span(s, r).hi % 8 == 0
  {
    assert BlockInv(s, BlockOf(r));
    if r.Object? { TilesOrdered(s.extents[r.i].objects, Base(s, r.i), s.extents[r.i].used, r.k, r.k); }
  }

  lemma {:induction false} SameBlockDisjoint(s: Serial, a: Region, b: Region)
    requires Inv(s) && IsRegion(s, a) && IsRegion(s, b) && a != b && BlockOf(a) == BlockOf(b)
    ensures Disjoint(Span(s, a), Span(s, b))
  {
    hide Tiles;
    var i := BlockOf(a);
    assert BlockInv(s, i);
    var objects, base, used := s.extents[i].objects, Base(s, i), s.extents[i].used;
    if a.Object? { TilesOrdered(objects, base, used, a.k, a.k); }
    if b.Object? { TilesOrdered(objects, base, used, b.k, b.k); }
    if a.Object? && b.Object? {
      TilesOrdered(objects, base, used, if a.k < b.k then a.k else b.k, if a.k < b.k then b.k else a.k);
    }
  }

  /** Objects, cleanup nodes, block headers and the embedded SerialArena never overlap. */
  lemma {:induction false} RegionsDisjoint(s: Serial, a: Region, b: Region)
    requires Inv(s) && IsRegion(s, a) && IsRegion(s, b) && a != b
    ensures Disjoint(Span(s, a), Span(s, b))
  {
    if BlockOf(a) == BlockOf(b) {
      SameBlockDisjoint(s, a, b);
    } else {
      RegionInBlock(s, a);
      RegionInBlock(s, b);
      assert Disjoint(BlockRange(s.blocks[BlockOf(a)]), BlockRange(s.blocks[BlockOf(b)]));
    }
  }

  // ----- space accounting -----

  ghost function Bytes(rs: seq<Range>): int {
    if rs == [] then 0 else Bytes(rs[..|rs| - 1]) + (rs[|rs| - 1].hi - rs[|rs| - 1].lo)
  }

  ghost function BytesHandedOut(s: Serial, n: nat): int
    requires n <= |s.extents|
  {
    if n == 0 then 0 else BytesHandedOut(s, n - 1) + Bytes(s.extents[n - 1].objects)
  }

  lemma {:induction false} TilesBytes(rs: seq<Range>, lo: nat, hi: nat)
    requires Tiles(rs, lo, hi)
    ensures Bytes(rs) == hi - lo
  {
    if |rs| > 0 {
      var front := rs[..|rs| - 1];
      if |front| > 0 { assert rs[|front| - 1].hi == rs[|front|].lo; }
      TilesBytes(front, lo, rs[|rs| - 1].lo);
    }
  }

  lemma {:induction false} UsedIsBytes(s: Serial, n: nat)
    requires Inv(s) && 0 < n <= |s.blocks|
    ensures UsedSum(s, n) == BytesHandedOut(s, n) + SERIAL_ARENA_SIZE
  {
    assert BlockInv(s, n - 1);
    TilesBytes(s.extents[n - 1].objects, Base(s, n - 1), s.extents[n - 1].used);
    if n > 1 { UsedIsBytes(s, n - 1); }
  }

  /** SpaceUsed is the sum of the sizes handed out; SpaceAllocated the sum of the block sizes. */
  lemma {:induction false} SpaceUsedExact(s: Serial)
    requires Inv(s)
    ensures SpaceUsed(s) == BytesHandedOut(s, |s.blocks|) && s.spaceAllocated == SizeSum(s.blocks)
  {
    UsedIsBytes(s, |s.blocks|);
  }

  // ----- cleanup -----

  ghost function NodesIn(s: Serial, i: nat): seq<int>
    requires i < |s.blocks|
  {
    seq(if Low(s, i) <= Top(s, i) then (Top(s, i) - Low(s, i)) / CLEANUP_SIZE else 0,
        k => Top(s, i) - CLEANUP_SIZE * (k + 1))
  }

  /** The addresses of the cleanup nodes of the first n blocks, in order of registration. */
  ghost function Registered(s: Serial, n: nat): seq<int>
    requires n <= |s.blocks|
  {
    if n == 0 then [] else Registered(s, n - 1) + NodesIn(s, n - 1)
  }

  lemma {:induction false} RegisteredFrame(s: Serial, t: Serial, n: nat)
    requires n <= |s.blocks| && n <= |t.blocks|
    requires forall i :: 0 <= i < n ==> Low(t, i) == Low(s, i) && Top(t, i) == Top(s, i)
    ensures Registered(s, n) == Registered(t, n)
  {
    if n > 0 {
      RegisteredFrame(s, t, n - 1);
      assert NodesIn(s, n - 1) == NodesIn(t, n - 1);
    }
  }

  lemma HeadNodes(s: Serial, n: nat, nodes: nat)
    requires |s.blocks| == |s.extents| > 0 && nodes <= 1 && n + nodes * CLEANUP_SIZE <= s.limit - s.ptr
    requires var last := |s.blocks| - 1; s.limit <= Top(s, last) && (Top(s, last) - s.limit) % CLEANUP_SIZE == 0
    ensures var t, last := Bumped(s, n, nodes), |s.blocks| - 1;
      NodesIn(t, last) == NodesIn(s, last) + if nodes == 1 then [t.limit] else []
  {
    var last := |s.blocks| - 1;
    var t := Bumped(s, n, nodes);
    var c := (Top(s, last) - s.limit) / CLEANUP_SIZE;
    assert Top(s, last) - s.limit == CLEANUP_SIZE * c;
    assert |NodesIn(t, last)| == c + nodes;
  }

  /** A request without a node registers nothing, one with a node registers exactly the node it
      returns, which is the new `limit`. */
  lemma {:induction false} BumpedRegisters(s: Serial, n: nat, nodes: nat)
    requires Inv(s) && n % 8 == 0 && nodes <= 1 && n + nodes * CLEANUP_SIZE <= s.limit - s.ptr
    ensures var t := Bumped(s, n, nodes);
      Registered(t, |t.blocks|) == Registered(s, |s.blocks|) + if nodes == 1 then [t.limit] else []
  {
    var t, last := Bumped(s, n, nodes), |s.blocks| - 1;
    BumpedInv(s, n, nodes);
    InvHead(s);
    hide Inv;
    HeadNodes(s, n, nodes);
    BumpedFrame(s, n, nodes);
    hide Low, Top, Bumped, NodesIn;
    RegisteredFrame(s, t, last);
  }

  lemma InvHead(s: Serial)
    requires Inv(s)
    ensures var last := |s.blocks| - 1;
      last >= 0 && |s.extents| == |s.blocks| && s.limit <= Top(s, last) && (Top(s, last) - s.limit) % CLEANUP_SIZE == 0
  {
    assert BlockInv(s, |s.blocks| - 1);
  }

  lemma BumpedFrame(s: Serial, n: nat, nodes: nat)
    requires |s.blocks| == |s.extents| > 0 && n + nodes * CLEANUP_SIZE <= s.limit - s.ptr
    ensures var t := Bumped(s, n, nodes);
      && |t.blocks| == |s.blocks|
      && forall i :: 0 <= i < |s.blocks| - 1 ==> Low(t, i) == Low(s, i) && Top(t, i) == Top(s, i)
  {
  }

  lemma {:induction false} NewBlockRegisters(s: Serial, mem: Memory)
    requires Inv(s) && FreshBlock(s, mem) && BLOCK_HEADER_SIZE <= mem.size
    requires s.ptr >= s.blocks[|s.blocks| - 1].addr + BLOCK_HEADER_SIZE
    ensures var t := WithNewBlock(s, mem); Registered(t, |t.blocks|) == Registered(s, |s.blocks|)
  {
    var t := WithNewBlock(s, mem);
    WithNewBlockInv(s, mem);
    RegisteredFrame(s, t, |s.blocks|);
  }

  lemma {:induction false} RegisteredIsNode(s: Serial, n: nat, j: nat) returns (i: nat, k: nat)
    requires Inv(s) && n <= |s.blocks| && j < |Registered(s, n)|
    ensures i < n && IsRegion(s, Node(i, k)) && Registered(s, n)[j] == Span(s, Node(i, k)).lo
    ensures n > 0 && j >= |Registered(s, n - 1)| ==> i == n - 1 && k == j - |Registered(s, n - 1)|
    ensures n > 0 && j < |Registered(s, n - 1)| ==> i < n - 1
  {
    assert BlockInv(s, n - 1);
    if j < |Registered(s, n - 1)| {
      i, k := RegisteredIsNode(s, n - 1, j);
    } else {
      i, k := n - 1, j - |Registered(s, n - 1)|;
    }
  }

  /** No two registrations share a node. */
  lemma {:induction false} RegisteredDistinct(s: Serial, n: nat, j: nat, j': nat)
    requires Inv(s) && n <= |s.blocks| && j < j' < |Registered(s, n)|
    ensures Registered(s, n)[j] != Registered(s, n)[j']
  {
    if j' < |Registered(s, n - 1)| {
      RegisteredDistinct(s, n - 1, j, j');
    } else {
      var i, k := RegisteredIsNode(s, n, j);
      var i', k' := RegisteredIsNode(s, n, j');
      RegionsDisjoint(s, Node(i, k), Node(i', k'));
    }
  }

  /** A later block whose size is no multiple of 8 and that holds a single node: its rounded
      limit lies inside that node, the count comes out as zero, and the node is passed over. */
  ghost predicate Skipped(s: Serial, i: nat)
    requires i < |s.blocks|
  {
    i > 0 && s.blocks[i].size % 8 != 0 && Top(s, i) - Low(s, i) == CLEANUP_SIZE
  }

  ghost function Reverse<T>(s: seq<T>): seq<T> {
    seq(|s|, k requires 0 <= k < |s| => s[|s| - 1 - k])
  }

  lemma {:induction false} WalkAscends(top: int, r: int, c: nat)
    requires 0 <= r < 8
    ensures Walk(top - CLEANUP_SIZE * c, top - r) == seq(c, k => top - CLEANUP_SIZE * (c - k))
  {
    if c > 0 {
      WalkAscends(top, r, c - 1);
      var rest := seq(c - 1, k => top - CLEANUP_SIZE * (c - 1 - k));
      assert top - CLEANUP_SIZE * c + CLEANUP_SIZE == top - CLEANUP_SIZE * (c - 1);
      assert seq(c, k => top - CLEANUP_SIZE * (c - k)) == [top - CLEANUP_SIZE * c] + rest;
    }
  }

  /** One block, with c nodes below top, walked up to the rounded limit top - r. */
  lemma VisitNodes(b: Block, top: int, r: int, c: nat)
    requires 0 <= r < 8 && b.start == top - CLEANUP_SIZE * c && b.addr + (b.size - b.size % 8) == top - r
    ensures Visit(b) == if c == 1 && r > 0 then [] else seq(c, k => top - CLEANUP_SIZE * (c - k))
  {
    WalkAscends(top, r, c);
    hide Walk;
  }

  /** How many nodes block i holds, and where its walk starts and ends. */
  lemma BlockNodes(s: Serial, i: nat) returns (r: int, c: nat)
    requires i < |s.blocks| == |s.extents| && BlockInv(s, i)
    ensures var b, top := Synced(s)[i], Top(s, i);
      && 0 <= r < 8 && Low(s, i) <= top && b.start == Low(s, i) == top - CLEANUP_SIZE * c
      && b.addr + (b.size - b.size % 8) == top - r
      && (Skipped(s, i) <==> c == 1 && r > 0)
  {
    hide Tiles;
    r, c := if i == 0 then 0 else s.blocks[i].size % 8, (Top(s, i) - Low(s, i)) / CLEANUP_SIZE;
  }

  lemma NodesReversed(s: Serial, i: nat, c: nat)
    requires i < |s.blocks| && Low(s, i) == Top(s, i) - CLEANUP_SIZE * c
    ensures Reverse(NodesIn(s, i)) == seq(c, k => Top(s, i) - CLEANUP_SIZE * (c - k))
  {
    hide Low, Top;
  }

  lemma {:induction false} VisitBlock(s: Serial, i: nat)
    requires Inv(s) && i < |s.blocks|
    ensures Low(s, i) <= Top(s, i)
    ensures Visit(Synced(s)[i]) == if Skipped(s, i) then [] else Reverse(NodesIn(s, i))
  {
    assert BlockInv(s, i);
    var r, c := BlockNodes(s, i);
    hide Inv, Tiles, BlockInv, Visit, Synced, Top, Low, Skipped, NodesIn, Reverse;
    VisitNodes(Synced(s)[i], Top(s, i), r, c);
    NodesReversed(s, i, c);
  }

  lemma ReverseAppend<T>(a: seq<T>, b: seq<T>)
    ensures Reverse(a + b) == Reverse(b) + Reverse(a)
  {
  }

  ghost predicate NoneSkipped(s: Serial, n: nat)
    requires n <= |s.blocks|
  {
    n > 0 ==> NoneSkipped(s, n - 1) && !Skipped(s, n - 1)
  }

  lemma {:induction false} VisitsAll(s: Serial, n: nat)
    requires Inv(s) && n <= |s.blocks|
    ensures if NoneSkipped(s, n) then Visits(Synced(s), n) == Reverse(Registered(s, n))
      else |Visits(Synced(s), n)| < |Registered(s, n)|
  {
    if n > 0 {
      hide *;
      VisitsAll(s, n - 1);
      VisitBlock(s, n - 1);
      VisitsStep(s, n);
    }
  }

  lemma VisitsStep(s: Serial, n: nat)
    requires 0 < n <= |s.blocks|
    requires Visit(Synced(s)[n - 1]) == if Skipped(s, n - 1) then [] else Reverse(NodesIn(s, n - 1))
    requires if NoneSkipped(s, n - 1) then Visits(Synced(s), n - 1) == Reverse(Registered(s, n - 1))
      else |Visits(Synced(s), n - 1)| < |Registered(s, n - 1)|
    ensures if NoneSkipped(s, n) then Visits(Synced(s), n) == Reverse(Registered(s, n))
      else |Visits(Synced(s), n)| < |Registered(s, n)|
  {
    if Skipped(s, n - 1) { SkippedIsSingle(s, n - 1); }
    hide Visit, Skipped, NodesIn, Synced, Low, Top, Reverse;
    ReverseGlue(Skipped(s, n - 1), NoneSkipped(s, n - 1), Visit(Synced(s)[n - 1]), Visits(Synced(s), n - 1),
                Registered(s, n - 1), NodesIn(s, n - 1));
  }

  lemma ReverseGlue(skipped: bool, none: bool, visit: seq<int>, visits: seq<int>, before: seq<int>, nodes: seq<int>)
    requires if skipped then visit == [] && |nodes| == 1 else visit == Reverse(nodes)
    requires if none then visits == Reverse(before) else |visits| < |before|
    ensures if none && !skipped then visit + visits == Reverse(before + nodes) else |visit + visits| < |before + nodes|
  {
    ReverseAppend(before, nodes);
  }

  lemma SkippedIsSingle(s: Serial, i: nat)
    requires i < |s.blocks| && Skipped(s, i)
    ensures |NodesIn(s, i)| == 1
  {
  }

  lemma {:induction false} NoneSkippedAnywhere(s: Serial, n: nat)
    requires n <= |s.blocks|
    ensures NoneSkipped(s, n) <==> forall i :: 0 <= i < n ==> !Skipped(s, i)
  {
    if n > 0 { NoneSkippedAnywhere(s, n - 1); }
  }

  /** CleanupList visits every registered node exactly once, in reverse order of registration,
      if and only if no later block of a size that is no multiple of 8 holds a single node. */
  lemma {:induction false} CleanupExact(s: Serial)
    requires Inv(s)
    ensures Visits(Synced(s), |s.blocks|) == Reverse(Registered(s, |s.blocks|))
      <==> forall i :: 0 <= i < |s.blocks| ==> !Skipped(s, i)
  {
    VisitsAll(s, |s.blocks|);
    NoneSkippedAnywhere(s, |s.blocks|);
    assert |Reverse(Registered(s, |s.blocks|))| == |Registered(s, |s.blocks|)|;
  }

  // ----- whole runs -----

  datatype Request = Request(n: nat, nodes: nat, mem: Memory)

  ghost predicate Serves(s: Serial, policy: Policy, r: Request) {
    && Inv(s) && r.n % 8 == 0 && r.nodes <= 1
    && Ready(s, r.n, r.nodes, r.mem)
    && (!HasSpace(s, r.n + r.nodes * CLEANUP_SIZE) ==>
          FreshBlock(s, r.mem) && r.mem.size == BlockSize(policy, HeadSize(s), r.n + r.nodes * CLEANUP_SIZE))
  }

  ghost predicate Runs(s: Serial, policy: Policy, rs: seq<Request>, t: Serial)
    decreases |rs|
  {
    if rs == [] then s == t
    else Serves(s, policy, rs[0]) && Runs(Allocated(s, rs[0].n, rs[0].nodes, rs[0].mem), policy, rs[1..], t)
  }

  /** Ranges already handed out stay where they are. */
  ghost predicate Persists(s: Serial, t: Serial) {
    && |s.extents| <= |t.extents|
    && forall i :: 0 <= i < |s.extents| ==> s.extents[i].objects <= t.extents[i].objects
  }

  /** Over every run of requests the invariant holds, hence every range handed out is 8-aligned,
      inside a block and disjoint from everything else, and stays allocated. */
  lemma {:induction false} RunKeepsInv(s: Serial, policy: Policy, rs: seq<Request>, t: Serial)
    requires Inv(s) && Runs(s, policy, rs, t)
    ensures Inv(t) && Persists(s, t)
    decreases |rs|
  {
    if rs != [] {
      hide BlockInv;
      var u := Allocated(s, rs[0].n, rs[0].nodes, rs[0].mem);
      AllocatedInv(s, rs[0].n, rs[0].nodes, rs[0].mem);
      assert Persists(s, u);
      RunKeepsInv(u, policy, rs[1..], t);
    }
  }

  lemma AllocatedSizes(s: Serial, policy: Policy, r: Request)
    requires policy.startBlockSize % 8 == 0 && policy.maxBlockSize % 8 == 0
    requires Serves(s, policy, r) && forall i :: 0 <= i < |s.blocks| ==> s.blocks[i].size % 8 == 0
    ensures var u := Allocated(s, r.n, r.nodes, r.mem); forall i :: 0 <= i < |u.blocks| ==> u.blocks[i].size % 8 == 0
  {
    hide Inv, FreshBlock;
    assert (2 * HeadSize(s)) % 8 == 0;
  }

  lemma {:induction false} AllocatedRegisters(s: Serial, policy: Policy, r: Request)
    requires Serves(s, policy, r)
    ensures var t := Allocated(s, r.n, r.nodes, r.mem);
      Registered(t, |t.blocks|) == Registered(s, |s.blocks|) + if r.nodes == 1 then [t.limit] else []
  {
    if HasSpace(s, r.n + r.nodes * CLEANUP_SIZE) {
      BumpedRegisters(s, r.n, r.nodes);
    } else {
      NewBlockRegisters(s, r.mem);
      WithNewBlockInv(s, r.mem);
      BumpedRegisters(WithNewBlock(s, r.mem), r.n, r.nodes);
    }
  }

  /** The cleanup nodes a run returns to its callers, in order. */
  ghost function Returned(s: Serial, policy: Policy, rs: seq<Request>, t: Serial): seq<int>
    requires Runs(s, policy, rs, t)
    decreases |rs|
  {
    if rs == [] then []
    else
      var u := Allocated(s, rs[0].n, rs[0].nodes, rs[0].mem);
      (if rs[0].nodes == 1 then [u.limit] else []) + Returned(u, policy, rs[1..], t)
  }

  lemma ReturnedUnfold(s: Serial, policy: Policy, rs: seq<Request>, t: Serial)
    requires rs != [] && Runs(s, policy, rs, t)
    ensures var u := Allocated(s, rs[0].n, rs[0].nodes, rs[0].mem);
      Runs(u, policy, rs[1..], t)
      && Returned(s, policy, rs, t) == (if rs[0].nodes == 1 then [u.limit] else []) + Returned(u, policy, rs[1..], t)
  {
    hide Serves, Allocated;
  }

  lemma {:induction false} RunRegisters(s: Serial, policy: Policy, rs: seq<Request>, t: Serial)
    requires Inv(s) && Runs(s, policy, rs, t)
    ensures Registered(t, |t.blocks|) == Registered(s, |s.blocks|) + Returned(s, policy, rs, t)
    decreases |rs|
  {
    if rs != [] {
      var u := Allocated(s, rs[0].n, rs[0].nodes, rs[0].mem);
      AllocatedInv(s, rs[0].n, rs[0].nodes, rs[0].mem);
      AllocatedRegisters(s, policy, rs[0]);
      RunRegisters(u, policy, rs[1..], t);
      hide *;
      ReturnedUnfold(s, policy, rs, t);
      AppendAssociates(Registered(s, |s.blocks|), if rs[0].nodes == 1 then [u.limit] else [],
                       Returned(u, policy, rs[1..], t));
    }
  }

  /** Over every run on a new arena: the cleanup list calls the returned nodes exactly once each,
      last returned first, if and only if no block of the run is skipped. */
  lemma {:induction false} RunCleansUpExactly(mem: Memory, policy: Policy, rs: seq<Request>, t: Serial)
    requires mem.addr % 8 == 0 && BLOCK_HEADER_SIZE + SERIAL_ARENA_SIZE <= mem.size
    requires Runs(NewSerial(mem), policy, rs, t)
    ensures t.blocks != []
    ensures Visits(Synced(t), |t.blocks|) == Reverse(Returned(NewSerial(mem), policy, rs, t))
      <==> forall i :: 0 <= i < |t.blocks| ==> !Skipped(t, i)
  {
    hide *;
    var s := NewSerial(mem);
    NewSerialInv(mem);
    RunKeepsInv(s, policy, rs, t);
    RunRegisters(s, policy, rs, t);
    NewRegistersNothing(mem);
    assert Registered(t, |t.blocks|) == Returned(s, policy, rs, t);
    InvHead(t);
    CleanupExact(t);
  }

  lemma NewRegistersNothing(mem: Memory)
    requires BLOCK_HEADER_SIZE + SERIAL_ARENA_SIZE <= mem.size
    ensures var s := NewSerial(mem); |s.blocks| == 1 && Registered(s, |s.blocks|) == []
  {
    var s := NewSerial(mem);
    assert NodesIn(s, 0) == [];
    assert Registered(s, 0) == [];
  }

  /** When the sizes of the policy are multiples of 8, so is every block size of a run that
      started in a block of such a size, and the cleanup list is exact. */
  lemma {:induction false} AlignedPolicyCleansUp(s: Serial, policy: Policy, rs: seq<Request>, t: Serial)
    requires policy.startBlockSize % 8 == 0 && policy.maxBlockSize % 8 == 0
    requires Inv(s) && Runs(s, policy, rs, t)
    requires forall i :: 0 <= i < |s.blocks| ==> s.blocks[i].size % 8 == 0
    ensures Inv(t) && Visits(Synced(t), |t.blocks|) == Reverse(Registered(t, |t.blocks|))
    decreases |rs|
  {
    if rs == [] {
      CleanupExact(s);
    } else {
      AllocatedInv(s, rs[0].n, rs[0].nodes, rs[0].mem);
      AllocatedSizes(s, policy, rs[0]);
      hide Inv, Allocated, Visits, Synced, Registered;
      AlignedPolicyCleansUp(Allocated(s, rs[0].n, rs[0].nodes, rs[0].mem), policy, rs[1..], t);
    }
  }

  /** The exception is reachable: with a policy of odd block sizes, the first cleanup registered
      on an arena whose first block is full sits alone in a 41-byte block. */
  lemma {:induction false} OddPolicySkips()
    ensures var s, r := NewSerial(Memory(0, 80)), Request(0, 1, Memory(1000, 41));
      Serves(s, Policy(80, 41), r) && Skipped(Allocated(s, r.n, r.nodes, r.mem), 1)
  {
    var s, mem := NewSerial(Memory(0, 80)), Memory(1000, 41);
    NewSerialInv(Memory(0, 80));
    hide Inv;
    var t := WithNewBlock(s, mem);
    assert Allocated(s, 0, 1, mem) == Bumped(t, 0, 1);
    assert |t.blocks| == 2 && t.blocks[1] == Block(1000, 41, 0) && t.limit == 1041;
    assert Bumped(t, 0, 1).limit == 1025 && Bumped(t, 0, 1).blocks == t.blocks;
  }
}
