/** SerialArena: a bump allocator over a chain of blocks. Objects grow up from `ptr`, cleanup
    nodes grow down from `limit`. Addresses are numbers; sizes are those of a 64-bit build. */
module SerialArenas {
  const BLOCK_HEADER_SIZE := 24
  const CLEANUP_SIZE := 16
  const SERIAL_ARENA_SIZE := 56
  const MAX_REQUEST := 0xFFFF_FFFF_FFFF_FFFF

  datatype Memory = Memory(addr: nat, size: nat)
  datatype Policy = Policy(startBlockSize: nat, maxBlockSize: nat)
  const DEFAULT_POLICY := Policy(256, 8192)

  /** `next` of blocks[i] is blocks[i - 1]; the head of the chain is the last block. */
  datatype Block = Block(addr: nat, size: nat, start: nat)
  datatype CleanupNode = CleanupNode(elem: nat, cleanup: nat)

  /** Half-open address interval. */
  datatype Range = Range(lo: nat, hi: nat)

  predicate Disjoint(a: Range, b: Range) {
    a.hi <= b.lo || b.hi <= a.lo
  }

  predicate Within(a: Range, b: Range) {
    b.lo <= a.lo <= a.hi <= b.hi
  }

  function Min(a: nat, b: nat): nat { if a < b then a else b }
  function Max(a: nat, b: nat): nat { if a < b then b else a }

  /** The size AllocateMemory asks the system for. */
  function BlockSize(policy: Policy, lastSize: nat, minBytes: nat): (size: nat)
    ensures size >= BLOCK_HEADER_SIZE + minBytes
  {
    var size := if lastSize != 0 then Min(2 * lastSize, policy.maxBlockSize) else policy.startBlockSize;
    Max(size, BLOCK_HEADER_SIZE + minBytes)
  }

  // ----- the state, with the history of what was handed out -----

  /** What was allocated in one block: the object ranges in order, and where they end. */
  datatype Extent = Extent(objects: seq<Range>, used: nat)

  datatype Serial = Serial(blocks: seq<Block>, ptr: nat, limit: nat, spaceUsed: nat, spaceAllocated: nat,
                           extents: seq<Extent>)

  function BlockRange(b: Block): Range { Range(b.addr, b.addr + b.size) }

  /** Where objects may start: the first block also holds the SerialArena itself. */
  function Base(s: Serial, i: nat): nat
    requires i < |s.blocks|
  {
    s.blocks[i].addr + BLOCK_HEADER_SIZE + (if i == 0 then SERIAL_ARENA_SIZE else 0)
  }

  /** Where cleanup nodes start to grow down from. Only the constructor rounds it to 8. */
  function Top(s: Serial, i: nat): nat
    requires i < |s.blocks|
  {
    s.blocks[i].addr + (if i == 0 then s.blocks[i].size - s.blocks[i].size % 8 else s.blocks[i].size)
  }

  /** Where the cleanup nodes of a block end: in the head block this is still `limit`. */
  function Low(s: Serial, i: nat): nat
    requires i < |s.blocks|
  {
    if i == |s.blocks| - 1 then s.limit else s.blocks[i].start
  }

  /** The ranges follow one another from lo to hi without a gap, each 8-aligned. */
  ghost predicate Tiles(rs: seq<Range>, lo: nat, hi: nat) {
    && (forall k :: 0 <= k < |rs| ==> rs[k].lo <= rs[k].hi && rs[k].lo % 8 == 0 && rs[k].hi % 8 == 0)
    && (|rs| > 0 ==> rs[0].lo == lo)
    && (forall k, j :: 0 <= k < |rs| && j == k + 1 < |rs| ==> rs[k].hi == rs[j].lo)
    && hi == if |rs| == 0 then lo else rs[|rs| - 1].hi
  }

  function SizeSum(bs: seq<Block>): nat {
    if bs == [] then 0 else SizeSum(bs[..|bs| - 1]) + bs[|bs| - 1].size
  }

  ghost predicate BlockInv(s: Serial, i: nat)
    requires i < |s.blocks| == |s.extents|
  {
    && s.blocks[i].addr % 8 == 0
    && Base(s, i) <= s.extents[i].used <= Low(s, i) <= Top(s, i)
    && (Top(s, i) - Low(s, i)) % CLEANUP_SIZE == 0
    && Tiles(s.extents[i].objects, Base(s, i), s.extents[i].used)
  }

  /** Bytes between the header and the end of the objects, summed over the first n blocks. */
  ghost function UsedSum(s: Serial, n: nat): int
    requires n <= |s.blocks| == |s.extents|
  {
    if n == 0 then 0 else UsedSum(s, n - 1) + (s.extents[n - 1].used - s.blocks[n - 1].addr - BLOCK_HEADER_SIZE)
  }

  ghost predicate Inv(s: Serial) {
    && |s.blocks| == |s.extents| > 0
    && (forall i :: 0 <= i < |s.blocks| ==> BlockInv(s, i))
    && (forall i, j :: 0 <= i < j < |s.blocks| ==> Disjoint(BlockRange(s.blocks[i]), BlockRange(s.blocks[j])))
    && s.extents[|s.blocks| - 1].used == s.ptr
    && s.spaceUsed == UsedSum(s, |s.blocks| - 1)
    && s.spaceAllocated == SizeSum(s.blocks)
  }

  // ----- steps -----

  function NewSerial(mem: Memory): Serial
    requires BLOCK_HEADER_SIZE + SERIAL_ARENA_SIZE <= mem.size
  {
    var ptr := mem.addr + BLOCK_HEADER_SIZE + SERIAL_ARENA_SIZE;
    Serial([Block(mem.addr, mem.size, 0)], ptr, mem.addr + (mem.size - mem.size % 8), 0, mem.size, [Extent([], ptr)])
  }

  predicate HasSpace(s: Serial, n: nat)
    requires s.ptr <= s.limit
  {
    n <= s.limit - s.ptr
  }

  function HeadSize(s: Serial): nat
    requires s.blocks != []
  {
    s.blocks[|s.blocks| - 1].size
  }

  /** The block the system returns: aligned, and apart from every block the arena holds. */
  ghost predicate FreshBlock(s: Serial, mem: Memory) {
    && mem.addr % 8 == 0
    && forall i :: 0 <= i < |s.blocks| ==> Disjoint(BlockRange(s.blocks[i]), Range(mem.addr, mem.addr + mem.size))
  }

  function WithNewBlock(s: Serial, mem: Memory): Serial
    requires s.blocks != [] && s.ptr >= s.blocks[|s.blocks| - 1].addr + BLOCK_HEADER_SIZE
    requires BLOCK_HEADER_SIZE <= mem.size
  {
    var last := |s.blocks| - 1;
    var ptr := mem.addr + BLOCK_HEADER_SIZE;
    Serial(s.blocks[last := s.blocks[last].(start := s.limit)] + [Block(mem.addr, mem.size, 0)],
           ptr, mem.addr + mem.size,
           s.spaceUsed + (s.ptr - (s.blocks[last].addr + BLOCK_HEADER_SIZE)),
           s.spaceAllocated + mem.size,
           s.extents + [Extent([], ptr)])
  }

  /** Bumps ptr by n and records the object; `nodes` cleanup nodes are taken off the top. */
  function Bumped(s: Serial, n: nat, nodes: nat): Serial
    requires s.extents != [] && n + nodes * CLEANUP_SIZE <= s.limit - s.ptr
  {
    var last := |s.extents| - 1;
    var e := s.extents[last];
    s.(ptr := s.ptr + n, limit := s.limit - nodes * CLEANUP_SIZE,
       extents := s.extents[last := Extent(e.objects + [Range(s.ptr, s.ptr + n)], s.ptr + n)])
  }

  /** One request: n bytes, with or without a cleanup node. `mem` is used if a block is needed. */
  function Allocated(s: Serial, n: nat, nodes: nat, mem: Memory): Serial
    requires Ready(s, n, nodes, mem)
  {
    if HasSpace(s, n + nodes * CLEANUP_SIZE) then Bumped(s, n, nodes) else Bumped(WithNewBlock(s, mem), n, nodes)
  }

  predicate Ready(s: Serial, n: nat, nodes: nat, mem: Memory) {
    && s.blocks != [] && s.extents != [] && s.ptr <= s.limit
    && s.ptr >= s.blocks[|s.blocks| - 1].addr + BLOCK_HEADER_SIZE
    && (!HasSpace(s, n + nodes * CLEANUP_SIZE) ==> mem.size >= BLOCK_HEADER_SIZE + n + nodes * CLEANUP_SIZE)
  }

  lemma InvReady(s: Serial, n: nat, nodes: nat, mem: Memory)
    requires Inv(s)
    requires !HasSpaceSafe(s, n + nodes * CLEANUP_SIZE) ==> mem.size >= BLOCK_HEADER_SIZE + n + nodes * CLEANUP_SIZE
    ensures Ready(s, n, nodes, mem)
  {
    assert BlockInv(s, |s.blocks| - 1);
  }

  ghost predicate HasSpaceSafe(s: Serial, n: nat) {
    s.ptr <= s.limit && HasSpace(s, n)
  }

  // ----- what the remaining operations compute -----

  function SpaceUsed(s: Serial): int
    requires s.blocks != []
  {
    (s.ptr - (s.blocks[|s.blocks| - 1].addr + BLOCK_HEADER_SIZE)) + s.spaceUsed - SERIAL_ARENA_SIZE
  }

  /** The addresses the inner loop of CleanupList visits. */
  function Walk(it: int, limit: int): seq<int>
    decreases limit - it
  {
    if it < limit then [it] + Walk(it + CLEANUP_SIZE, limit) else []
  }

  /** One block of CleanupList: the limit is rounded down to 8 for every block, and the node
      count is the floor of the byte difference over the node size. */
  function Visit(b: Block): seq<int> {
    var limit := b.addr + (b.size - b.size % 8);
    var num := (limit - b.start) / CLEANUP_SIZE;
    if num > 0 then Walk(b.start, limit) else []
  }

  /** The first n blocks, newest first. */
  function Visits(bs: seq<Block>, n: nat): seq<int>
    requires n <= |bs|
  {
    if n == 0 then [] else Visit(bs[n - 1]) + Visits(bs, n - 1)
  }

  /** CleanupList first syncs `start` of the head block. */
  function Synced(s: Serial): seq<Block>
    requires s.blocks != []
  {
    s.blocks[|s.blocks| - 1 := s.blocks[|s.blocks| - 1].(start := s.limit)]
  }

  // ----- every step keeps the invariant -----

  lemma {:induction false} NewSerialInv(mem: Memory)
    requires mem.addr % 8 == 0 && BLOCK_HEADER_SIZE + SERIAL_ARENA_SIZE <= mem.size
    ensures Inv(NewSerial(mem))
  {
    var s := NewSerial(mem);
    assert SizeSum(s.blocks[..0]) == 0;
    assert BlockInv(s, 0);
  }

  lemma UsedSumFrame(s: Serial, t: Serial, n: nat)
    requires n <= |s.blocks| == |s.extents| && n <= |t.blocks| == |t.extents|
    requires forall i :: 0 <= i < n ==> s.extents[i] == t.extents[i] && s.blocks[i].addr == t.blocks[i].addr
    ensures UsedSum(s, n) == UsedSum(t, n)
  {
  }

  lemma SizeSumFrame(a: seq<Block>, b: seq<Block>)
    requires |a| == |b| && forall i :: 0 <= i < |a| ==> a[i].size == b[i].size
    ensures SizeSum(a) == SizeSum(b)
  {
  }

  lemma TilesAligned(rs: seq<Range>, lo: nat, hi: nat)
    requires Tiles(rs, lo, hi) && lo % 8 == 0
    ensures hi % 8 == 0
  {
  }

  lemma TilesAppend(rs: seq<Range>, lo: nat, mid: nat, n: nat)
    requires Tiles(rs, lo, mid) && mid % 8 == 0 && n % 8 == 0
    ensures Tiles(rs + [Range(mid, mid + n)], lo, mid + n)
  {
    var rs' := rs + [Range(mid, mid + n)];
    assert (mid + n) % 8 == 0;
    assert forall k :: 0 <= k < |rs| ==> rs'[k] == rs[k];
    assert rs'[|rs|] == Range(mid, mid + n);
  }

  lemma BumpedHead(s: Serial, n: nat, nodes: nat)
    requires |s.blocks| == |s.extents| > 0 && BlockInv(s, |s.blocks| - 1) && s.extents[|s.blocks| - 1].used == s.ptr
    requires n % 8 == 0 && n + nodes * CLEANUP_SIZE <= s.limit - s.ptr
    ensures BlockInv(Bumped(s, n, nodes), |s.blocks| - 1)
  {
    var last := |s.blocks| - 1;
    assert Base(s, last) % 8 == 0;
    TilesAligned(s.extents[last].objects, Base(s, last), s.ptr);
    TilesAppend(s.extents[last].objects, Base(s, last), s.ptr, n);
  }

  lemma BumpedInv(s: Serial, n: nat, nodes: nat)
    requires Inv(s) && n % 8 == 0 && n + nodes * CLEANUP_SIZE <= s.limit - s.ptr
    ensures Inv(Bumped(s, n, nodes))
  {
    hide Tiles;
    var last := |s.blocks| - 1;
    var t := Bumped(s, n, nodes);
    BumpedHead(s, n, nodes);
    forall i | 0 <= i < |t.blocks| ensures BlockInv(t, i) {
      if i < last { assert BlockInv(s, i); }
    }
    UsedSumFrame(s, t, last);
  }

  lemma NewBlockKeepsBlock(s: Serial, mem: Memory, i: nat)
    requires |s.blocks| == |s.extents| > i && BlockInv(s, i) && BLOCK_HEADER_SIZE <= mem.size
    requires s.ptr >= s.blocks[|s.blocks| - 1].addr + BLOCK_HEADER_SIZE
    ensures BlockInv(WithNewBlock(s, mem), i)
  {
    hide Tiles;
  }

  lemma NewBlockInv(s: Serial, mem: Memory)
    requires |s.blocks| == |s.extents| > 0 && mem.addr % 8 == 0 && BLOCK_HEADER_SIZE <= mem.size
    requires s.ptr >= s.blocks[|s.blocks| - 1].addr + BLOCK_HEADER_SIZE
    ensures BlockInv(WithNewBlock(s, mem), |s.blocks|)
  {
  }

  lemma NewBlockSums(s: Serial, mem: Memory)
    requires |s.blocks| == |s.extents| > 0 && BLOCK_HEADER_SIZE <= mem.size
    requires s.ptr >= s.blocks[|s.blocks| - 1].addr + BLOCK_HEADER_SIZE && s.extents[|s.blocks| - 1].used == s.ptr
    ensures UsedSum(WithNewBlock(s, mem), |s.blocks|)
      == UsedSum(s, |s.blocks| - 1) + (s.ptr - s.blocks[|s.blocks| - 1].addr - BLOCK_HEADER_SIZE)
    ensures SizeSum(WithNewBlock(s, mem).blocks) == SizeSum(s.blocks) + mem.size
  {
    var last, t := |s.blocks| - 1, WithNewBlock(s, mem);
    UsedSumFrame(s, t, last);
    SizeSumFrame(t.blocks[..last + 1], s.blocks);
  }

  lemma {:induction false} WithNewBlockInv(s: Serial, mem: Memory)
    requires Inv(s) && FreshBlock(s, mem) && BLOCK_HEADER_SIZE <= mem.size
    requires s.ptr >= s.blocks[|s.blocks| - 1].addr + BLOCK_HEADER_SIZE
    ensures Inv(WithNewBlock(s, mem))
  {
    hide BlockInv;
    var t := WithNewBlock(s, mem);
    forall i | 0 <= i < |t.blocks| ensures BlockInv(t, i) {
      if i < |s.blocks| { NewBlockKeepsBlock(s, mem, i); } else { NewBlockInv(s, mem); }
    }
    NewBlockSums(s, mem);
    forall i | 0 <= i < |s.blocks| ensures BlockRange(t.blocks[i]) == BlockRange(s.blocks[i]) {}
  }

  /** A served request keeps the invariant; the block it asks for when it needs one is large
      enough; the object it returns is the newest one, n bytes long and 8-aligned. */
  lemma {:induction false} AllocatedInv(s: Serial, n: nat, nodes: nat, mem: Memory)
    requires Inv(s) && n % 8 == 0 && Ready(s, n, nodes, mem)
    requires !HasSpace(s, n + nodes * CLEANUP_SIZE) ==> FreshBlock(s, mem)
    ensures var t := Allocated(s, n, nodes, mem);
      && Inv(t)
      && t.blocks != [] && t.extents[|t.blocks| - 1].objects != []
      && var objects := t.extents[|t.blocks| - 1].objects;
      objects[|objects| - 1] == Range(t.ptr - n, t.ptr) && (t.ptr - n) % 8 == 0
  {
    var base := if HasSpace(s, n + nodes * CLEANUP_SIZE) then s else WithNewBlock(s, mem);
    if base != s { WithNewBlockInv(s, mem); }
    BumpedInv(base, n, nodes);
    var t := Bumped(base, n, nodes);
    assert BlockInv(t, |t.blocks| - 1);
    var objects := t.extents[|t.blocks| - 1].objects;
    assert objects[|objects| - 1].lo % 8 == 0;
  }
}
