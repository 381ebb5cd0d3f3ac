/** ThreadSafeArena from construction through growth to Reset and destruction, over a heap of
    linked blocks. Freeing a block takes its header, and a SerialArena embedded in it, out of the
    heap, so that reading either afterwards is an error the verifier would report. */
module ArenaRelease {
  import opened SerialArenas

  type Addr = nat
  const NULL: Addr := 0
  const NO_MEMORY := Memory(NULL, 0)
  /** AlignUpTo8(sizeof(AllocationPolicy)). */
  const POLICY_SIZE := 40
  const MINIMUM_SIZE := BLOCK_HEADER_SIZE + SERIAL_ARENA_SIZE + POLICY_SIZE

  datatype Header = Header(next: Addr, size: nat)
  datatype SerialRec = SerialRec(next: Addr, head: Addr, spaceAllocated: nat)
  /** `policies` holds the AllocationPolicy objects that arenas keep inside their first block. */
  datatype Heap = Heap(blocks: map<Addr, Header>, serials: map<Addr, SerialRec>, policies: map<Addr, Policy>)

  /** The blocks of one SerialArena, newest first: the last one is the block it is embedded in. */
  type Chain = seq<Memory>

  function Total(chain: Chain): nat {
    if chain == [] then 0 else chain[0].size + Total(chain[1..])
  }

  function Front(all: Chain): Chain { if all == [] then [] else all[..|all| - 1] }

  function Last(all: Chain): Memory { if all == [] then NO_MEMORY else all[|all| - 1] }

  function Embedded(mem: Memory): Addr { mem.addr + BLOCK_HEADER_SIZE }

  function PolicyIn(mem: Memory): Addr { Embedded(mem) + SERIAL_ARENA_SIZE }

  function Flat(lists: seq<Chain>, n: nat): Chain
    requires n <= |lists|
  {
    if n == 0 then [] else Flat(lists, n - 1) + lists[n - 1]
  }

  ghost predicate ChainAt(h: Heap, chain: Chain) {
    && |chain| > 0
    && (forall i :: 0 <= i < |chain| ==>
          chain[i].addr != NULL && chain[i].addr in h.blocks && h.blocks[chain[i].addr].size == chain[i].size)
    && (forall i, j :: 0 <= i < |chain| && j == i + 1 < |chain| ==> h.blocks[chain[i].addr].next == chain[j].addr)
    && h.blocks[chain[|chain| - 1].addr].next == NULL
  }

  ghost predicate SerialOk(h: Heap, lists: seq<Chain>, k: nat)
    requires k < |lists|
  {
    var chain := lists[k];
    && ChainAt(h, chain)
    && var at := Embedded(chain[|chain| - 1]);
    && at in h.serials && h.serials[at].head == chain[0].addr && h.serials[at].spaceAllocated == Total(chain)
    && h.serials[at].next == SerialAt(lists, k + 1)
  }

  function SerialAt(lists: seq<Chain>, k: nat): Addr {
    if k < |lists| && lists[k] != [] then Embedded(lists[k][|lists[k]| - 1]) else NULL
  }

  ghost predicate Distinct(all: Chain) {
    forall i, j :: 0 <= i < j < |all| ==> all[i].addr != all[j].addr
  }

  ghost predicate Shape(h: Heap, threads: Addr, lists: seq<Chain>) {
    && threads == SerialAt(lists, 0)
    && (forall k :: 0 <= k < |lists| ==> SerialOk(h, lists, k))
    && Distinct(Flat(lists, |lists|))
  }

  /** The heap after the blocks in `gone` were freed. */
  function Without(h: Heap, gone: Chain): Heap {
    Heap(h.blocks - (set m | m in gone :: m.addr), h.serials - (set m | m in gone :: Embedded(m)),
         h.policies - (set m | m in gone :: PolicyIn(m)))
  }

  /** With a block everything in it goes, and nothing else does. */
  lemma {:induction false} FreedIsGone(h: Heap, gone: Chain, x: Addr)
    ensures var h' := Without(h, gone);
      && (x in h'.blocks <==> x in h.blocks && forall m :: m in gone ==> x != m.addr)
      && (x in h'.serials <==> x in h.serials && forall m :: m in gone ==> x != m.addr + 24)
      && (x in h'.policies <==> x in h.policies && forall m :: m in gone ==> x != m.addr + 80)
      && (x in h'.blocks ==> h'.blocks[x] == h.blocks[x]) && (x in h'.serials ==> h'.serials[x] == h.serials[x])
      && (x in h'.policies ==> h'.policies[x] == h.policies[x])
  {
  }

  lemma WithoutMore(h: Heap, gone: Chain, more: Chain)
    ensures Without(Without(h, gone), more) == Without(h, gone + more)
  {
    assert forall x :: x in gone + more <==> x in gone || x in more;
  }

  /** What the system has been given back, after the blocks in `gone` as well. */
  function Gave(freed: Chain, gone: Chain): Chain { freed + gone }

  lemma GaveMore(freed: Chain, gone: Chain, more: Chain)
    ensures Gave(Gave(freed, gone), more) == Gave(freed, gone + more)
  {
  }

  lemma ChainKept(h: Heap, gone: Chain, chain: Chain)
    requires ChainAt(h, chain) && forall i, j :: 0 <= i < |gone| && 0 <= j < |chain| ==> gone[i].addr != chain[j].addr
    ensures ChainAt(Without(h, gone), chain)
  {
  }

  /** The block the loop of Free stands on is still there when its link is read. */
  lemma {:induction false} BlockKept(h: Heap, chain: Chain, k: nat)
    requires ChainAt(h, chain) && Distinct(chain) && k < |chain|
    ensures var at := chain[k].addr;
      && at in Without(h, chain[..k]).blocks && Without(h, chain[..k]).blocks[at] == h.blocks[at]
      && (h.blocks[at].next == NULL <==> k == |chain| - 1)
  {
    forall m | m in chain[..k] ensures m.addr != chain[k].addr {}
    if k < |chain| - 1 { assert h.blocks[chain[k].addr].next == chain[k + 1].addr; }
  }

  /** The system allocator, with everything the program gave back to it. */
  class System {
    var heap: Heap
    ghost var freed: Chain

    constructor ()
      ensures heap == Heap(map[], map[], map[]) && freed == []
    {
      heap, freed := Heap(map[], map[], map[]), [];
    }

    /** The deallocator; returns what it adds to the space count. */
    method Deallocate(mem: Memory) returns (space: nat)
      requires mem.addr != NULL ==> mem.addr in heap.blocks && heap.blocks[mem.addr].size == mem.size
      modifies this
      ensures space == mem.size
      ensures heap == if mem.addr == NULL then old(heap) else Without(old(heap), [mem])
      ensures freed == if mem.addr == NULL then old(freed) else Gave(old(freed), [mem])
    {
      if mem.addr != NULL {
        heap := Heap(heap.blocks - {mem.addr}, heap.serials - {Embedded(mem)}, heap.policies - {PolicyIn(mem)});
        freed := freed + [mem];
        assert heap == Without(old(heap), [mem]);
      }
      space := mem.size;
    }

    /** SerialArena::Free: frees every block but the first one it had, which it returns. */
    method FreeSerial(serial: Addr, ghost chain: Chain) returns (mem: Memory, space: nat)
      requires ChainAt(heap, chain) && Distinct(chain)
      requires serial in heap.serials && heap.serials[serial].head == chain[0].addr
      modifies this
      ensures mem == Last(chain) && space == Total(Front(chain))
      ensures heap == Without(old(heap), Front(chain)) && freed == Gave(old(freed), Front(chain))
    {
      var b := heap.serials[serial].head;
      mem, space := Memory(b, heap.blocks[b].size), 0;
      ghost var k: nat := 0;
      assert heap == Without(heap, []);
      BlockKept(heap, chain, 0);
      while heap.blocks[b].next != NULL
        invariant k < |chain| && mem == chain[k] && b == mem.addr
        invariant heap == Without(old(heap), chain[..k]) && freed == old(freed) + chain[..k]
        invariant b in heap.blocks && heap.blocks[b] == old(heap).blocks[b]
        invariant heap.blocks[b].next == NULL <==> k == |chain| - 1
        invariant space == Total(chain[..k])
        decreases |chain| - k
      {
        assert heap.blocks[b].next == chain[k + 1].addr;
        b := heap.blocks[b].next;
        var more := Deallocate(mem);
        WithoutMore(old(heap), chain[..k], [chain[k]]);
        assert chain[..k] + [chain[k]] == chain[..k + 1];
        TotalSnoc(chain[..k], chain[k]);
        space := space + more;
        k := k + 1;
        BlockKept(old(heap), chain, k);
        mem := Memory(b, heap.blocks[b].size);
      }
    }
  }

  lemma {:induction false} TotalSnoc(chain: Chain, m: Memory)
    ensures Total(chain + [m]) == Total(chain) + m.size
  {
    if chain != [] {
      assert (chain + [m])[1..] == chain[1..] + [m];
      TotalSnoc(chain[1..], m);
    }
  }

  lemma {:induction false} TotalAppend(a: Chain, b: Chain)
    ensures Total(a + b) == Total(a) + Total(b)
  {
    if a == [] {
      assert a + b == b;
    } else {
      assert (a + b)[1..] == a[1..] + b;
      TotalAppend(a[1..], b);
    }
  }

  // ----- the whole list -----

  lemma {:induction false} FlatIsPrefix(lists: seq<Chain>, k: nat, n: nat)
    requires k <= n <= |lists|
    ensures Flat(lists, k) <= Flat(lists, n)
    decreases n - k
  {
    if k < n { FlatIsPrefix(lists, k, n - 1); }
  }

  /** The k-th chain has no block twice, and none of the chains before it. */
  lemma ChainApart(lists: seq<Chain>, k: nat)
    requires k < |lists| && Distinct(Flat(lists, |lists|))
    ensures Distinct(lists[k]) && Distinct(Flat(lists, k + 1))
    ensures forall i, j :: 0 <= i < |Flat(lists, k)| && 0 <= j < |lists[k]| ==>
      Flat(lists, k)[i].addr != lists[k][j].addr
  {
    FlatIsPrefix(lists, k + 1, |lists|);
    assert Distinct(Flat(lists, k + 1));
    DistinctParts(Flat(lists, k), lists[k]);
  }

  lemma DistinctParts(a: Chain, b: Chain)
    requires Distinct(a + b)
    ensures Distinct(b) && forall i, j :: 0 <= i < |a| && 0 <= j < |b| ==> a[i].addr != b[j].addr
  {
    var all := a + b;
    assert forall i :: 0 <= i < |a| ==> a[i] == all[i];
    assert forall j :: 0 <= j < |b| ==> b[j] == all[|a| + j];
  }

  /** When PerSerialArena reaches the k-th SerialArena, all blocks of the earlier ones are gone,
      and its own chain and record are intact. */
  lemma SerialKept(h: Heap, threads: Addr, lists: seq<Chain>, k: nat)
    requires Shape(h, threads, lists) && k < |lists|
    ensures var h' := Without(h, Flat(lists, k));
      && ChainAt(h', lists[k]) && Distinct(lists[k])
      && SerialAt(lists, k) in h'.serials && h'.serials[SerialAt(lists, k)] == h.serials[SerialAt(lists, k)]
  {
    assert SerialOk(h, lists, k);
    ChainApart(lists, k);
    ChainKept(h, Flat(lists, k), lists[k]);
  }

  /** After its blocks but the first are freed as well, the record is still there, so that its
      link can be followed, and so is the first block. */
  lemma {:induction false} RecordKept(h: Heap, threads: Addr, lists: seq<Chain>, k: nat)
    requires Shape(h, threads, lists) && k < |lists|
    ensures var h', all := Without(h, Front(Flat(lists, k + 1))), Flat(lists, k + 1);
      && SerialAt(lists, k) in h'.serials && h'.serials[SerialAt(lists, k)].next == SerialAt(lists, k + 1)
      && Last(all).addr in h'.blocks && h'.blocks[Last(all).addr].size == Last(all).size && Last(all).addr != NULL
      && Last(all) == Last(lists[k]) && (PolicyIn(Last(all)) in h.policies ==>
           PolicyIn(Last(all)) in h'.policies && h'.policies[PolicyIn(Last(all))] == h.policies[PolicyIn(Last(all))])
  {
    assert SerialOk(h, lists, k);
    ChainApart(lists, k);
    var all := Flat(lists, k + 1);
    assert Last(all) == Last(lists[k]);
    forall m | m in Front(all) ensures m.addr != Last(all).addr {}
  }

  lemma FrontSteps(lists: seq<Chain>, k: nat)
    requires k < |lists| && lists[k] != []
    ensures Flat(lists, k) + Front(lists[k]) == Front(Flat(lists, k + 1)) && Last(Flat(lists, k + 1)) == Last(lists[k])
    ensures k > 0 && Flat(lists, k) != [] ==> Front(Flat(lists, k)) + [Last(Flat(lists, k))] == Flat(lists, k)
  {
  }
}
