/** The ThreadSafeArena object: its list of SerialArenas, the initial block and the policy kept in
    it, and what Reset and destruction give back. */
module ThreadSafeArenas {
  import opened Sequences
  import opened SerialArenas
  import opened ArenaRelease

  const NO_POLICY: Addr := 0

  /** AllocationPolicy::IsDefault compares start_block_size with the default maximum. */
  predicate IsDefault(policy: Policy, hooks: bool) {
    policy.startBlockSize == DEFAULT_POLICY.maxBlockSize && policy.maxBlockSize == DEFAULT_POLICY.maxBlockSize && !hooks
  }

  /** It accepts one policy, and that is not the default one: without hooks, the default maximum in
      both sizes. */
  lemma {:induction false} DefaultIsNotDefault(policy: Policy, hooks: bool)
    ensures IsDefault(policy, hooks) <==> !hooks && policy == Policy(8192, 8192)
    ensures DEFAULT_POLICY == Policy(256, 8192) && !IsDefault(DEFAULT_POLICY, hooks)
  {
  }

  /** A block of at least MINIMUM_SIZE bytes has room for the policy object after the SerialArena. */
  lemma {:induction false} PolicyFits(mem: Memory)
    requires mem.size >= MINIMUM_SIZE
    ensures var s := NewSerial(mem); s.ptr <= s.limit && HasSpace(s, POLICY_SIZE) && s.ptr == PolicyIn(mem)
  {
  }

  lemma OneBlockShape(h: Heap, mem: Memory)
    requires mem.addr != NULL && mem.addr in h.blocks && h.blocks[mem.addr] == Header(NULL, mem.size)
    requires Embedded(mem) in h.serials && h.serials[Embedded(mem)] == SerialRec(NULL, mem.addr, mem.size)
    ensures Shape(h, Embedded(mem), [[mem]]) && Flat([[mem]], 1) == [mem]
  {
    assert Flat([[mem]], 0) == [];
    assert Total([mem]) == mem.size by { assert Total([mem][1..]) == 0; }
    assert SerialOk(h, [[mem]], 0);
  }

  ghost predicate Adds(h: Heap, h': Heap, next: Addr, mem: Memory) {
    && mem.addr != NULL && mem.addr !in h.blocks && Embedded(mem) !in h.serials
    && h'.blocks == h.blocks[mem.addr := Header(NULL, mem.size)]
    && h'.serials == h.serials[Embedded(mem) := SerialRec(next, mem.addr, mem.size)]
  }

  lemma OldSerialOk(h: Heap, h': Heap, next: Addr, lists: seq<Chain>, lists': seq<Chain>, mem: Memory, k: nat)
    requires lists' == [[mem]] + lists && Adds(h, h', next, mem) && k < |lists| && SerialOk(h, lists, k)
    ensures SerialOk(h', lists', k + 1)
  {
    assert lists'[k + 1] == lists[k];
    assert SerialAt(lists', k + 2) == SerialAt(lists, k + 1);
  }

  lemma NewSerialOk(h: Heap, h': Heap, threads: Addr, lists: seq<Chain>, lists': seq<Chain>, mem: Memory)
    requires lists' == [[mem]] + lists && Adds(h, h', threads, mem) && threads == SerialAt(lists, 0)
    ensures SerialOk(h', lists', 0) && SerialAt(lists', 0) == Embedded(mem)
  {
    assert Total([mem]) == mem.size by { assert Total([mem][1..]) == 0; }
    assert SerialAt(lists', 1) == SerialAt(lists, 0);
  }

  lemma PushedSerialsOk(h: Heap, h': Heap, threads: Addr, lists: seq<Chain>, lists': seq<Chain>, mem: Memory)
    requires lists' == [[mem]] + lists && Adds(h, h', threads, mem) && threads == SerialAt(lists, 0)
    requires forall k :: 0 <= k < |lists| ==> SerialOk(h, lists, k)
    ensures forall k :: 0 <= k < |lists'| ==> SerialOk(h', lists', k)
  {
    NewSerialOk(h, h', threads, lists, lists', mem);
    hide *;
    forall k | 0 <= k < |lists'| ensures SerialOk(h', lists', k) {
      if k > 0 { OldSerialOk(h, h', threads, lists, lists', mem, k - 1); }
    }
  }

  lemma PushedDistinct(h: Heap, lists: seq<Chain>, mem: Memory)
    requires forall k :: 0 <= k < |lists| ==> SerialOk(h, lists, k)
    requires Distinct(Flat(lists, |lists|)) && mem.addr !in h.blocks
    ensures Distinct([mem] + Flat(lists, |lists|))
  {
    AllLive(h, lists, |lists|);
    var all := Flat(lists, |lists|);
    assert forall i :: 0 <= i < |all| ==> all[i].addr != mem.addr;
    hide Flat, SerialOk;
    PrependDistinct(mem, all);
  }

  /** A fresh block pushed as a new SerialArena of one block. */
  lemma PushedShape(h: Heap, h': Heap, threads: Addr, lists: seq<Chain>, lists': seq<Chain>, mem: Memory)
    requires lists' == [[mem]] + lists && Shape(h, threads, lists) && Adds(h, h', threads, mem)
    ensures Shape(h', Embedded(mem), lists')
    ensures Flat(lists', |lists'|) == [mem] + Flat(lists, |lists|)
  {
    NewSerialOk(h, h', threads, lists, lists', mem);
    PushedSerialsOk(h, h', threads, lists, lists', mem);
    hide SerialOk, Flat, Distinct, SerialAt, Embedded;
    PushedDistinct(h, lists, mem);
    FlatCons([mem], lists, lists', |lists|);
  }

  lemma PrependDistinct(mem: Memory, all: Chain)
    requires Distinct(all) && forall i :: 0 <= i < |all| ==> all[i].addr != mem.addr
    ensures Distinct([mem] + all)
  {
  }

  lemma {:induction false} FlatCons(chain: Chain, lists: seq<Chain>, lists': seq<Chain>, n: nat)
    requires lists' == [chain] + lists && n <= |lists|
    ensures Flat(lists', n + 1) == chain + Flat(lists, n)
  {
    if n == 0 {
      assert Flat(lists', 0) == [];
    } else {
      FlatCons(chain, lists, lists', n - 1);
      assert lists'[n] == lists[n - 1];
      assert Flat(lists', n + 1) == Flat(lists', n) + lists'[n] && Flat(lists, n) == Flat(lists, n - 1) + lists[n - 1];
      hide Flat;
      AppendAssociates(chain, Flat(lists, n - 1), lists[n - 1]);
    }
  }

  lemma {:induction false} AllLive(h: Heap, lists: seq<Chain>, n: nat)
    requires n <= |lists| && forall k :: 0 <= k < |lists| ==> SerialOk(h, lists, k)
    ensures forall i :: 0 <= i < |Flat(lists, n)| ==> Flat(lists, n)[i].addr in h.blocks
  {
    if n > 0 {
      AllLive(h, lists, n - 1);
      assert SerialOk(h, lists, n - 1);
    }
  }

  // ----- a SerialArena grows by a block -----

  ghost predicate Grows(h: Heap, h': Heap, lists: seq<Chain>, lists': seq<Chain>, k: nat, mem: Memory)
    requires k < |lists|
  {
    var at := SerialAt(lists, k);
    && mem.addr != NULL && mem.addr !in h.blocks && at in h.serials
    && h'.blocks == h.blocks[mem.addr := Header(h.serials[at].head, mem.size)]
    && h'.serials == h.serials[at := SerialRec(h.serials[at].next, mem.addr, h.serials[at].spaceAllocated + mem.size)]
    && lists' == lists[k := [mem] + lists[k]]
  }

  lemma GrownSerial(h: Heap, h': Heap, lists: seq<Chain>, lists': seq<Chain>, k: nat, mem: Memory)
    requires k < |lists| && Grows(h, h', lists, lists', k, mem) && SerialOk(h, lists, k)
    ensures SerialOk(h', lists', k)
  {
    var chain, chain' := lists[k], [mem] + lists[k];
    assert forall i :: 0 < i < |chain'| ==> chain'[i] == chain[i - 1];
    assert chain'[1..] == chain;
    assert SerialAt(lists', k + 1) == SerialAt(lists, k + 1);
  }

  lemma OtherSerial(h: Heap, h': Heap, lists: seq<Chain>, lists': seq<Chain>, k: nat, mem: Memory, j: nat)
    requires k < |lists| && Grows(h, h', lists, lists', k, mem) && j < |lists| && j != k
    requires SerialOk(h, lists, j) && lists[k] != [] && SerialAt(lists, j) != SerialAt(lists, k)
    ensures SerialOk(h', lists', j)
  {
    assert lists'[j] == lists[j];
    assert SerialAt(lists', j + 1) == SerialAt(lists, j + 1) by {
      if j + 1 == k { assert lists'[k][|lists'[k]| - 1] == lists[k][|lists[k]| - 1]; }
    }
  }

  /** Different SerialArenas lie in different blocks. */
  lemma SerialsApart(h: Heap, threads: Addr, lists: seq<Chain>, j: nat, k: nat)
    requires Shape(h, threads, lists) && j < k < |lists|
    ensures SerialAt(lists, j) != SerialAt(lists, k)
  {
    assert SerialOk(h, lists, j) && SerialOk(h, lists, k);
    ChainApart(lists, k);
    FlatIsPrefix(lists, j + 1, k);
    var n := |Flat(lists, j)| + |lists[j]| - 1;
    assert Flat(lists, j + 1)[n] == lists[j][|lists[j]| - 1] && Flat(lists, k)[n] == Flat(lists, j + 1)[n];
  }

  lemma {:induction false} GrownFlat(lists: seq<Chain>, lists': seq<Chain>, k: nat, mem: Memory, n: nat)
      returns (rest: Chain)
    requires k < n <= |lists| && lists' == lists[k := [mem] + lists[k]] && lists[k] != []
    ensures rest != [] && Flat(lists, n) == Flat(lists, k) + rest && Flat(lists', n) == Flat(lists, k) + [mem] + rest
  {
    if n == k + 1 {
      rest := lists[k];
      SameFlat(lists, lists', k, k);
      AppendAssociates(Flat(lists, k), [mem], rest);
    } else {
      rest := GrownFlat(lists, lists', k, mem, n - 1);
      AppendAssociates(Flat(lists, k), rest, lists[n - 1]);
      AppendAssociates(Flat(lists, k) + [mem], rest, lists[n - 1]);
      rest := rest + lists[n - 1];
    }
  }

  lemma {:induction false} SameFlat(lists: seq<Chain>, lists': seq<Chain>, k: nat, n: nat)
    requires n <= k <= |lists| == |lists'| && forall j :: 0 <= j < k ==> lists'[j] == lists[j]
    ensures Flat(lists', n) == Flat(lists, n)
  {
    if n > 0 { SameFlat(lists, lists', k, n - 1); }
  }

  lemma InsertDistinct(a: Chain, mem: Memory, b: Chain)
    requires Distinct(a + b) && forall i :: 0 <= i < |a + b| ==> (a + b)[i].addr != mem.addr
    ensures Distinct(a + [mem] + b)
  {
    var all, all' := a + b, a + [mem] + b;
    forall i | 0 <= i < |all'| && i != |a| ensures all'[i] == all[if i < |a| then i else i - 1] {}
  }

  lemma GrownDistinct(h: Heap, lists: seq<Chain>, lists': seq<Chain>, k: nat, mem: Memory)
    requires k < |lists| && lists' == lists[k := [mem] + lists[k]] && mem.addr !in h.blocks
    requires Distinct(Flat(lists, |lists|)) && forall j :: 0 <= j < |lists| ==> SerialOk(h, lists, j)
    ensures Distinct(Flat(lists', |lists|)) && Last(Flat(lists', |lists|)) == Last(Flat(lists, |lists|))
    ensures Flat(lists', |lists|) != []
  {
    AllLive(h, lists, |lists|);
    assert SerialOk(h, lists, k);
    var rest := GrownFlat(lists, lists', k, mem, |lists|);
    hide SerialOk, Flat, Distinct;
    InsertDistinct(Flat(lists, k), mem, rest);
  }

  lemma GrownShape(h: Heap, h': Heap, threads: Addr, lists: seq<Chain>, lists': seq<Chain>, k: nat, mem: Memory)
    requires Shape(h, threads, lists) && k < |lists| && Grows(h, h', lists, lists', k, mem)
    ensures Shape(h', threads, lists')
    ensures Last(Flat(lists', |lists|)) == Last(Flat(lists, |lists|)) && Flat(lists', |lists|) != []
  {
    GrownDistinct(h, lists, lists', k, mem);
    forall j | 0 <= j < |lists| && j != k ensures SerialAt(lists, j) != SerialAt(lists, k) {
      if j < k { SerialsApart(h, threads, lists, j, k); } else { SerialsApart(h, threads, lists, k, j); }
    }
    assert SerialOk(h, lists, k);
    assert SerialAt(lists', 0) == SerialAt(lists, 0) by {
      if k == 0 { assert lists'[0][|lists'[0]| - 1] == lists[0][|lists[0]| - 1]; }
    }
    hide SerialOk, Distinct, Flat, SerialAt;
    forall j | 0 <= j < |lists'| ensures SerialOk(h', lists', j) {
      if j == k { GrownSerial(h, h', lists, lists', k, mem); } else { OtherSerial(h, h', lists, lists', k, mem, j); }
    }
  }

  /** All blocks of the arena, in the order Free meets them. */
  ghost function All(lists: seq<Chain>): Chain { Flat(lists, |lists|) }

  ghost predicate Owns(h: Heap, threads: Addr, lists: seq<Chain>, userOwned: bool, user: Memory, policyAt: Addr) {
    && Shape(h, threads, lists)
    && (userOwned ==>
          All(lists) != [] && Last(All(lists)) == user && user.size >= BLOCK_HEADER_SIZE + SERIAL_ARENA_SIZE)
    && (policyAt != NO_POLICY ==> All(lists) != [] && policyAt == PolicyIn(Last(All(lists))) && policyAt in h.policies)
    && (policyAt != NO_POLICY && userOwned ==> user.size >= MINIMUM_SIZE)
  }

  class ThreadSafeArena {
    const system: System
    var threads: Addr
    var userOwned: bool
    var policyAt: Addr
    /** History: the blocks of each SerialArena, and the block the user passed in. */
    ghost var lists: seq<Chain>
    ghost var user: Memory

    ghost predicate Valid()
      reads this, system
    {
      Owns(system.heap, threads, lists, userOwned, user, policyAt)
    }

    /** SetInitialBlock: Init has emptied the list. */
    method SetInitialBlock(mem: Memory)
      requires mem.addr != NULL && BLOCK_HEADER_SIZE + SERIAL_ARENA_SIZE <= mem.size
      modifies this`threads, this`lists, system
      ensures Shape(system.heap, threads, lists) && lists == [[mem]] && All(lists) == [mem]
      ensures system.freed == old(system.freed)
      ensures system.heap == old(system.heap).(blocks := old(system.heap).blocks[mem.addr := Header(NULL, mem.size)],
                serials := old(system.heap).serials[Embedded(mem) := SerialRec(NULL, mem.addr, mem.size)])
    {
      var h := system.heap;
      system.heap := h.(blocks := h.blocks[mem.addr := Header(NULL, mem.size)],
                        serials := h.serials[Embedded(mem) := SerialRec(NULL, mem.addr, mem.size)]);
      threads, lists := Embedded(mem), [[mem]];
      OneBlockShape(system.heap, mem);
    }

    /** The constructor's Init, and InitializeFrom: too small a block is ignored. */
    method InitializeFrom(mem: Memory)
      requires policyAt == NO_POLICY
      requires userOwned ==> mem.addr != NULL && mem.size >= BLOCK_HEADER_SIZE + SERIAL_ARENA_SIZE
      modifies this, system
      ensures Valid() && system.freed == old(system.freed) && policyAt == NO_POLICY
      ensures var used := mem.addr != NULL && mem.size >= BLOCK_HEADER_SIZE + SERIAL_ARENA_SIZE;
        lists == (if used then [[mem]] else []) && userOwned == used && (used ==> user == mem)
    {
      threads, lists := NULL, [];
      if mem.addr != NULL && mem.size >= BLOCK_HEADER_SIZE + SERIAL_ARENA_SIZE {
        userOwned, user := true, mem;
        SetInitialBlock(mem);
      }
    }

    /** The policy is stored in the first block, whoever owns it; there is always room for it. */
    method InitializeWithPolicy(mem: Memory, policy: Policy, own: Memory)
      requires mem.addr == NULL || mem.size < MINIMUM_SIZE ==>
        own.addr != NULL && own.size == BlockSize(policy, 0, MINIMUM_SIZE)
      modifies this, system
      ensures Valid() && system.freed == old(system.freed)
      ensures var used := mem.addr != NULL && mem.size >= MINIMUM_SIZE;
        lists == (if used then [[mem]] else [[own]]) && userOwned == used && (used ==> user == mem)
      ensures policyAt != NO_POLICY && policyAt in system.heap.policies && system.heap.policies[policyAt] == policy
    {
      var first := mem;
      if mem.addr != NULL && mem.size >= MINIMUM_SIZE {
        userOwned, user := true, mem;
      } else {
        userOwned, first := false, own;
      }
      SetInitialBlock(first);
      PolicyFits(first);
      policyAt := PolicyIn(first);
      system.heap := system.heap.(policies := system.heap.policies[policyAt := policy]);
      OneBlockShape(system.heap, first);
    }

    constructor (system: System, mem: Memory)
      modifies system
      ensures this.system == system && Valid() && system.freed == old(system.freed)
      ensures userOwned <==> mem.addr != NULL && mem.size >= BLOCK_HEADER_SIZE + SERIAL_ARENA_SIZE
      ensures lists == (if userOwned then [[mem]] else []) && (userOwned ==> user == mem) && policyAt == NO_POLICY
    {
      this.system := system;
      userOwned, policyAt, user := false, NO_POLICY, NO_MEMORY;
      new;
      InitializeFrom(mem);
    }

    constructor WithPolicy(system: System, mem: Memory, policy: Policy, hooks: bool, own: Memory)
      requires !IsDefault(policy, hooks) && (mem.addr == NULL || mem.size < MINIMUM_SIZE) ==>
        own.addr != NULL && own.size == BlockSize(policy, 0, MINIMUM_SIZE)
      modifies system
      ensures this.system == system && Valid() && system.freed == old(system.freed)
      ensures var least := if IsDefault(policy, hooks) then BLOCK_HEADER_SIZE + SERIAL_ARENA_SIZE else MINIMUM_SIZE;
        userOwned <==> mem.addr != NULL && mem.size >= least
      ensures lists == if userOwned then [[mem]] else if policyAt != NO_POLICY then [[own]] else []
      ensures userOwned ==> user == mem
      ensures policyAt == NO_POLICY <==> !hooks && policy == Policy(8192, 8192)
      ensures policyAt != NO_POLICY ==> policyAt in system.heap.policies && system.heap.policies[policyAt] == policy
    {
      this.system := system;
      userOwned, policyAt, user := false, NO_POLICY, NO_MEMORY;
      new;
      if IsDefault(policy, hooks) { InitializeFrom(mem); } else { InitializeWithPolicy(mem, policy, own); }
    }

    /** A thread's first block in this arena: New, and the push in front of the list. */
    method PushSerial(mem: Memory)
      requires Valid() && mem.addr != NULL && mem.addr !in system.heap.blocks && Embedded(mem) !in system.heap.serials
      modifies this, system
      ensures Valid() && lists == [[mem]] + old(lists) && All(lists) == [mem] + All(old(lists))
      ensures system.heap.policies == old(system.heap.policies)
      ensures userOwned == old(userOwned) && user == old(user) && policyAt == old(policyAt)
      ensures system.freed == old(system.freed)
    {
      var h := system.heap;
      system.heap := h.(blocks := h.blocks[mem.addr := Header(NULL, mem.size)],
                        serials := h.serials[Embedded(mem) := SerialRec(threads, mem.addr, mem.size)]);
      PushedShape(h, system.heap, threads, lists, [[mem]] + lists, mem);
      hide Shape, Flat;
      threads, lists := Embedded(mem), [[mem]] + lists;
    }

    /** SerialArena::AllocateNewBlock on the SerialArena at `serial`. */
    method GrowSerial(serial: Addr, mem: Memory, ghost k: nat)
      requires Valid() && k < |lists| && serial == SerialAt(lists, k)
      requires mem.addr != NULL && mem.addr !in system.heap.blocks
      modifies this`lists, system
      ensures Valid() && k < |old(lists)| && lists == old(lists)[k := [mem] + old(lists)[k]]
      ensures system.heap.policies == old(system.heap.policies)
      ensures system.freed == old(system.freed)
    {
      var h := system.heap;
      assert SerialOk(h, lists, k);
      var at := h.serials[serial];
      system.heap := h.(blocks := h.blocks[mem.addr := Header(at.head, mem.size)],
                        serials := h.serials[serial := SerialRec(at.next, mem.addr, at.spaceAllocated + mem.size)]);
      GrownShape(h, system.heap, threads, lists, lists[k := [mem] + lists[k]], k, mem);
      hide Shape, Flat;
      lists := lists[k := [mem] + lists[k]];
    }

    method SpaceAllocated() returns (space: nat)
      requires Valid()
      ensures space == Total(All(lists))
    {
      var serial := threads;
      space := 0;
      ghost var k: nat := 0;
      EndOfList(system.heap, threads, lists, k);
      while serial != NULL
        invariant k <= |lists| && (serial == NULL <==> k == |lists|)
        invariant serial == SerialAt(lists, k) && space == Total(Flat(lists, k))
        decreases |lists| - k
      {
        assert SerialOk(system.heap, lists, k);
        space := space + system.heap.serials[serial].spaceAllocated;
        serial := system.heap.serials[serial].next;
        TotalAppend(Flat(lists, k), lists[k]);
        k := k + 1;
        EndOfList(system.heap, threads, lists, k);
      }
    }

    /** ThreadSafeArena::Free: every block but the very first one, newest first. */
    method Free() returns (mem: Memory, space: nat)
      requires Valid()
      modifies system
      ensures mem == Last(All(lists)) && space == Total(Front(All(lists)))
      ensures system.heap == Without(old(system.heap), Front(All(lists)))
      ensures system.freed == Gave(old(system.freed), Front(All(lists)))
    {
      hide Shape, Last, Front, Total, Without, Gave;
      mem, space := FreeSerials(system, threads, lists);
    }

    /** The block that Free left over goes back unless it is the user's; its size counts either way. */
    method GiveBackFirst(mem: Memory) returns (kept: Memory, space: nat)
      requires mem.addr != NULL ==> mem.addr in system.heap.blocks && system.heap.blocks[mem.addr].size == mem.size
      modifies system
      ensures space == mem.size && kept == if userOwned then mem else NO_MEMORY
      ensures var given := !userOwned && mem.addr != NULL;
        && system.heap == (if given then Without(old(system.heap), [mem]) else old(system.heap))
        && system.freed == if given then Gave(old(system.freed), [mem]) else old(system.freed)
    {
      if userOwned {
        kept, space := mem, mem.size;
      } else {
        space := system.Deallocate(mem);
        kept := NO_MEMORY;
      }
    }

    /** Gives back every block but the user's, and starts over on the user's block if there is one. */
    method Reset(own: Memory) returns (space: nat)
      requires Valid()
      requires policyAt != NO_POLICY && !userOwned ==>
        own.addr != NULL && own.size == BlockSize(system.heap.policies[policyAt], 0, MINIMUM_SIZE)
      modifies this, system
      ensures Valid() && space == Total(All(old(lists)))
      ensures system.freed
        == Gave(old(system.freed), if old(userOwned) then Front(All(old(lists))) else All(old(lists)))
      ensures userOwned == old(userOwned) && (userOwned ==> user == old(user))
      ensures lists == if userOwned then [[user]] else if old(policyAt) != NO_POLICY then [[own]] else []
      ensures (policyAt != NO_POLICY) == old(policyAt != NO_POLICY)
      ensures policyAt != NO_POLICY ==> system.heap.policies[policyAt] == old(system.heap.policies[policyAt])
    {
      AfterFree(system.heap, threads, lists, userOwned, user, policyAt);
      GaveMore(system.freed, Front(All(lists)), [Last(All(lists))]);
      hide *;
      var mem, more;
      mem, space := Free();
      if policyAt != NO_POLICY {
        var saved := system.heap.policies[policyAt];
        mem, more := GiveBackFirst(mem);
        space := space + more;
        InitializeWithPolicy(mem, saved, own);
      } else {
        mem, more := GiveBackFirst(mem);
        space := space + more;
        InitializeFrom(mem);
      }
    }

    /** The destructor. */
    method Destroy() returns (space: nat)
      requires Valid()
      modifies system
      ensures space == Total(All(lists))
      ensures system.freed == Gave(old(system.freed), if userOwned then Front(All(lists)) else All(lists))
      ensures system.heap == Without(old(system.heap), if userOwned then Front(All(lists)) else All(lists))
    {
      AfterFree(system.heap, threads, lists, userOwned, user, policyAt);
      GaveMore(system.freed, Front(All(lists)), [Last(All(lists))]);
      WithoutMore(system.heap, Front(All(lists)), [Last(All(lists))]);
      hide *;
      var mem, more;
      mem, space := Free();
      mem, more := GiveBackFirst(mem);
      space := space + more;
    }
  }

  /** PerSerialArena in Free. */
  method FreeSerials(system: System, threads: Addr, ghost lists: seq<Chain>) returns (mem: Memory, space: nat)
    requires Shape(system.heap, threads, lists)
    modifies system
    ensures mem == Last(Flat(lists, |lists|)) && space == Total(Front(Flat(lists, |lists|)))
    ensures system.heap == Without(old(system.heap), Front(Flat(lists, |lists|)))
    ensures system.freed == Gave(old(system.freed), Front(Flat(lists, |lists|)))
  {
    hide *;
    ghost var h, before := system.heap, system.freed;
    var serial := threads;
    mem, space := NO_MEMORY, 0;
    ghost var k: nat := 0;
    FreeStart(h, threads, lists, before);
    FreedNone(system, h, before, lists);
    while serial != NULL
      invariant k <= |lists| && (serial == NULL <==> k == |lists|) && serial == SerialAt(lists, k)
      invariant FreedSoFar(system, h, before, lists, k, mem, space)
      decreases |lists| - k
    {
      EndOfList(h, threads, lists, k + 1);
      serial, mem, space := FreeNext(system, h, before, threads, lists, k, serial, mem, space);
      k := k + 1;
    }
    FreedAll(system, h, before, lists, mem, space);
  }

  /** After the first k SerialArenas: their blocks but the last one met are gone. */
  ghost predicate FreedSoFar(system: System, h: Heap, before: Chain, lists: seq<Chain>, k: nat, mem: Memory, space: nat)
    requires k <= |lists|
    reads system
  {
    && mem == Last(Flat(lists, k)) && space == Total(Front(Flat(lists, k)))
    && system.heap == Without(h, Front(Flat(lists, k))) && system.freed == Gave(before, Front(Flat(lists, k)))
  }

  lemma FreedNone(system: System, h: Heap, before: Chain, lists: seq<Chain>)
    requires Last(Flat(lists, 0)) == NO_MEMORY && Total(Front(Flat(lists, 0))) == 0
    requires system.heap == Without(h, Front(Flat(lists, 0))) && system.freed == Gave(before, Front(Flat(lists, 0)))
    ensures FreedSoFar(system, h, before, lists, 0, NO_MEMORY, 0)
  {
    hide Last, Front, Total, Without, Gave, Flat;
  }

  lemma FreedAll(system: System, h: Heap, before: Chain, lists: seq<Chain>, mem: Memory, space: nat)
    requires FreedSoFar(system, h, before, lists, |lists|, mem, space)
    ensures mem == Last(Flat(lists, |lists|)) && space == Total(Front(Flat(lists, |lists|)))
    ensures system.heap == Without(h, Front(Flat(lists, |lists|)))
    ensures system.freed == Gave(before, Front(Flat(lists, |lists|)))
  {
    hide Last, Front, Total, Without, Gave, Flat;
  }

  /** One round of it. */
  method FreeNext(system: System, ghost h: Heap, ghost before: Chain, ghost threads: Addr, ghost lists: seq<Chain>,
                  ghost k: nat, serial: Addr, left: Memory, sofar: nat)
      returns (next: Addr, mem: Memory, space: nat)
    requires Shape(h, threads, lists) && k < |lists| && serial == SerialAt(lists, k)
    requires FreedSoFar(system, h, before, lists, k, left, sofar)
    modifies system
    ensures next == SerialAt(lists, k + 1) && FreedSoFar(system, h, before, lists, k + 1, mem, space)
  {
    hide Shape, SerialAt, Last, Front, Total, Without, Gave, Flat, Distinct, ChainAt;
    FreeFirst(h, threads, lists, k);
    GaveMore(before, Front(Flat(lists, k)), [left]);
    space := sofar;
    var more: nat;
    if left.addr != NULL {
      more := system.Deallocate(left);
      space := space + more;
    }
    FreeRest(h, threads, lists, k);
    GaveMore(before, Flat(lists, k), Front(lists[k]));
    mem, more := system.FreeSerial(serial, lists[k]);
    space := space + more;
    next := system.heap.serials[serial].next;
  }

  lemma SpaceSplits(all: Chain)
    ensures Total(all) == Total(Front(all)) + Last(all).size
    ensures all != [] ==> Front(all) + [Last(all)] == all
  {
    if all != [] {
      TotalSnoc(Front(all), Last(all));
      assert Front(all) + [Last(all)] == all;
    }
  }

  /** After Free the first block, and the policy inside it, can still be read. */
  lemma AfterFree(h: Heap, threads: Addr, lists: seq<Chain>, userOwned: bool, user: Memory, policyAt: Addr)
    requires Owns(h, threads, lists, userOwned, user, policyAt)
    ensures var all := All(lists);
      && Total(all) == Total(Front(all)) + Last(all).size
      && (Last(all).addr == NULL ==>
            all == [] && Front(all) == [] && Last(all) == NO_MEMORY && !userOwned && policyAt == NO_POLICY)
      && (Last(all).addr != NULL ==>
            && Front(all) + [Last(all)] == all
            && Last(all).addr in Without(h, Front(all)).blocks
            && Without(h, Front(all)).blocks[Last(all).addr].size == Last(all).size)
    ensures userOwned ==> Last(All(lists)) == user && user.size >= BLOCK_HEADER_SIZE + SERIAL_ARENA_SIZE
    ensures userOwned && policyAt != NO_POLICY ==> user.size >= MINIMUM_SIZE
    ensures policyAt != NO_POLICY ==>
      && policyAt in h.policies && policyAt in Without(h, Front(All(lists))).policies
      && Without(h, Front(All(lists))).policies[policyAt] == h.policies[policyAt]
  {
    SpaceSplits(All(lists));
    if |lists| > 0 {
      RecordKept(h, threads, lists, |lists| - 1);
      assert SerialOk(h, lists, |lists| - 1);
    }
    hide Without, Shape, SerialOk, Total;
  }

  /** What Free leaves over is in none of the blocks it gives back, and no block goes back twice. */
  lemma {:induction false} FreedOnce(h: Heap, threads: Addr, lists: seq<Chain>)
    requires Shape(h, threads, lists)
    ensures Distinct(All(lists)) && Distinct(Front(All(lists)))
    ensures forall m :: m in Front(All(lists)) ==> m.addr != Last(All(lists)).addr
  {
  }

  lemma EndOfList(h: Heap, threads: Addr, lists: seq<Chain>, k: nat)
    requires Shape(h, threads, lists) && k <= |lists|
    ensures SerialAt(lists, k) == NULL <==> k == |lists|
  {
    if k < |lists| { assert SerialOk(h, lists, k); }
  }

  lemma FreeStart(h: Heap, threads: Addr, lists: seq<Chain>, before: Chain)
    requires Shape(h, threads, lists)
    ensures threads == SerialAt(lists, 0) && (threads == NULL <==> 0 == |lists|)
    ensures Last(Flat(lists, 0)) == NO_MEMORY && Total(Front(Flat(lists, 0))) == 0
    ensures Without(h, Front(Flat(lists, 0))) == h && Gave(before, Front(Flat(lists, 0))) == before
  {
    EndOfList(h, threads, lists, 0);
  }

  lemma LastLive(h: Heap, threads: Addr, lists: seq<Chain>, k: nat)
    requires Shape(h, threads, lists) && 0 < k <= |lists|
    ensures var m, h' := Last(Flat(lists, k)), Without(h, Front(Flat(lists, k)));
      && Flat(lists, k) != [] && m.addr != NULL && m.addr in h'.blocks && h'.blocks[m.addr].size == m.size
  {
    RecordKept(h, threads, lists, k - 1);
    hide Without, Shape;
  }

  /** A round of PerSerialArena first gives back the block the round before it left over. */
  lemma FreeFirst(h: Heap, threads: Addr, lists: seq<Chain>, k: nat)
    requires Shape(h, threads, lists) && k < |lists|
    ensures var before, h' := Flat(lists, k), Without(h, Front(Flat(lists, k)));
      && Total(before) == Total(Front(before)) + Last(before).size
      && if Last(before).addr == NULL then Front(before) == before && Last(before).size == 0
         else (
           && Front(before) + [Last(before)] == before
           && Without(h', [Last(before)]) == Without(h, before)
           && Last(before).addr in h'.blocks && h'.blocks[Last(before).addr].size == Last(before).size)
  {
    var before := Flat(lists, k);
    SpaceSplits(before);
    if k > 0 { LastLive(h, threads, lists, k); } else { assert before == []; }
    hide Without, Shape, Total, Flat;
    WithoutMore(h, Front(before), [Last(before)]);
  }

  /** ... and then every block but the first of the next SerialArena, whose link it follows. */
  lemma FreeRest(h: Heap, threads: Addr, lists: seq<Chain>, k: nat)
    requires Shape(h, threads, lists) && k < |lists|
    ensures var h', before, after := Without(h, Flat(lists, k)), Flat(lists, k), Flat(lists, k + 1);
      && ChainAt(h', lists[k]) && Distinct(lists[k]) && lists[k] != []
      && SerialAt(lists, k) in h'.serials && h'.serials[SerialAt(lists, k)].head == lists[k][0].addr
      && Last(after) == Last(lists[k]) && before + Front(lists[k]) == Front(after)
      && Without(h', Front(lists[k])) == Without(h, Front(after))
      && Total(Front(after)) == Total(before) + Total(Front(lists[k]))
      && SerialAt(lists, k) in Without(h, Front(after)).serials
      && Without(h, Front(after)).serials[SerialAt(lists, k)].next == SerialAt(lists, k + 1)
  {
    assert SerialOk(h, lists, k);
    SerialKept(h, threads, lists, k);
    RecordKept(h, threads, lists, k);
    FrontSteps(lists, k);
    hide *;
    WithoutMore(h, Flat(lists, k), Front(lists[k]));
    TotalAppend(Flat(lists, k), Front(lists[k]));
  }
}
