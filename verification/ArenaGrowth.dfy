/** How the blocks of a SerialArena grow: they double up to the limit of the policy. */
module ArenaGrowth {
  import opened SerialArenas
  import opened SerialArenaProperties

  /** The right size of a block that follows one of `last` bytes and must hold `bytes`: twice the
      last one or the limit, whichever is smaller, unless header and bytes need more. */
  ghost predicate SizedAfter(policy: Policy, last: nat, bytes: nat, size: nat) {
    var needed := BLOCK_HEADER_SIZE + bytes;
    && size >= needed && (size >= 2 * last || size >= policy.maxBlockSize)
    && (size > needed ==>
          && (size == 2 * last || size == policy.maxBlockSize)
          && size <= 2 * last && size <= policy.maxBlockSize)
  }

  function Wanted(r: Request): nat { r.n + r.nodes * CLEANUP_SIZE }

  /** A request is served from the head block if and only if its bytes are left there; otherwise by
      one new block of the right size. */
  lemma {:induction false} BlockOnlyWhenFull(s: Serial, policy: Policy, r: Request)
    requires Serves(s, policy, r)
    ensures s.blocks != [] && s.ptr <= s.limit
    ensures var t := Allocated(s, r.n, r.nodes, r.mem);
      && |t.blocks| == |s.blocks| + (if s.ptr + Wanted(r) <= s.limit then 0 else 1)
      && (forall i :: 0 <= i < |s.blocks| ==> t.blocks[i].size == s.blocks[i].size)
      && (|t.blocks| > |s.blocks| ==>
            SizedAfter(policy, s.blocks[|s.blocks| - 1].size, Wanted(r), t.blocks[|s.blocks|].size))
  {
    assert BlockInv(s, |s.blocks| - 1);
    assert HeadSize(s) >= BLOCK_HEADER_SIZE;
    hide Inv, FreshBlock, BlockInv;
  }

  /** Block i of a run was added for one of the requests. */
  ghost predicate AddedFor(policy: Policy, rs: seq<Request>, t: Serial, i: nat) {
    0 < i < |t.blocks|
    && exists r :: r in rs && SizedAfter(policy, t.blocks[i - 1].size, Wanted(r), t.blocks[i].size)
  }

  ghost predicate SameSizes(s: Serial, t: Serial) {
    |s.blocks| <= |t.blocks| && forall i :: 0 <= i < |s.blocks| ==> t.blocks[i].size == s.blocks[i].size
  }

  /** Over every run each later block has the right size after its predecessor, for some request of
      the run; earlier blocks keep theirs. */
  lemma {:induction false} RunGrows(s: Serial, policy: Policy, rs: seq<Request>, t: Serial)
    requires Runs(s, policy, rs, t)
    ensures SameSizes(s, t)
    ensures forall i :: |s.blocks| <= i < |t.blocks| && i > 0 ==> AddedFor(policy, rs, t, i)
    decreases |rs|
  {
    if rs != [] {
      var r := rs[0];
      var u := Allocated(s, r.n, r.nodes, r.mem);
      BlockOnlyWhenFull(s, policy, r);
      RunGrows(u, policy, rs[1..], t);
      hide Runs, Serves, Allocated, SizedAfter;
      forall i | |s.blocks| <= i < |t.blocks| && i > 0 ensures AddedFor(policy, rs, t, i) {
        if i < |u.blocks| {
          assert t.blocks[i].size == u.blocks[i].size && t.blocks[i - 1].size == s.blocks[i - 1].size;
          assert r in rs;
        } else {
          assert AddedFor(policy, rs[1..], t, i);
          var later :| later in rs[1..]
            && SizedAfter(policy, t.blocks[i - 1].size, Wanted(later), t.blocks[i].size);
          assert later in rs;
        }
      }
    }
  }

  function Doubled(size: nat, i: nat): nat {
    if i == 0 then size else 2 * Doubled(size, i - 1)
  }

  /** From a new arena: block i is at least 2^i times as large as the first one, or as the limit. */
  lemma {:induction false} SizesDouble(mem: Memory, policy: Policy, rs: seq<Request>, t: Serial, i: nat)
    requires BLOCK_HEADER_SIZE + SERIAL_ARENA_SIZE <= mem.size && Runs(NewSerial(mem), policy, rs, t)
    requires i < |t.blocks|
    ensures t.blocks[i].size >= Doubled(mem.size, i) || t.blocks[i].size >= policy.maxBlockSize
  {
    RunGrows(NewSerial(mem), policy, rs, t);
    if i > 0 {
      SizesDouble(mem, policy, rs, t, i - 1);
      assert AddedFor(policy, rs, t, i);
    }
    hide Runs;
  }

  /** When no request needs more than the second block offers, the sizes are exactly those. */
  lemma {:induction false} SizesDoubleExactly(mem: Memory, policy: Policy, rs: seq<Request>, t: Serial, i: nat)
    requires BLOCK_HEADER_SIZE + SERIAL_ARENA_SIZE <= mem.size && Runs(NewSerial(mem), policy, rs, t)
    requires 0 < i < |t.blocks|
    requires forall r :: r in rs ==>
      BLOCK_HEADER_SIZE + Wanted(r) <= 2 * mem.size && BLOCK_HEADER_SIZE + Wanted(r) <= policy.maxBlockSize
    ensures var size := t.blocks[i].size;
      size == if Doubled(mem.size, i) <= policy.maxBlockSize then Doubled(mem.size, i) else policy.maxBlockSize
  {
    RunGrows(NewSerial(mem), policy, rs, t);
    assert AddedFor(policy, rs, t, i);
    if i > 1 { SizesDoubleExactly(mem, policy, rs, t, i - 1); }
    DoubledGrows(mem.size, i - 1);
    hide Runs;
  }

  lemma {:induction false} DoubledGrows(size: nat, i: nat)
    ensures Doubled(size, i) >= size
  {
    if i > 0 { DoubledGrows(size, i - 1); }
  }

  /** The first block of a SerialArena, and of an arena that keeps a policy: the start size when that
      is enough. */
  lemma {:induction false} FirstBlockSize(policy: Policy, bytes: nat)
    ensures BlockSize(policy, 0, bytes)
      == if BLOCK_HEADER_SIZE + bytes <= policy.startBlockSize then policy.startBlockSize else BLOCK_HEADER_SIZE + bytes
    ensures BlockSize(DEFAULT_POLICY, 0, SERIAL_ARENA_SIZE) == 256
  {
  }
}
