/** The bump pool of HostBuffer.h: buffers carved out of a shared block of memory, moved,
    cleared, reset together, and relocated together when the pool is resized.

    Buffers and pools are named by numbers, so that a register of buffer pointers and a
    shared pointer to a pool are sets of names and names.  An address is a number and 0 is
    the null pointer.  Memory that malloc, realloc or a caller hands over is an argument. */
module HostBuffers {
  import opened Bytes
  import opened Wrappers

  type BufferId = nat
  type PoolId = nat

  /** alignmentPadding: bytes to the next multiple of 32. */
  function AlignmentPadding(p: nat): (n: nat)
    ensures n < 32 && (p + n) % 32 == 0
  {
    (DATA_ALIGNMENT - p % DATA_ALIGNMENT) % DATA_ALIGNMENT
  }

  datatype Memory = Memory(address: nat, bytes: seq<byte>)

  datatype Error = AllocationFailed | Misaligned | InsufficientMemory | InvalidSize | NotEmpty | NoPool

  /** What malloc(n) may return: nothing, or n bytes somewhere. */
  predicate MallocGives(m: Option<Memory>, n: nat) {
    m.Some? ==> m.value.address > 0 && |m.value.bytes| == n
  }

  /** What realloc(block, n) may return: nothing, or n bytes that keep the common prefix. */
  predicate ReallocGives(m: Option<Memory>, block: seq<byte>, n: nat) {
    && MallocGives(m, n)
    && (m.Some? ==> forall i | 0 <= i < |block| && i < n :: m.value.bytes[i] == block[i])
  }

  /** External memory for a pool of `size` bytes. */
  predicate External(m: Option<Memory>, size: nat) {
    m.Some? ==> m.value.address > 0 && size <= |m.value.bytes|
  }

  datatype Buffer = Buffer(pool: Option<PoolId>, size: nat, data: nat)

  const EMPTY := Buffer(None, 0, 0)

  datatype Pool =
    Pool(register: set<BufferId>, data: nat, free: nat, size: nat, padding: nat, managed: bool, block: seq<byte>)
  {
    /** Start of the aligned part of the block. */
    function Base(): nat {
      data + padding
    }

    ghost predicate Valid() {
      && data > 0 && padding == AlignmentPadding(data)
      && Base() <= free <= Base() + size
      && padding + size <= |block|
    }

    /** Pool::usage. */
    function Usage(): nat
      requires Valid()
    {
      free - data - padding
    }

    /** Pool::isFull. */
    predicate IsFull(): (full: bool)
      requires Valid()
      ensures full <==> Usage() == size > 0
    {
      size > 0 && free == data + padding + size
    }

    /** The bytes in use, from the aligned start of the block. */
    function Used(): seq<byte>
      requires Valid()
    {
      block[padding..padding + Usage()]
    }

    predicate Holds(b: Buffer) {
      b.data % DATA_ALIGNMENT == 0 && Base() <= b.data && b.data + b.size <= free
    }

    /** The bytes at a buffer's address. */
    function Contents(b: Buffer): (bytes: seq<byte>)
      requires Valid() && Holds(b)
      ensures |bytes| == b.size && forall k | 0 <= k < b.size :: bytes[k] == block[b.data - data + k]
    {
      Used()[b.data - Base()..b.data - Base() + b.size]
    }
  }

  predicate Apart(a: Buffer, b: Buffer) {
    a.data + a.size <= b.data || b.data + b.size <= a.data
  }

  /** A pool's part of consistency: its registered buffers exist, point back to it, and lie
      aligned and disjoint inside the used part of its block. */
  ghost predicate PoolOk(p: PoolId, pool: Pool, buffers: map<BufferId, Buffer>) {
    && pool.Valid()
    && (forall b | b in pool.register :: b in buffers && buffers[b].pool == Some(p) && pool.Holds(buffers[b]))
    && (forall b, c | b in pool.register && c in pool.register && b != c :: Apart(buffers[b], buffers[c]))
  }

  /** A buffer's part: the pool it points to exists, and has it registered if it uses memory. */
  ghost predicate BufferOk(b: BufferId, buffer: Buffer, pools: map<PoolId, Pool>) {
    && (buffer.pool.Some? ==> buffer.pool.value in pools)
    && (buffer.size > 0 ==> buffer.pool.Some? && b in pools[buffer.pool.value].register)
  }

  ghost predicate Consistent(buffers: map<BufferId, Buffer>, pools: map<PoolId, Pool>) {
    && (forall p | p in pools :: PoolOk(p, pools[p], buffers))
    && (forall b | b in buffers :: BufferOk(b, buffers[b], pools))
  }

  /** A buffer is in a register exactly when it points to that pool, if it uses memory. */
  lemma RegisteredIffPointing(buffers: map<BufferId, Buffer>, pools: map<PoolId, Pool>, p: PoolId, b: BufferId)
    requires Consistent(buffers, pools) && p in pools && b in buffers && buffers[b].size > 0
    ensures b in pools[p].register <==> buffers[b].pool == Some(p)
  {
    assert PoolOk(p, pools[p], buffers) && BufferOk(b, buffers[b], pools);
  }

  /** Some buffer shares in the ownership of the pool. */
  predicate Referenced(buffers: map<BufferId, Buffer>, p: PoolId) {
    exists b | b in buffers :: buffers[b].pool == Some(p)
  }

  /** A pool lives exactly as long as some buffer refers to it. */
  ghost predicate Owned(buffers: map<BufferId, Buffer>, pools: map<PoolId, Pool>) {
    forall p {:trigger Referenced(buffers, p)} | p in pools :: Referenced(buffers, p)
  }

  ghost predicate Intact(buffers: map<BufferId, Buffer>, pools: map<PoolId, Pool>) {
    Consistent(buffers, pools) && Owned(buffers, pools)
  }

  /** The pools after a reference to one of them has gone: the last one takes it along. */
  function Released(buffers: map<BufferId, Buffer>, pools: map<PoolId, Pool>, p: PoolId): map<PoolId, Pool> {
    if Referenced(buffers, p) then pools else pools - {p}
  }

  /** In a consistent state a pool that has lost its last reference has an empty register, so
      the assertion in its destructor holds. */
  lemma LastReferenceEmptiesRegister(buffers: map<BufferId, Buffer>, pools: map<PoolId, Pool>, p: PoolId)
    requires Consistent(buffers, pools) && p in pools && !Referenced(buffers, p)
    ensures pools[p].register == {}
    ensures Consistent(buffers, pools - {p})
  {
    assert PoolOk(p, pools[p], buffers);
    forall b | b in buffers ensures BufferOk(b, buffers[b], pools - {p}) {
      assert BufferOk(b, buffers[b], pools);
    }
    forall q | q in pools - {p} ensures PoolOk(q, (pools - {p})[q], buffers) {
      assert PoolOk(q, pools[q], buffers);
    }
  }

  /** Dropping one reference in a consistent state keeps the rest intact. */
  lemma ReleaseKeeps(buffers: map<BufferId, Buffer>, pools: map<PoolId, Pool>, p: PoolId)
    requires Consistent(buffers, pools) && p in pools
    requires forall q | q in pools && q != p :: Referenced(buffers, q)
    ensures Intact(buffers, Released(buffers, pools, p))
    ensures Referenced(buffers, p) || pools[p].register == {}
  {
    if !Referenced(buffers, p) {
      LastReferenceEmptiesRegister(buffers, pools, p);
    }
  }

  /** References other than those of one buffer survive what happens to that buffer. */
  lemma OthersReferenced(buffers: map<BufferId, Buffer>, b: BufferId, buffer: Buffer, q: PoolId)
    requires Referenced(buffers, q) && (b in buffers ==> buffers[b].pool != Some(q))
    ensures Referenced(buffers[b := buffer], q) && Referenced(buffers - {b}, q)
  {
    var c :| c in buffers && buffers[c].pool == Some(q);
    assert buffers[b := buffer][c] == (buffers - {b})[c] == buffers[c];
  }

  /** Registered without using memory: the state that `Create` with size zero leaves. */
  predicate RegisteredEmpty(b: BufferId, buffers: map<BufferId, Buffer>, pools: map<PoolId, Pool>)
    requires b in buffers
  {
    var buffer := buffers[b];
    buffer.size == 0 && buffer.pool.Some? && buffer.pool.value in pools && b in pools[buffer.pool.value].register
  }

  /** Operations touch a few buffers and change the registers of a few pools; what they do
      not touch stays consistent. */
  lemma KeepOthers(buffers: map<BufferId, Buffer>, pools: map<PoolId, Pool>,
                   buffers': map<BufferId, Buffer>, pools': map<PoolId, Pool>,
                   touched: set<BufferId>, changed: set<PoolId>)
    requires Consistent(buffers, pools)
    requires forall b | b in buffers && b !in touched :: b in buffers' && buffers'[b] == buffers[b]
    requires forall b | b in buffers' && b !in touched :: b in buffers
    requires forall p | p in pools' && p !in changed ::
               p in pools && pools'[p] == pools[p] && pools[p].register !! touched
    requires forall p | p in pools :: p in pools' && pools[p].register - touched <= pools'[p].register
    requires forall p | p in changed && p in pools' :: PoolOk(p, pools'[p], buffers')
    requires forall b | b in touched && b in buffers' :: BufferOk(b, buffers'[b], pools')
    ensures Consistent(buffers', pools')
  {
    forall p | p in pools' && p !in changed ensures PoolOk(p, pools'[p], buffers') {
      assert PoolOk(p, pools[p], buffers);
    }
    forall b | b in buffers' && b !in touched ensures BufferOk(b, buffers'[b], pools') {
      assert BufferOk(b, buffers[b], pools);
    }
  }

  /** The pools with the register of one of them replaced. */
  function WithRegister(pools: map<PoolId, Pool>, p: PoolId, register: set<BufferId>): map<PoolId, Pool>
    requires p in pools
  {
    pools[p := pools[p].(register := register)]
  }

  /** The pools after a buffer has left the register of its pool. */
  function UnregisteredPools(buffers: map<BufferId, Buffer>, pools: map<PoolId, Pool>, b: BufferId): map<PoolId, Pool>
    requires b in buffers
  {
    var pool := buffers[b].pool;
    if pool.None? || pool.value !in pools then pools
    else WithRegister(pools, pool.value, pools[pool.value].register - {b})
  }

  /** The pools after a buffer has given up its reference. */
  function DroppedPools(buffers: map<BufferId, Buffer>, pools: map<PoolId, Pool>, b: BufferId): map<PoolId, Pool>
    requires b in buffers
  {
    if buffers[b].pool.None? then pools else Released(buffers[b := EMPTY], pools, buffers[b].pool.value)
  }

  /** The pools after a buffer is cleared. */
  function ClearedPools(buffers: map<BufferId, Buffer>, pools: map<PoolId, Pool>, b: BufferId): map<PoolId, Pool>
    requires b in buffers
  {
    DroppedPools(buffers, UnregisteredPools(buffers, pools, b), b)
  }

  lemma ClearKeeps(buffers: map<BufferId, Buffer>, pools: map<PoolId, Pool>, b: BufferId)
    requires Consistent(buffers, pools) && b in buffers
    ensures buffers[b].pool.Some? ==> buffers[b].pool.value in pools
    ensures Consistent(buffers[b := EMPTY], UnregisteredPools(buffers, pools, b))
  {
    assert BufferOk(b, buffers[b], pools);
    assert forall p | p in pools :: PoolOk(p, pools[p], buffers);
    var changed := if buffers[b].pool.None? then {} else {buffers[b].pool.value};
    KeepOthers(buffers, pools, buffers[b := EMPTY], UnregisteredPools(buffers, pools, b), {b}, changed);
  }

  /** The others keep their references when a buffer drops its own. */
  lemma DropOwns(buffers: map<BufferId, Buffer>, pools: map<PoolId, Pool>, b: BufferId, buffer: Buffer)
    requires Owned(buffers, pools) && b in buffers
    ensures forall q | q in pools && buffers[b].pool != Some(q) :: Referenced(buffers[b := buffer], q)
  {
    forall q | q in pools && buffers[b].pool != Some(q) ensures Referenced(buffers[b := buffer], q) {
      OthersReferenced(buffers, b, buffer, q);
    }
  }

  /** Clearing keeps everything intact, and meets an empty register if it destroys the pool. */
  lemma ClearIsIntact(buffers: map<BufferId, Buffer>, pools: map<PoolId, Pool>, b: BufferId)
    requires Intact(buffers, pools) && b in buffers
    ensures buffers[b].pool.Some? ==> buffers[b].pool.value in pools
    ensures Intact(buffers[b := EMPTY], ClearedPools(buffers, pools, b))
    ensures buffers[b].pool.Some? ==> Referenced(buffers[b := EMPTY], buffers[b].pool.value)
                                      || UnregisteredPools(buffers, pools, b)[buffers[b].pool.value].register == {}
  {
    ClearKeeps(buffers, pools, b);
    DropOwns(buffers, pools, b, EMPTY);
    if buffers[b].pool.Some? {
      ReleaseKeeps(buffers[b := EMPTY], UnregisteredPools(buffers, pools, b), buffers[b].pool.value);
    }
  }

  /** The registers after one buffer takes over the memory, if any, of another. */
  function HandedOver(buffers: map<BufferId, Buffer>, pools: map<PoolId, Pool>, from: BufferId,
                      to: BufferId): map<PoolId, Pool>
    requires from in buffers
  {
    var pool := buffers[from].pool;
    if pool.None? || pool.value !in pools || buffers[from].size == 0 then pools
    else WithRegister(pools, pool.value, pools[pool.value].register - {from} + {to})
  }

  lemma TakeOver(p: PoolId, pool: Pool, buffers: map<BufferId, Buffer>, from: BufferId, to: BufferId)
    requires PoolOk(p, pool, buffers) && from in pool.register && to !in pool.register
    ensures PoolOk(p, pool.(register := pool.register - {from} + {to}), buffers[to := buffers[from]][from := EMPTY])
  {
  }

  /** One buffer takes over the memory of another. */
  lemma HandOverKeeps(buffers: map<BufferId, Buffer>, pools: map<PoolId, Pool>, from: BufferId, to: BufferId)
    requires Consistent(buffers, pools) && from in buffers && from != to
    requires buffers[from].size > 0
    requires to in buffers ==> buffers[to] == EMPTY
    requires forall p | p in pools :: to !in pools[p].register
    ensures buffers[from].pool.Some? && buffers[from].pool.value in pools
    ensures var p := buffers[from].pool.value;
            Consistent(buffers[to := buffers[from]][from := EMPTY],
                       WithRegister(pools, p, pools[p].register - {from} + {to}))
  {
    assert BufferOk(from, buffers[from], pools);
    var p := buffers[from].pool.value;
    TakeOver(p, pools[p], buffers, from, to);
    assert forall q | q in pools && q != p :: PoolOk(q, pools[q], buffers) && from !in pools[q].register;
    KeepOthers(buffers, pools, buffers[to := buffers[from]][from := EMPTY],
               WithRegister(pools, p, pools[p].register - {from} + {to}), {from, to}, {p});
  }

  /** A buffer that uses no memory and is not registered hands over its pool, if any. */
  lemma PassOnKeeps(buffers: map<BufferId, Buffer>, pools: map<PoolId, Pool>, from: BufferId, to: BufferId)
    requires Consistent(buffers, pools) && from in buffers && from != to
    requires buffers[from].size == 0 && !RegisteredEmpty(from, buffers, pools)
    requires to in buffers ==> buffers[to] == EMPTY
    requires forall p | p in pools :: to !in pools[p].register
    ensures Consistent(buffers[to := buffers[from]][from := EMPTY], pools)
  {
    assert BufferOk(from, buffers[from], pools);
    assert forall p | p in pools :: PoolOk(p, pools[p], buffers);
    KeepOthers(buffers, pools, buffers[to := buffers[from]][from := EMPTY], pools, {from, to}, {});
  }

  /** A registered buffer that does not point to its pool breaks consistency. */
  lemma StrayBreaks(buffers: map<BufferId, Buffer>, pools: map<PoolId, Pool>, p: PoolId, b: BufferId)
    requires p in pools && b in pools[p].register
    requires b in buffers ==> buffers[b].pool != Some(p)
    ensures !Consistent(buffers, pools)
  {
    assert !PoolOk(p, pools[p], buffers);
  }

  lemma UnregisteredNowhere(buffers: map<BufferId, Buffer>, pools: map<PoolId, Pool>, b: BufferId)
    requires Consistent(buffers, pools)
    requires b in buffers ==> buffers[b].pool.None?
    ensures forall p | p in pools :: b !in pools[p].register
  {
    forall p | p in pools ensures b !in pools[p].register {
      assert PoolOk(p, pools[p], buffers);
    }
  }

  /** An empty buffer may go. */
  lemma ForgetKeeps(buffers: map<BufferId, Buffer>, pools: map<PoolId, Pool>, b: BufferId)
    requires Intact(buffers, pools) && b in buffers && buffers[b] == EMPTY
    ensures Intact(buffers - {b}, pools)
  {
    UnregisteredNowhere(buffers, pools, b);
    KeepOthers(buffers, pools, buffers - {b}, pools, {b}, {});
    forall q | q in pools ensures Referenced(buffers - {b}, q) {
      assert Referenced(buffers, q);
      OthersReferenced(buffers, b, EMPTY, q);
    }
  }

  /** The pools after operator=(HostBuffer&&) between two buffers. */
  function AssignedPools(buffers: map<BufferId, Buffer>, pools: map<PoolId, Pool>, to: BufferId, from: BufferId)
    : map<PoolId, Pool>
    requires to in buffers && from in buffers
  {
    HandedOver(buffers, ClearedPools(buffers, pools, to), from, to)
  }

  /** A reference moves from one buffer to another, so every pool is as referenced as before. */
  lemma HandOverOwns(buffers: map<BufferId, Buffer>, pools: map<PoolId, Pool>, from: BufferId, to: BufferId)
    requires Owned(buffers, pools) && from in buffers && from != to && (to in buffers ==> buffers[to] == EMPTY)
    ensures Owned(buffers[to := buffers[from]][from := EMPTY], pools)
  {
    var buffers' := buffers[to := buffers[from]][from := EMPTY];
    forall p | p in pools ensures Referenced(buffers', p) {
      assert Referenced(buffers, p);
      var c :| c in buffers && buffers[c].pool == Some(p);
      assert buffers'[if c == from then to else c].pool == Some(p);
    }
  }

  lemma MoveIsIntact(buffers: map<BufferId, Buffer>, pools: map<PoolId, Pool>, from: BufferId, to: BufferId)
    requires Intact(buffers, pools) && from in buffers && from != to && (to in buffers ==> buffers[to] == EMPTY)
    ensures buffers[from].pool.Some? ==> buffers[from].pool.value in pools
    ensures Intact(buffers[to := buffers[from]][from := EMPTY], HandedOver(buffers, pools, from, to))
            <==> !RegisteredEmpty(from, buffers, pools)
  {
    assert BufferOk(from, buffers[from], pools);
    UnregisteredNowhere(buffers, pools, to);
    HandOverOwns(buffers, pools, from, to);
    if buffers[from].size > 0 {
      HandOverKeeps(buffers, pools, from, to);
    } else if !RegisteredEmpty(from, buffers, pools) {
      PassOnKeeps(buffers, pools, from, to);
    } else {
      StrayBreaks(buffers[to := buffers[from]][from := EMPTY], pools, buffers[from].pool.value, from);
    }
  }

  lemma AssignKeeps(buffers: map<BufferId, Buffer>, pools: map<PoolId, Pool>, to: BufferId, from: BufferId)
    requires Intact(buffers, pools) && to in buffers && from in buffers && to != from
    ensures Intact(buffers[to := buffers[from]][from := EMPTY], AssignedPools(buffers, pools, to, from))
            <==> !RegisteredEmpty(from, buffers, pools)
  {
    ClearIsIntact(buffers, pools, to);
    var buffers1, pools1 := buffers[to := EMPTY], ClearedPools(buffers, pools, to);
    MoveIsIntact(buffers1, pools1, from, to);
    assert buffers1[to := buffers1[from]][from := EMPTY] == buffers[to := buffers[from]][from := EMPTY];
    assert BufferOk(from, buffers[from], pools);
    assert buffers[from].pool.Some? ==> Referenced(buffers1, buffers[from].pool.value) by {
      assert buffers1[from] == buffers[from];
    }
    assert RegisteredEmpty(from, buffers1, pools1) == RegisteredEmpty(from, buffers, pools);
  }

  /** What operator= leaves of a buffer that is moved onto itself: it drops its reference, but
      if it uses memory it stays registered. */
  function SelfAssignedPools(buffers: map<BufferId, Buffer>, pools: map<PoolId, Pool>, b: BufferId): map<PoolId, Pool>
    requires b in buffers
  {
    DroppedPools(buffers, if buffers[b].size > 0 then pools else UnregisteredPools(buffers, pools, b), b)
  }

  /** Moving a buffer that uses memory onto itself leaves it in the register of a pool that it
      does not point to, or destroys a pool whose register is not empty. */
  lemma SelfAssignKeeps(buffers: map<BufferId, Buffer>, pools: map<PoolId, Pool>, b: BufferId)
    requires Intact(buffers, pools) && b in buffers
    ensures buffers[b].size == 0 ==> Intact(buffers[b := EMPTY], SelfAssignedPools(buffers, pools, b))
    ensures buffers[b].size == 0 && buffers[b].pool.Some? ==>
              && buffers[b].pool.value in pools
              && (Referenced(buffers[b := EMPTY], buffers[b].pool.value)
                  || UnregisteredPools(buffers, pools, b)[buffers[b].pool.value].register == {})
    ensures buffers[b].size > 0 ==>
              && buffers[b].pool.Some? && buffers[b].pool.value in pools && b in pools[buffers[b].pool.value].register
              && (Referenced(buffers[b := EMPTY], buffers[b].pool.value) ==>
                    !Consistent(buffers[b := EMPTY], SelfAssignedPools(buffers, pools, b)))
  {
    ClearIsIntact(buffers, pools, b);
    assert BufferOk(b, buffers[b], pools);
    if buffers[b].size > 0 && Referenced(buffers[b := EMPTY], buffers[b].pool.value) {
      StrayBreaks(buffers[b := EMPTY], pools, buffers[b].pool.value, b);
    }
  }

  /** A new pool with its first reference. */
  lemma NewPoolOwns(buffers: map<BufferId, Buffer>, pools: map<PoolId, Pool>, p: PoolId, pool: Pool, b: BufferId,
                    buffer: Buffer)
    requires Owned(buffers, pools) && buffer.pool == Some(p) && (b in buffers ==> buffers[b].pool.None?)
    ensures Owned(buffers[b := buffer], pools[p := pool])
  {
    forall q | q == p || q in pools ensures Referenced(buffers[b := buffer], q) {
      if q == p {
        assert buffers[b := buffer][b].pool == Some(p);
      } else {
        OthersReferenced(buffers, b, buffer, q);
      }
    }
  }

  lemma NewPoolKeeps(buffers: map<BufferId, Buffer>, pools: map<PoolId, Pool>, p: PoolId, pool: Pool)
    requires Consistent(buffers, pools) && p !in pools && pool.Valid() && pool.register == {}
    ensures Consistent(buffers, pools[p := pool])
  {
    KeepOthers(buffers, pools, buffers, pools[p := pool], {}, {p});
  }

  /** A buffer that no register knows may be given any pool, as long as it uses no memory. */
  lemma AttachKeeps(buffers: map<BufferId, Buffer>, pools: map<PoolId, Pool>, b: BufferId, buffer: Buffer)
    requires Consistent(buffers, pools) && buffer.size == 0
    requires forall p | p in pools :: b !in pools[p].register
    requires buffer.pool.Some? ==> buffer.pool.value in pools
    ensures Consistent(buffers[b := buffer], pools)
  {
    assert forall p | p in pools :: PoolOk(p, pools[p], buffers);
    KeepOthers(buffers, pools, buffers[b := buffer], pools, {b}, {});
  }

  /** A pool after it has given `size` bytes to a buffer. */
  function Extended(pool: Pool, b: BufferId, size: nat): Pool {
    pool.(register := pool.register + {b}, free := pool.free + AlignmentPadding(pool.free) + size)
  }

  /** The first aligned address from another. */
  predicate FirstAligned(from: nat, data: nat) {
    from <= data < from + 32 && data % 32 == 0
  }

  /** The buffer that gets them. */
  function CarvedBuffer(pool: Pool, p: PoolId, size: nat): (buffer: Buffer)
    ensures buffer.pool == Some(p) && buffer.size == size && FirstAligned(pool.free, buffer.data)
    ensures forall b :: Extended(pool, b, size).free == buffer.data + size
  {
    Buffer(Some(p), size, pool.free + AlignmentPadding(pool.free))
  }

  predicate Fits(pool: Pool, size: nat) {
    pool.free + AlignmentPadding(pool.free) + size <= pool.Base() + pool.size
  }

  lemma ExtendedOk(p: PoolId, pool: Pool, buffers: map<BufferId, Buffer>, b: BufferId, size: nat)
    requires PoolOk(p, pool, buffers) && b !in pool.register && Fits(pool, size)
    ensures PoolOk(p, Extended(pool, b, size), buffers[b := CarvedBuffer(pool, p, size)])
  {
    var pool', buffers' := Extended(pool, b, size), buffers[b := CarvedBuffer(pool, p, size)];
    forall c | c in pool'.register ensures c in buffers' && buffers'[c].pool == Some(p) && pool'.Holds(buffers'[c]) {
    }
  }

  lemma AddKeeps(buffers: map<BufferId, Buffer>, pools: map<PoolId, Pool>, p: PoolId, b: BufferId, size: nat)
    requires Consistent(buffers, pools) && p in pools && b in buffers && buffers[b].pool == Some(p)
    requires b !in pools[p].register && Fits(pools[p], size)
    ensures Consistent(buffers[b := CarvedBuffer(pools[p], p, size)],
                       pools[p := Extended(pools[p], b, size)])
  {
    ExtendedOk(p, pools[p], buffers, b, size);
    assert forall q | q in pools :: PoolOk(q, pools[q], buffers);
    KeepOthers(buffers, pools, buffers[b := CarvedBuffer(pools[p], p, size)],
               pools[p := Extended(pools[p], b, size)], {b}, {p});
  }

  /** Carving memory for a buffer that no register knows, and that may be new. */
  lemma CarveKeeps(buffers: map<BufferId, Buffer>, pools: map<PoolId, Pool>, p: PoolId, b: BufferId, size: nat)
    requires Consistent(buffers, pools) && p in pools && Fits(pools[p], size)
    requires forall q | q in pools :: b !in pools[q].register
    ensures Consistent(buffers[b := CarvedBuffer(pools[p], p, size)],
                       pools[p := Extended(pools[p], b, size)])
  {
    var attached := buffers[b := Buffer(Some(p), 0, 0)];
    AttachKeeps(buffers, pools, b, Buffer(Some(p), 0, 0));
    AddKeeps(attached, pools, p, b, size);
    var carved := CarvedBuffer(pools[p], p, size);
    assert attached[b := carved] == buffers[b := carved];
  }

  lemma CarveOwns(buffers: map<BufferId, Buffer>, pools: map<PoolId, Pool>, b: BufferId, buffer: Buffer)
    requires Owned(buffers, pools) && b !in buffers
    ensures Owned(buffers[b := buffer], pools)
  {
    forall q | q in pools ensures Referenced(buffers[b := buffer], q) {
      OthersReferenced(buffers, b, buffer, q);
    }
  }

  /** The same out of a new pool. */
  lemma CarveNewKeeps(buffers: map<BufferId, Buffer>, pools: map<PoolId, Pool>, p: PoolId, pool: Pool, b: BufferId,
                      size: nat)
    requires Consistent(buffers, pools) && p !in pools && pool.Valid() && pool.register == {} && Fits(pool, size)
    requires forall q | q in pools :: b !in pools[q].register
    ensures Consistent(buffers[b := CarvedBuffer(pool, p, size)], pools[p := Extended(pool, b, size)])
  {
    NewPoolKeeps(buffers, pools, p, pool);
    CarveKeeps(buffers, pools[p := pool], p, b, size);
    assert pools[p := pool][p := Extended(pool, b, size)] == pools[p := Extended(pool, b, size)];
  }

  /** A new pool, with room for a buffer of its whole size. */
  function NewPool(size: nat, memory: Memory, managed: bool): (pool: Pool)
    requires memory.address > 0 && AlignmentPadding(memory.address) + size <= |memory.bytes|
    ensures pool.Valid() && pool.register == {} && Fits(pool, size) && pool.Usage() == 0
  {
    var padding := AlignmentPadding(memory.address);
    Pool({}, memory.address, memory.address + padding, size, padding, managed, memory.bytes)
  }

  /** The memory of a new pool: what the caller gives, or else what malloc returns. */
  function Chosen(data: Option<Memory>, malloc: Option<Memory>): Memory
    requires data.Some? || malloc.Some?
  {
    if data.Some? then data.value else malloc.value
  }

  /** A buffer that starts at the first aligned address of some memory and ends inside it. */
  predicate Fills(buffer: Buffer, memory: Memory) {
    FirstAligned(memory.address, buffer.data) && buffer.data + buffer.size <= memory.address + |memory.bytes|
  }

  /** A pool that lies in some memory, and starts at its first aligned address. */
  ghost predicate LiesIn(pool: Pool, memory: Memory) {
    && pool.data == memory.address && FirstAligned(memory.address, pool.Base())
    && pool.block == memory.bytes && pool.Base() + pool.size <= memory.address + |memory.bytes|
  }

  /** Why creating a pool or a full buffer fails. */
  function CreateError(size: nat, data: Option<Memory>): Error {
    if size == 0 then InvalidSize else if data.Some? then Misaligned else AllocationFailed
  }

  /** Whether a pool can be made: the allocation succeeds, or external memory is aligned. */
  predicate CanMake(data: Option<Memory>, malloc: Option<Memory>) {
    if data.Some? then AlignmentPadding(data.value.address) == 0 else malloc.Some?
  }

  /** The pool Pool::Pool makes. */
  function MadePool(size: nat, data: Option<Memory>, malloc: Option<Memory>): (pool: Pool)
    requires MallocGives(malloc, size + DATA_ALIGNMENT) && External(data, size) && CanMake(data, malloc)
    ensures pool.Valid() && pool.register == {} && Fits(pool, size) && pool.Usage() == 0
    ensures pool.free == pool.Base() && pool.size == size && pool.managed == data.None?
    ensures AlignmentPadding(pool.free) == 0
    ensures LiesIn(pool, Chosen(data, malloc))
    ensures data.Some? ==> pool.Base() == data.value.address
  {
    NewPool(size, if data.Some? then data.value else malloc.value, data.None?)
  }

  /** That pool with one buffer of its whole size: the buffer and the pool are full. */
  ghost function FilledPool(b: BufferId, size: nat, data: Option<Memory>, malloc: Option<Memory>): (pool: Pool)
    requires MallocGives(malloc, size + DATA_ALIGNMENT) && External(data, size) && CanMake(data, malloc)
    ensures pool.Valid() && pool.register == {b} && pool.size == size && (size > 0 ==> pool.IsFull())
    ensures LiesIn(pool, Chosen(data, malloc)) && pool.free == pool.Base() + size && pool.managed == data.None?
  {
    Extended(MadePool(size, data, malloc), b, size)
  }

  ghost function InNewPool(p: PoolId, size: nat, data: Option<Memory>, malloc: Option<Memory>): (buffer: Buffer)
    requires MallocGives(malloc, size + DATA_ALIGNMENT) && External(data, size) && CanMake(data, malloc)
    ensures buffer.pool == Some(p) && buffer.size == size && Fills(buffer, Chosen(data, malloc))
    ensures data.Some? ==> buffer.data == data.value.address
  {
    CarvedBuffer(MadePool(size, data, malloc), p, size)
  }

  lemma FillKeeps(buffers: map<BufferId, Buffer>, pools: map<PoolId, Pool>, b: BufferId,
                  size: nat, data: Option<Memory>, malloc: Option<Memory>, p: PoolId)
    requires Consistent(buffers, pools) && p !in pools
    requires MallocGives(malloc, size + DATA_ALIGNMENT) && External(data, size) && CanMake(data, malloc)
    requires forall q | q in pools :: b !in pools[q].register
    ensures Consistent(buffers[b := InNewPool(p, size, data, malloc)], pools[p := FilledPool(b, size, data, malloc)])
  {
    CarveNewKeeps(buffers, pools, p, MadePool(size, data, malloc), b, size);
  }

  lemma FillIsIntact(buffers: map<BufferId, Buffer>, pools: map<PoolId, Pool>, b: BufferId,
                     size: nat, data: Option<Memory>, malloc: Option<Memory>, p: PoolId)
    requires Intact(buffers, pools) && p !in pools && (b in buffers ==> buffers[b].pool.None?)
    requires MallocGives(malloc, size + DATA_ALIGNMENT) && External(data, size) && CanMake(data, malloc)
    ensures Intact(buffers[b := InNewPool(p, size, data, malloc)], pools[p := FilledPool(b, size, data, malloc)])
  {
    UnregisteredNowhere(buffers, pools, b);
    FillKeeps(buffers, pools, b, size, data, malloc, p);
    NewPoolOwns(buffers, pools, p, FilledPool(b, size, data, malloc), b, InNewPool(p, size, data, malloc));
  }

  /** The buffers of a register with their pool and memory gone. */
  function Emptied(buffers: map<BufferId, Buffer>, register: set<BufferId>): map<BufferId, Buffer> {
    map c | c in buffers :: if c in register then EMPTY else buffers[c]
  }

  /** Pool::Pool fails if the allocation does, or if external memory is not aligned. */
  method MakePool(size: nat, data: Option<Memory>, malloc: Option<Memory>) returns (r: Result<Pool, Error>)
    requires MallocGives(malloc, size + DATA_ALIGNMENT) && External(data, size)
    ensures r.Ok? <==> CanMake(data, malloc)
    ensures r.Ok? ==> r.value == MadePool(size, data, malloc) && LiesIn(r.value, Chosen(data, malloc))
    ensures r.Err? ==> r.error == if data.Some? then Misaligned else AllocationFailed
  {
    if data.None? {
      if malloc.None? {
        return Err(AllocationFailed);
      }
      return Ok(NewPool(size, malloc.value, true));
    }
    if AlignmentPadding(data.value.address) != 0 {
      return Err(Misaligned);
    }
    return Ok(NewPool(size, data.value, false));
  }

  /* ---- resizing ---- */

  /** What a resize may be given: external memory of the new size (if it is the pool's own
      block, then with that block's bytes), a block from malloc that is not the pool's own, a
      block from realloc of the pool's own. */
  predicate ResizeMemory(pool: Pool, size: nat, data: Option<Memory>, malloc: Option<Memory>, realloc: Option<Memory>)
    requires pool.Valid()
  {
    && External(data, size)
    && (data.Some? && data.value.address == pool.data && pool.Usage() <= size
        ==> data.value.bytes[..pool.Usage()] == pool.Used())
    && MallocGives(malloc, size + DATA_ALIGNMENT) && (malloc.Some? ==> malloc.value.address != pool.data)
    && ReallocGives(realloc, pool.block, size + DATA_ALIGNMENT)
  }

  /** When a resize throws.  A managed pool cannot be resized to the size it has. */
  ghost predicate ResizeFails(pool: Pool, size: nat, data: Option<Memory>, malloc: Option<Memory>,
                              realloc: Option<Memory>)
    requires pool.Valid()
  {
    || pool.Usage() > size
    || (if data.Some? then AlignmentPadding(data.value.address) != 0
        else if pool.managed then size == pool.size || realloc.None?
        else malloc.None?)
  }

  /** Alignment is checked first, then the size. */
  ghost function ResizeError(pool: Pool, size: nat, data: Option<Memory>): Error
    requires pool.Valid()
  {
    if data.Some? && data.value.address % 32 != 0 then Misaligned
    else if pool.Usage() > size then InsufficientMemory
    else AllocationFailed
  }

  /** The memory a resize moves to: what the caller gives, or else what realloc returns if the
      pool owns its block, and what malloc returns if it does not. */
  ghost function Destination(pool: Pool, data: Option<Memory>, malloc: Option<Memory>, realloc: Option<Memory>): Memory
    requires data.Some? || (if pool.managed then realloc.Some? else malloc.Some?)
  {
    if data.Some? then data.value else if pool.managed then realloc.value else malloc.value
  }

  /** The same memory, whatever it contains. */
  predicate SamePlace(a: Memory, b: Memory) {
    a.address == b.address && |a.bytes| == |b.bytes|
  }

  /** The memory holds the pool's used bytes from its own first aligned address. */
  ghost predicate Carries(memory: Memory, pool: Pool, size: nat)
    requires pool.Valid()
  {
    var padding := AlignmentPadding(memory.address);
    && memory.address > 0 && pool.Usage() <= size && padding + size <= |memory.bytes|
    && memory.bytes[padding..padding + pool.Usage()] == pool.Used()
  }

  /** Pool::realloc: realloc keeps the bytes, but the new block may need another padding. */
  method ReallocBlock(pool: Pool, size: nat, realloc: Option<Memory>) returns (r: Option<Memory>)
    requires pool.Valid() && pool.Usage() <= size && ReallocGives(realloc, pool.block, size + DATA_ALIGNMENT)
    ensures r.Some? == realloc.Some?
    ensures r.Some? ==> SamePlace(r.value, realloc.value) && Carries(r.value, pool, size)
  {
    if realloc.None? {
      return None;
    }
    var memory, usage := realloc.value, pool.Usage();
    assert memory.bytes[pool.padding..pool.padding + usage] == pool.Used();
    if memory.address != pool.data {
      var padding := AlignmentPadding(memory.address);
      if padding != pool.padding {
        var moved := memory.bytes[pool.padding..pool.padding + if usage < size then usage else size];
        memory := memory.(bytes := Splice(memory.bytes, padding, moved));
      }
    }
    return Some(memory);
  }

  /** The block a resize moves to, with the bytes copied. */
  method NewBlock(pool: Pool, size: nat, data: Option<Memory>, malloc: Option<Memory>, realloc: Option<Memory>)
    returns (r: Option<Memory>)
    requires pool.Valid() && pool.Usage() <= size && ResizeMemory(pool, size, data, malloc, realloc)
    requires data.Some? ==> AlignmentPadding(data.value.address) == 0
    ensures r.None? <==> ResizeFails(pool, size, data, malloc, realloc)
    ensures r.Some? ==> Carries(r.value, pool, size) && SamePlace(r.value, Destination(pool, data, malloc, realloc))
  {
    var memory := data;
    if pool.managed && data.None? && size != pool.size {
      memory := ReallocBlock(pool, size, realloc);
    } else if !pool.managed && data.None? {
      memory := malloc;
    }
    if memory.None? {
      return None;
    }
    if memory.value.address != pool.data && !(pool.managed && data.None?) {
      var padding := AlignmentPadding(memory.value.address);
      memory := Some(memory.value.(bytes := Splice(memory.value.bytes, padding, pool.Used())));
    }
    return memory;
  }

  /** The pool in its new block. */
  function Moved(pool: Pool, size: nat, memory: Memory, managed: bool): (r: Pool)
    requires pool.Valid()
  {
    var padding := AlignmentPadding(memory.address);
    Pool(pool.register, memory.address, memory.address + padding + pool.Usage(), size, padding, managed, memory.bytes)
  }

  /** The buffers with those of a register moved by the distance between two addresses. */
  function Rebased(buffers: map<BufferId, Buffer>, register: set<BufferId>, from: nat, to: nat): map<BufferId, Buffer>
    requires forall b | b in register && b in buffers :: from <= buffers[b].data
  {
    map b | b in buffers :: if b in register then buffers[b].(data := to + (buffers[b].data - from)) else buffers[b]
  }

  /** Two states of a pool look the same to each of its buffers. */
  ghost predicate SameForItsBuffers(p: PoolId, pool: Pool, buffers: map<BufferId, Buffer>, pool': Pool,
                                    buffers': map<BufferId, Buffer>) {
    && PoolOk(p, pool, buffers) && PoolOk(p, pool', buffers')
    && pool'.register == pool.register && pool'.Usage() == pool.Usage()
    && (forall b | b in pool.register :: SameBuffer(pool, buffers[b], pool', buffers'[b]))
  }

  /** The outcome of resizing one of the pools into some memory: the rest stays as it is. */
  ghost predicate Resized(p: PoolId, size: nat, managed: bool, memory: Memory, buffers: map<BufferId, Buffer>,
                          pools: map<PoolId, Pool>, buffers': map<BufferId, Buffer>, pools': map<PoolId, Pool>)
    requires p in pools
  {
    && p in pools' && pools' == pools[p := pools'[p]]
    && pools'[p].size == size && pools'[p].managed == managed
    && SamePlace(Memory(pools'[p].data, pools'[p].block), memory)
    && buffers'.Keys == buffers.Keys
    && (forall b | b in buffers && b !in pools[p].register :: buffers'[b] == buffers[b])
    && SameForItsBuffers(p, pools[p], buffers, pools'[p], buffers')
  }

  ghost predicate SameBuffer(pool: Pool, b: Buffer, pool': Pool, b': Buffer)
    requires pool.Valid() && pool.Holds(b) && pool'.Valid() && pool'.Holds(b')
  {
    && b'.pool == b.pool && b'.size == b.size
    && b'.data - pool'.Base() == b.data - pool.Base()
    && pool'.Contents(b') == pool.Contents(b)
  }

  lemma MoveKeeps(buffers: map<BufferId, Buffer>, pools: map<PoolId, Pool>, p: PoolId, pool': Pool)
    requires Consistent(buffers, pools) && p in pools
    requires pools[p].Valid() && pool'.Valid() && pool'.register == pools[p].register && pool'.Used() == pools[p].Used()
    ensures forall b | b in pools[p].register && b in buffers :: pools[p].Base() <= buffers[b].data
    ensures var buffers' := Rebased(buffers, pools[p].register, pools[p].Base(), pool'.Base());
            Consistent(buffers', pools[p := pool']) && SameForItsBuffers(p, pools[p], buffers, pool', buffers')
  {
    var pool := pools[p];
    assert forall q | q in pools :: PoolOk(q, pools[q], buffers);
    assert |pool'.Used()| == |pool.Used()|;
    var buffers' := Rebased(buffers, pool.register, pool.Base(), pool'.Base());
    MovedOk(p, pool, buffers, pool', buffers');
    forall b | b in pool.register ensures BufferOk(b, buffers'[b], pools[p := pool']) {
    }
    KeepOthers(buffers, pools, buffers', pools[p := pool'], pool.register, {p});
  }

  /** Moving addresses changes no reference. */
  lemma RebaseOwns(buffers: map<BufferId, Buffer>, pools: map<PoolId, Pool>, register: set<BufferId>, from: nat,
                   to: nat)
    requires Owned(buffers, pools) && forall b | b in register && b in buffers :: from <= buffers[b].data
    ensures Owned(Rebased(buffers, register, from, to), pools)
  {
    forall q | q in pools ensures Referenced(Rebased(buffers, register, from, to), q) {
      assert Referenced(buffers, q);
      var c :| c in buffers && buffers[c].pool == Some(q);
      assert Rebased(buffers, register, from, to)[c].pool == Some(q);
    }
  }

  lemma AlignedAt(from: nat, data: nat, to: nat)
    requires from % DATA_ALIGNMENT == 0 && data % DATA_ALIGNMENT == 0 && to % DATA_ALIGNMENT == 0
    ensures (to + (data - from)) % DATA_ALIGNMENT == 0
  {
  }

  lemma MovedBuffer(pool: Pool, pool': Pool, b: Buffer)
    requires pool.Valid() && pool'.Valid() && pool'.Used() == pool.Used() && pool'.Usage() == pool.Usage() &&
             pool.Holds(b)
    ensures var b' := b.(data := pool'.Base() + (b.data - pool.Base()));
            pool'.Holds(b') && SameBuffer(pool, b, pool', b')
  {
    AlignedAt(pool.Base(), b.data, pool'.Base());
    assert pool'.Base() + (b.data - pool.Base()) - pool'.Base() == b.data - pool.Base();
  }

  lemma MovedOk(p: PoolId, pool: Pool, buffers: map<BufferId, Buffer>, pool': Pool, buffers': map<BufferId, Buffer>)
    requires PoolOk(p, pool, buffers)
    requires pool'.Valid() && pool'.register == pool.register && pool'.Used() == pool.Used() &&
             pool'.Usage() == pool.Usage()
    requires buffers' == Rebased(buffers, pool.register, pool.Base(), pool'.Base())
    ensures SameForItsBuffers(p, pool, buffers, pool', buffers')
  {
    forall b | b in pool.register ensures pool'.Holds(buffers'[b]) && SameBuffer(pool, buffers[b], pool', buffers'[b]) {
      MovedBuffer(pool, pool', buffers[b]);
    }
    forall b, c | b in pool.register && c in pool.register && b != c ensures Apart(buffers'[b], buffers'[c]) {
      assert Apart(buffers[b], buffers[c]);
    }
  }

  /** The pool in a new block that carries its bytes, with its buffers moved along, is what
      resize promises. */
  lemma MovedIsResized(buffers: map<BufferId, Buffer>, pools: map<PoolId, Pool>, p: PoolId, size: nat,
                       managed: bool, memory: Memory)
    requires Intact(buffers, pools) && p in pools && pools[p].Valid() && Carries(memory, pools[p], size)
    ensures pools[p].register <= buffers.Keys && forall b | b in pools[p].register :: pools[p].Base() <= buffers[b].data
    ensures var pool' := Moved(pools[p], size, memory, managed);
            var buffers' := Rebased(buffers, pools[p].register, pools[p].Base(), pool'.Base());
            && Intact(buffers', pools[p := pool'])
            && Resized(p, size, managed, memory, buffers, pools, buffers', pools[p := pool'])
  {
    var pool' := Moved(pools[p], size, memory, managed);
    assert PoolOk(p, pools[p], buffers);
    MoveKeeps(buffers, pools, p, pool');
    RebaseOwns(buffers, pools, pools[p].register, pools[p].Base(), pool'.Base());
    SameKeysOwned(Rebased(buffers, pools[p].register, pools[p].Base(), pool'.Base()), pools, pools[p := pool']);
  }

  lemma SameKeysOwned(buffers: map<BufferId, Buffer>, pools: map<PoolId, Pool>, pools': map<PoolId, Pool>)
    requires Owned(buffers, pools) && pools'.Keys == pools.Keys
    ensures Owned(buffers, pools')
  {
    forall p | p in pools' ensures Referenced(buffers, p) {
      assert p in pools.Keys;
    }
  }

  /** Some buffer that is not registered with the pool of b refers to it: its owner, say. */
  predicate ReferencedOutside(buffers: map<BufferId, Buffer>, pools: map<PoolId, Pool>, b: BufferId)
    requires b in buffers
  {
    && buffers[b].pool.Some? && buffers[b].pool.value in pools
    && Referenced(Emptied(buffers, pools[buffers[b].pool.value].register), buffers[b].pool.value)
  }

  /** The pools after a reset of one of them. */
  function ResetPools(buffers: map<BufferId, Buffer>, pools: map<PoolId, Pool>, p: PoolId): map<PoolId, Pool>
    requires p in pools
  {
    if Referenced(Emptied(buffers, pools[p].register), p)
    then pools[p := pools[p].(register := {}, free := pools[p].Base())]
    else pools - {p}
  }

  /** A pool is referenced by the other buffers, or by the one that another is assigned to. */
  lemma SameReferences(buffers: map<BufferId, Buffer>, to: BufferId, from: BufferId, p: PoolId)
    requires to in buffers && from in buffers && buffers[to].pool == Some(p)
    ensures Referenced(buffers[to := buffers[from]], p) <==> (to == from || Referenced(buffers[to := EMPTY], p))
  {
    var updated, cleared := buffers[to := buffers[from]], buffers[to := EMPTY];
    if to == from {
      assert updated[to].pool == Some(p);
    } else {
      if Referenced(updated, p) {
        var c :| c in updated && updated[c].pool == Some(p);
        assert cleared[if c == to then from else c].pool == Some(p);
      }
      if Referenced(cleared, p) {
        var c :| c in cleared && cleared[c].pool == Some(p);
        assert updated[c].pool == Some(p);
      }
    }
  }

  /** Removing a buffer and replacing it by itself leaves it in the register if it uses memory. */
  lemma KeptBySelf(buffers: map<BufferId, Buffer>, pools: map<PoolId, Pool>, b: BufferId)
    requires Intact(buffers, pools) && b in buffers
    ensures HandedOver(buffers, UnregisteredPools(buffers, pools, b), b, b)
            == if buffers[b].size > 0 then pools else UnregisteredPools(buffers, pools, b)
    ensures buffers[b].pool.Some? ==> buffers[b].pool.value in UnregisteredPools(buffers, pools, b)
  {
    assert BufferOk(b, buffers[b], pools);
    if buffers[b].size > 0 {
      var register := pools[buffers[b].pool.value].register;
      assert register - {b} - {b} + {b} == register;
    }
  }

  /** The pool of the source outlives the reference that is overwritten. */
  lemma StillThere(buffers: map<BufferId, Buffer>, pools: map<PoolId, Pool>, to: BufferId, from: BufferId)
    requires Intact(buffers, pools) && to in buffers && from in buffers && to != from && buffers[from].pool.Some?
    ensures buffers[from].pool.value in ClearedPools(buffers, pools, to)
  {
    assert BufferOk(from, buffers[from], pools);
    assert buffers[to := EMPTY][from].pool == buffers[from].pool;
    assert Referenced(buffers[to := EMPTY], buffers[from].pool.value);
  }

  predicate Registered(b: BufferId, buffers: map<BufferId, Buffer>, pools: map<PoolId, Pool>)
    requires b in buffers
  {
    var pool := buffers[b].pool;
    pool.Some? && pool.value in pools && b in pools[pool.value].register
  }

  /** The register of a pool without other references holds the last one, if anything. */
  lemma LastRegistered(buffers: map<BufferId, Buffer>, pools: map<PoolId, Pool>, b: BufferId, p: PoolId)
    requires Intact(buffers, pools) && b in buffers && buffers[b].pool == Some(p)
    ensures p in pools
    ensures !Referenced(buffers[b := buffers[b].(pool := None)], p) ==>
              (pools[p].register != {} <==> Registered(b, buffers, pools))
  {
    assert BufferOk(b, buffers[b], pools);
    assert PoolOk(p, pools[p], buffers);
    var others := buffers[b := buffers[b].(pool := None)];
    if c :| c in pools[p].register && c != b {
      assert c in others && others[c].pool == Some(p);
    }
  }

  /** A buffer without a pool refers to nothing, whatever else it holds. */
  lemma SameWithoutPool(buffers: map<BufferId, Buffer>, b: BufferId, p: PoolId)
    requires b in buffers
    ensures Referenced(buffers[b := buffers[b].(pool := None)], p) <==> Referenced(buffers[b := EMPTY], p)
  {
    var none, cleared := buffers[b := buffers[b].(pool := None)], buffers[b := EMPTY];
    forall c | c in buffers ensures none[c].pool == cleared[c].pool {
    }
  }

  /** A buffer that drops its reference without leaving the register: it stays behind in the
      register, or the pool dies with it in the register. */
  lemma DropKeeps(buffers: map<BufferId, Buffer>, pools: map<PoolId, Pool>, b: BufferId)
    requires Intact(buffers, pools) && b in buffers
    ensures buffers[b].pool.Some? ==> buffers[b].pool.value in pools
    ensures !Registered(b, buffers, pools) ==>
              && Intact(buffers[b := buffers[b].(pool := None)], DroppedPools(buffers, pools, b))
              && (buffers[b].pool.Some? ==> Referenced(buffers[b := EMPTY], buffers[b].pool.value)
                                            || pools[buffers[b].pool.value].register == {})
    ensures Registered(b, buffers, pools) && Referenced(buffers[b := EMPTY], buffers[b].pool.value) ==>
              !Consistent(buffers[b := buffers[b].(pool := None)], DroppedPools(buffers, pools, b))
  {
    assert BufferOk(b, buffers[b], pools);
    var buffers' := buffers[b := buffers[b].(pool := None)];
    if Registered(b, buffers, pools) {
      if Referenced(buffers[b := EMPTY], buffers[b].pool.value) {
        StrayBreaks(buffers', pools, buffers[b].pool.value, b);
      }
    } else {
      NotRegisteredAnywhere(buffers, pools, b);
      AttachKeeps(buffers, pools, b, buffers[b].(pool := None));
      DropOwns(buffers, pools, b, buffers[b].(pool := None));
      if buffers[b].pool.Some? {
        SameWithoutPool(buffers, b, buffers[b].pool.value);
        ReleaseKeeps(buffers', pools, buffers[b].pool.value);
      }
    }
  }

  /** A stray registration stays one when the buffer gets another pool. */
  lemma StillStray(buffers: map<BufferId, Buffer>, pools: map<PoolId, Pool>, b: BufferId, buffer: Buffer, q: PoolId,
                   p: PoolId, pool: Pool)
    requires b in buffers && buffers[b].pool == Some(q) && q in pools && b in pools[q].register && q != p
    requires buffer.pool == Some(p)
    ensures Referenced(buffers[b := EMPTY], q) ==>
            !Consistent(buffers[b := buffer], DroppedPools(buffers, pools, b)[p := pool])
  {
    if Referenced(buffers[b := EMPTY], q) {
      StrayBreaks(buffers[b := buffer], DroppedPools(buffers, pools, b)[p := pool], q, b);
    }
  }

  lemma NotRegisteredAnywhere(buffers: map<BufferId, Buffer>, pools: map<PoolId, Pool>, b: BufferId)
    requires Consistent(buffers, pools) && b in buffers && !Registered(b, buffers, pools)
    ensures forall q | q in pools :: b !in pools[q].register
  {
    forall q | q in pools ensures b !in pools[q].register {
      assert PoolOk(q, pools[q], buffers);
    }
  }

  lemma EmptiedNext(buffers: map<BufferId, Buffer>, register: set<BufferId>, rest: set<BufferId>, c: BufferId,
                    before: map<BufferId, Buffer>, after: map<BufferId, Buffer>)
    requires c in register && c in buffers && c !in rest && rest <= register
    requires before == Emptied(buffers, register - (rest + {c})) && after == before[c := EMPTY]
    ensures after == Emptied(buffers, register - rest)
  {
  }

  lemma ResetKeeps(buffers: map<BufferId, Buffer>, pools: map<PoolId, Pool>, p: PoolId)
    requires Intact(buffers, pools) && p in pools
    ensures var buffers' := Emptied(buffers, pools[p].register);
            Referenced(buffers', p) ==> Intact(buffers', ResetPools(buffers, pools, p))
  {
    var buffers' := Emptied(buffers, pools[p].register);
    var pools' := pools[p := pools[p].(register := {}, free := pools[p].Base())];
    assert forall q | q in pools :: PoolOk(q, pools[q], buffers);
    KeepOthers(buffers, pools, buffers', pools', pools[p].register, {p});
    forall q | q in pools && q != p ensures Referenced(buffers', q) {
      assert Referenced(buffers, q);
      var c :| c in buffers && buffers[c].pool == Some(q);
      assert buffers'[c] == buffers[c];
    }
  }

  /** Reset destroys no pool exactly when some buffer outside the register refers to it. */
  lemma OutsideMeansUnregistered(buffers: map<BufferId, Buffer>, pools: map<PoolId, Pool>, b: BufferId)
    requires Intact(buffers, pools) && b in buffers && buffers[b].pool.Some?
    ensures buffers[b].pool.value in pools
    ensures ReferencedOutside(buffers, pools, b) <==>
            exists c | c in buffers && c !in pools[buffers[b].pool.value].register :: buffers[c].pool == buffers[b].pool
    ensures !Registered(b, buffers, pools) ==> ReferencedOutside(buffers, pools, b)
  {
    assert BufferOk(b, buffers[b], pools);
    var p := buffers[b].pool.value;
    var buffers' := Emptied(buffers, pools[p].register);
    forall c | c in buffers
      ensures buffers'[c].pool == Some(p) <==> c !in pools[p].register && buffers[c].pool == Some(p)
    {
    }
    if Referenced(buffers', p) {
      var c :| c in buffers' && buffers'[c].pool == Some(p);
      assert c in buffers && buffers[c].pool == buffers[b].pool;
    }
  }

  class Runtime {
    var buffers: map<BufferId, Buffer>
    var pools: map<PoolId, Pool>

    /** The assertion in the destructor of some pool has failed. */
    var broken: bool

    constructor ()
      ensures buffers == map[] && pools == map[] && !broken && Sound()
    {
      buffers, pools, broken := map[], map[], false;
    }

    ghost predicate Sound()
      reads this
    {
      Intact(buffers, pools) && !broken
    }

    /** A shared pointer to a pool has gone.  If it was the last one, ~Pool runs, which
        asserts that the register is empty. */
    method Release(p: PoolId)
      modifies this`pools, this`broken
      ensures pools == Released(buffers, old(pools), p)
      ensures broken == (old(broken) || (p in old(pools) && !Referenced(buffers, p) && old(pools)[p].register != {}))
    {
      if p in pools && !Referenced(buffers, p) {
        broken := broken || pools[p].register != {};
        pools := pools - {p};
      }
    }

    /* ---- methods of the pool ---- */

    /** Pool::remove. */
    method PoolRemove(p: PoolId, b: BufferId)
      requires p in pools
      modifies this`pools
      ensures pools == WithRegister(old(pools), p, old(pools)[p].register - {b})
    {
      pools := WithRegister(pools, p, pools[p].register - {b});
    }

    /** Pool::replace: erase one buffer, insert the other. */
    method PoolReplace(p: PoolId, b1: BufferId, b2: BufferId)
      requires p in pools
      modifies this`pools
      ensures pools == WithRegister(old(pools), p, old(pools)[p].register - {b1} + {b2})
    {
      pools := WithRegister(pools, p, pools[p].register - {b1});
      pools := WithRegister(pools, p, pools[p].register + {b2});
    }

    /* ---- methods of the buffer ---- */

    /** clear(), which is also the destructor's body.  The pool may die, with an empty register. */
    method Clear(b: BufferId)
      requires Sound() && b in buffers
      modifies this
      ensures Sound()
      ensures buffers == old(buffers)[b := EMPTY] && pools == ClearedPools(old(buffers), old(pools), b)
      ensures buffers[b].pool.None? && buffers[b].size == 0 && buffers[b].data == 0
    {
      var pool := buffers[b].pool;
      ClearIsIntact(buffers, pools, b);
      if pool.Some? {
        PoolRemove(pool.value, b);
      }
      buffers := buffers[b := EMPTY];
      if pool.Some? {
        Release(pool.value);
      }
    }

    /** HostBuffer(HostBuffer&&).  The buffers stay consistent exactly when the source is not
        registered without using memory: such a buffer stays behind in the register. */
    method MoveConstruct(to: BufferId, from: BufferId)
      requires Sound() && from in buffers && to !in buffers
      modifies this`buffers, this`pools
      ensures buffers == old(buffers)[to := old(buffers)[from]][from := Buffer(None, 0, 0)]
      ensures pools == HandedOver(old(buffers), old(pools), from, to)
      ensures Sound() <==> !RegisteredEmpty(from, old(buffers), old(pools))
    {
      MoveIsIntact(buffers, pools, from, to);
      buffers := buffers[to := buffers[from]];
      if buffers[to].pool.Some? && buffers[to].size != 0 {
        PoolReplace(buffers[to].pool.value, from, to);
      }
      buffers := buffers[from := EMPTY];
    }

    /** The first half of operator=: the fields are overwritten, and with them a reference. */
    method TakeFields(to: BufferId, from: BufferId)
      requires Sound() && from in buffers && to in buffers
      modifies this
      ensures buffers == old(buffers)[to := old(buffers)[from]] && !broken
      ensures pools == if to == from then UnregisteredPools(old(buffers), old(pools), to)
                       else ClearedPools(old(buffers), old(pools), to)
    {
      ClearIsIntact(buffers, pools, to);
      var overwritten := buffers[to].pool;
      if overwritten.Some? {
        PoolRemove(overwritten.value, to);
        SameReferences(buffers, to, from, overwritten.value);
      }
      buffers := buffers[to := buffers[from]];
      if overwritten.Some? {
        Release(overwritten.value);
      }
    }

    /** The second half: the register learns the new place, and the source gives up its reference. */
    method GiveFields(to: BufferId, from: BufferId)
      requires from in buffers && to in buffers && buffers[to] == buffers[from]
      requires buffers[from].pool.Some? ==> buffers[from].pool.value in pools
      modifies this
      ensures buffers == old(buffers)[from := EMPTY]
      ensures to != from ==> broken == old(broken) && pools == HandedOver(old(buffers), old(pools), from, to)
      ensures to == from ==>
                var kept := HandedOver(old(buffers), old(pools), from, to);
                pools == DroppedPools(old(buffers), kept, from) &&
                broken == (old(broken) ||
                           (old(buffers)[from].pool.Some? && !Referenced(buffers, old(buffers)[from].pool.value)
                                           && kept[old(buffers)[from].pool.value].register != {}))
    {
      var given := buffers[from].pool;
      if buffers[to].pool.Some? && buffers[to].size != 0 {
        PoolReplace(buffers[to].pool.value, from, to);
      }
      buffers := buffers[from := EMPTY];
      assert to != from && given.Some? ==> Referenced(buffers, given.value) by {
        assert to != from ==> buffers[to].pool == given;
      }
      if given.Some? {
        Release(given.value);
      }
    }

    /** operator=(HostBuffer&&). */
    method MoveAssign(to: BufferId, from: BufferId)
      requires Sound() && from in buffers && to in buffers
      modifies this
      ensures buffers == old(buffers)[to := old(buffers)[from]][from := EMPTY]
      ensures pools == if to == from then SelfAssignedPools(old(buffers), old(pools), to)
                       else AssignedPools(old(buffers), old(pools), to, from)
      ensures Sound() <==> if to == from then old(buffers)[from].size == 0
                           else !RegisteredEmpty(from, old(buffers), old(pools))
    {
      ghost var buffers0, pools0 := buffers, pools;
      assert BufferOk(to, buffers[to], pools) && BufferOk(from, buffers[from], pools);
      TakeFields(to, from);
      if to == from {
        SelfAssignKeeps(buffers0, pools0, to);
        KeptBySelf(buffers0, pools0, to);
        assert buffers == buffers0;
        GiveFields(to, from);
      } else {
        AssignKeeps(buffers0, pools0, to, from);
        if buffers0[from].pool.Some? {
          StillThere(buffers0, pools0, to, from);
        }
        GiveFields(to, from);
      }
    }

    /** Pool::add: fails exactly when the buffer would not fit from the next aligned address. */
    method PoolAdd(p: PoolId, b: BufferId, size: nat) returns (r: Result<(), Error>)
      requires p in pools && b in buffers && buffers[b].pool == Some(p)
      modifies this`buffers, this`pools
      ensures r.Ok? <==> Fits(old(pools)[p], size)
      ensures r.Ok? ==>
                && buffers == old(buffers)[b := CarvedBuffer(old(pools)[p], p, size)]
                && pools == old(pools)[p := Extended(old(pools)[p], b, size)]
      ensures r.Err? ==> buffers == old(buffers) && pools == old(pools) && r.error == InsufficientMemory
    {
      var pool := pools[p];
      var alignedFree := pool.free + AlignmentPadding(pool.free);
      if alignedFree + size > pool.data + pool.padding + pool.size {
        return Err(InsufficientMemory);
      }
      buffers := buffers[b := Buffer(Some(p), size, alignedFree)];
      pools := pools[p := pool.(register := pool.register + {b}, free := alignedFree + size)];
      return Ok(());
    }

    /** createPool: a buffer that owns a pool and uses none of its memory. */
    method CreatePool(b: BufferId, poolSize: nat, data: Option<Memory>, malloc: Option<Memory>, p: PoolId)
      returns (r: Result<(), Error>)
      requires Sound() && b !in buffers && p !in pools
      requires MallocGives(malloc, poolSize + DATA_ALIGNMENT) && External(data, poolSize)
      modifies this`buffers, this`pools
      ensures Sound()
      ensures r.Ok? <==> poolSize > 0 && CanMake(data, malloc)
      ensures r.Ok? ==> buffers == old(buffers)[b := Buffer(Some(p), 0, 0)]
                        && pools == old(pools)[p := MadePool(poolSize, data, malloc)]
                        && LiesIn(pools[p], Chosen(data, malloc))
      ensures r.Err? ==> buffers == old(buffers) && pools == old(pools) && r.error == CreateError(poolSize, data)
    {
      if poolSize == 0 {
        return Err(InvalidSize);
      }
      var made := MakePool(poolSize, data, malloc);
      if made.Err? {
        return Err(made.error);
      }
      NewPoolKeeps(buffers, pools, p, made.value);
      NewPoolOwns(buffers, pools, p, made.value, b, Buffer(Some(p), 0, 0));
      UnregisteredNowhere(buffers, pools, b);
      pools := pools[p := made.value];
      AttachKeeps(buffers, pools, b, Buffer(Some(p), 0, 0));
      buffers := buffers[b := Buffer(Some(p), 0, 0)];
      return Ok(());
    }

    /** A new pool with the buffer in it: the common part of createFull, create and init. */
    method FillNewPool(b: BufferId, size: nat, data: Option<Memory>, malloc: Option<Memory>, p: PoolId)
      returns (r: Result<(), Error>)
      requires b in buffers && p !in pools
      requires MallocGives(malloc, size + DATA_ALIGNMENT) && External(data, size)
      modifies this`buffers, this`pools
      ensures r.Ok? <==> CanMake(data, malloc)
      ensures r.Ok? ==> buffers == old(buffers)[b := InNewPool(p, size, data, malloc)]
                        && pools == old(pools)[p := FilledPool(b, size, data, malloc)]
      ensures r.Err? ==> buffers == old(buffers) && pools == old(pools)
                         && r.error == if data.Some? then Misaligned else AllocationFailed
    {
      ghost var buffers0, pools0 := buffers, pools;
      var made := MakePool(size, data, malloc);
      if made.Err? {
        return Err(made.error);
      }
      pools := pools[p := made.value];
      buffers := buffers[b := buffers[b].(pool := Some(p))];
      r := PoolAdd(p, b, size);
      assert buffers == buffers0[b := InNewPool(p, size, data, malloc)];
      assert pools == pools0[p := FilledPool(b, size, data, malloc)];
    }

    /** createFull, and the constructor from a nonzero size when `data` is None. */
    method CreateFull(b: BufferId, bufferSize: nat, data: Option<Memory>, malloc: Option<Memory>, p: PoolId)
      returns (r: Result<(), Error>)
      requires Sound() && b !in buffers && p !in pools
      requires MallocGives(malloc, bufferSize + DATA_ALIGNMENT) && External(data, bufferSize)
      modifies this`buffers, this`pools
      ensures Sound()
      ensures r.Ok? <==> bufferSize > 0 && CanMake(data, malloc)
      ensures r.Ok? ==> buffers == old(buffers)[b := InNewPool(p, bufferSize, data, malloc)]
                        && pools == old(pools)[p := FilledPool(b, bufferSize, data, malloc)]
                        && Fills(buffers[b], Chosen(data, malloc)) && LiesIn(pools[p], Chosen(data, malloc))
      ensures r.Err? ==> buffers == old(buffers) && pools == old(pools) && r.error == CreateError(bufferSize, data)
    {
      if bufferSize == 0 {
        return Err(InvalidSize);
      }
      ghost var buffers0, pools0 := buffers, pools;
      UnregisteredNowhere(buffers, pools, b);
      buffers := buffers[b := EMPTY];
      r := FillNewPool(b, bufferSize, data, malloc, p);
      if r.Err? {
        buffers := buffers - {b};
        assert buffers == buffers0;
      } else {
        assert buffers == buffers0[b := InNewPool(p, bufferSize, data, malloc)];
        FillIsIntact(buffers0, pools0, b, bufferSize, data, malloc, p);
      }
    }

    /** create: a buffer carved out of the pool of another, or a full buffer if there is none.
        On failure nothing is left of it. */
    method Create(b: BufferId, bufferSize: nat, shared: Option<BufferId>, malloc: Option<Memory>, p: PoolId)
      returns (r: Result<(), Error>)
      requires Sound() && b !in buffers && p !in pools && (shared.Some? ==> shared.value in buffers)
      requires MallocGives(malloc, bufferSize + DATA_ALIGNMENT)
      modifies this`buffers, this`pools
      ensures Sound()
      ensures var q := if shared.Some? then old(buffers)[shared.value].pool else None;
              if q.None? then
                && (r.Ok? <==> malloc.Some?)
                && (r.Ok? ==> buffers == old(buffers)[b := InNewPool(p, bufferSize, None, malloc)]
                              && pools == old(pools)[p := FilledPool(b, bufferSize, None, malloc)]
                              && Fills(buffers[b], malloc.value) && LiesIn(pools[p], malloc.value))
                && (r.Err? ==> r.error == AllocationFailed)
              else
                && q.value in old(pools)
                && (r.Ok? <==> Fits(old(pools)[q.value], bufferSize))
                && (r.Ok? ==> buffers == old(buffers)[b := CarvedBuffer(old(pools)[q.value], q.value, bufferSize)]
                              && pools == old(pools)[q.value := Extended(old(pools)[q.value], b, bufferSize)])
                && (r.Err? ==> r.error == InsufficientMemory)
      ensures r.Err? ==> buffers == old(buffers) && pools == old(pools)
    {
      ghost var buffers0, pools0 := buffers, pools;
      UnregisteredNowhere(buffers, pools, b);
      buffers := buffers[b := EMPTY];
      if shared.None? || buffers[shared.value].pool.None? {
        r := FillNewPool(b, bufferSize, None, malloc, p);
        if r.Ok? {
          FillIsIntact(buffers0, pools0, b, bufferSize, None, malloc, p);
          assert buffers == buffers0[b := InNewPool(p, bufferSize, None, malloc)];
        }
      } else {
        assert BufferOk(shared.value, buffers0[shared.value], pools);
        assert buffers - {b} == buffers0;
        r := ShareAndAdd(shared.value, b, bufferSize);
      }
      if r.Err? {
        buffers := buffers - {b};
        assert buffers == buffers0;
      }
    }

    /** The other half of create: the buffer refers to an existing pool. */
    method ShareAndAdd(shared: BufferId, b: BufferId, size: nat) returns (r: Result<(), Error>)
      requires shared in buffers && buffers[shared].pool.Some? && buffers[shared].pool.value in pools
      requires b in buffers && b != shared && buffers[b] == EMPTY && Intact(buffers - {b}, pools)
      modifies this`buffers, this`pools
      ensures var p := old(buffers)[shared].pool.value;
              && (r.Ok? <==> Fits(old(pools)[p], size))
              && (r.Ok? ==> Intact(buffers, pools) && buffers == old(buffers)[b := CarvedBuffer(old(pools)[p], p, size)]
                            && pools == old(pools)[p := Extended(old(pools)[p], b, size)])
      ensures r.Err? ==> buffers - {b} == old(buffers) - {b} && pools == old(pools) && r.error == InsufficientMemory
    {
      ghost var buffers0, pools0 := buffers, pools;
      var p := buffers[shared].pool.value;
      buffers := buffers[b := buffers[b].(pool := buffers[shared].pool)];
      r := PoolAdd(p, b, size);
      if r.Ok? {
        UnregisteredNowhere(buffers0 - {b}, pools0, b);
        CarveKeeps(buffers0 - {b}, pools0, p, b, size);
        assert buffers == (buffers0 - {b})[b := CarvedBuffer(pools0[p], p, size)];
        CarveOwns(buffers0 - {b}, pools0, b, CarvedBuffer(pools0[p], p, size));
      } else {
        assert buffers - {b} == buffers0 - {b};
      }
    }

    /** init.  The buffer drops its reference without leaving the register, so all stays sound
        exactly when it was not registered, or when the size is rejected first. */
    method Init(b: BufferId, bufferSize: nat, data: Option<Memory>, malloc: Option<Memory>, p: PoolId)
      returns (r: Result<(), Error>)
      requires Sound() && b in buffers && p !in pools
      requires MallocGives(malloc, bufferSize + DATA_ALIGNMENT) && External(data, bufferSize)
      modifies this
      ensures Sound() <==> bufferSize == 0 || !Registered(b, old(buffers), old(pools))
      ensures broken <==> bufferSize > 0 && Registered(b, old(buffers), old(pools))
                          && old(buffers)[b].pool.value !in pools
      ensures r.Ok? <==> bufferSize > 0 && CanMake(data, malloc)
      ensures r.Ok? ==> buffers == old(buffers)[b := InNewPool(p, bufferSize, data, malloc)]
                        && pools ==
                           DroppedPools(old(buffers), old(pools), b)[p := FilledPool(b, bufferSize, data, malloc)]
                        && Fills(buffers[b], Chosen(data, malloc)) && LiesIn(pools[p], Chosen(data, malloc))
      ensures r.Err? ==> r.error == CreateError(bufferSize, data)
      ensures r.Err? && bufferSize == 0 ==> buffers == old(buffers) && pools == old(pools)
      ensures r.Err? && bufferSize > 0 ==> buffers == old(buffers)[b := old(buffers)[b].(pool := None)]
                                           && pools == DroppedPools(old(buffers), old(pools), b)
    {
      if bufferSize == 0 {
        return Err(InvalidSize);
      }
      ghost var buffers0, pools0 := buffers, pools;
      var dropped := buffers[b].pool;
      buffers := buffers[b := buffers[b].(pool := None)];
      if dropped.Some? {
        SameWithoutPool(buffers0, b, dropped.value);
        LastRegistered(buffers0, pools0, b, dropped.value);
        Release(dropped.value);
      }
      assert pools == DroppedPools(buffers0, pools0, b);
      DropKeeps(buffers0, pools0, b);
      ghost var buffers1, pools1 := buffers, pools;
      r := FillNewPool(b, bufferSize, data, malloc, p);
      if r.Ok? {
        assert buffers == buffers0[b := InNewPool(p, bufferSize, data, malloc)];
        if Registered(b, buffers0, pools0) {
          StillStray(buffers0, pools0, b, buffers[b], buffers0[b].pool.value, p, pools[p]);
        } else {
          FillIsIntact(buffers1, pools1, b, bufferSize, data, malloc, p);
        }
      }
    }

    /** The end of a buffer's life. */
    method Destroy(b: BufferId)
      requires Sound() && b in buffers
      modifies this
      ensures Sound()
      ensures buffers == old(buffers) - {b} && pools == ClearedPools(old(buffers), old(pools), b)
    {
      Clear(b);
      ForgetKeeps(buffers, pools, b);
      buffers := buffers - {b};
    }

    /** reset(): only an empty buffer with a pool may call it.  Afterwards no buffer is
        registered with the pool, and all of its memory is available again; unless all
        references to the pool were registered, and the last of them took it along. */
    method Reset(b: BufferId) returns (r: Result<(), Error>)
      requires Sound() && b in buffers
      modifies this
      ensures Sound() <==> r.Err? || ReferencedOutside(old(buffers), old(pools), b)
      ensures r.Ok? <==> old(buffers)[b].size == 0 && old(buffers)[b].pool.Some?
      ensures r.Ok? ==>
                var p := old(buffers)[b].pool.value;
                && p in old(pools) && buffers == Emptied(old(buffers), old(pools)[p].register)
                && pools == ResetPools(old(buffers), old(pools), p)
      ensures r.Err? ==> buffers == old(buffers) && pools == old(pools)
                         && r.error == if old(buffers)[b].size > 0 then NotEmpty else NoPool
    {
      if buffers[b].size > 0 {
        return Err(NotEmpty);
      }
      if buffers[b].pool.None? {
        return Err(NoPool);
      }
      assert BufferOk(b, buffers[b], pools);
      PoolReset(buffers[b].pool.value);
      return Ok(());
    }

    /** The loop of Pool::reset: every registered buffer drops its reference.  The pool can only
        die with the last of them, and then its register, which is cleared after the loop, is
        not empty. */
    method EmptyAll(p: PoolId)
      requires p in pools && !broken && Referenced(buffers, p)
      requires forall d | d in pools[p].register :: d in buffers && buffers[d].pool == Some(p)
      modifies this
      ensures buffers == Emptied(old(buffers), old(pools)[p].register)
      ensures pools == Released(buffers, old(pools), p) && broken == !Referenced(buffers, p)
    {
      ghost var register := pools[p].register;
      var rest := pools[p].register;
      assert buffers == Emptied(buffers, {});
      while rest != {}
        invariant rest <= register <= old(buffers).Keys && buffers == Emptied(old(buffers), register - rest)
        invariant rest != {} ==> pools == old(pools) && !broken
        invariant rest == {} ==> pools == Released(buffers, old(pools), p) && broken == !Referenced(buffers, p)
        decreases rest
      {
        var c :| c in rest;
        rest := rest - {c};
        ghost var before := buffers;
        EmptyOne(p, c, rest);
        EmptiedNext(old(buffers), register, rest, c, before, buffers);
      }
    }

    method EmptyOne(p: PoolId, c: BufferId, rest: set<BufferId>)
      requires c in buffers && p in pools && !broken && c !in rest && pools[p].register != {}
      requires forall d | d in rest :: d in buffers && buffers[d].pool == Some(p)
      modifies this
      ensures buffers == old(buffers)[c := EMPTY]
      ensures pools == Released(buffers, old(pools), p) && broken == !Referenced(buffers, p)
      ensures rest != {} ==> pools == old(pools) && !broken
    {
      buffers := buffers[c := EMPTY];
      if rest != {} {
        var d :| d in rest;
        assert buffers[d].pool == Some(p);
      }
      Release(p);
    }

    /** Pool::reset: every registered buffer loses its pool and becomes empty. */
    method PoolReset(p: PoolId)
      requires Sound() && p in pools
      modifies this
      ensures buffers == Emptied(old(buffers), old(pools)[p].register) &&
              pools == ResetPools(old(buffers), old(pools), p)
      ensures Sound() <==> Referenced(Emptied(old(buffers), old(pools)[p].register), p)
    {
      ResetKeeps(buffers, pools, p);
      assert PoolOk(p, pools[p], buffers);
      EmptyAll(p);
      if p in pools {
        pools := pools[p := pools[p].(register := {}, free := pools[p].data + pools[p].padding)];
      }
    }

    /** The loop of Pool::resize over the register. */
    method RebaseAll(register: set<BufferId>, from: nat, to: nat)
      requires register <= buffers.Keys && forall b | b in register :: from <= buffers[b].data
      modifies this`buffers
      ensures buffers == Rebased(old(buffers), register, from, to)
    {
      var rest := register;
      while rest != {}
        invariant rest <= register <= old(buffers).Keys && buffers == Rebased(old(buffers), register - rest, from, to)
        decreases rest
      {
        var c :| c in rest;
        buffers := buffers[c := buffers[c].(data := to + (buffers[c].data - from))];
        rest := rest - {c};
      }
    }

    /** The updates at the end of Pool::resize: addresses change only if the block did. */
    method Relocate(p: PoolId, size: nat, memory: Memory, managed: bool)
      requires p in pools && pools[p].Valid() && pools[p].register <= buffers.Keys
      requires forall b | b in pools[p].register :: pools[p].Base() <= buffers[b].data
      modifies this`buffers, this`pools
      ensures pools == old(pools)[p := Moved(old(pools)[p], size, memory, managed)]
      ensures buffers == Rebased(old(buffers), old(pools)[p].register, old(pools)[p].Base(), pools[p].Base())
    {
      var pool := pools[p];
      if memory.address != pool.data {
        var padding := AlignmentPadding(memory.address);
        RebaseAll(pool.register, pool.Base(), memory.address + padding);
        pool := pool.(free := memory.address + padding + pool.Usage(), data := memory.address, padding := padding);
      }
      pools := pools[p := pool.(size := size, managed := managed, block := memory.bytes)];
    }

    /** Pool::resize: every buffer of the pool keeps its size, its offset from the pool's start,
        its alignment and its bytes, in whatever block the pool ends up. */
    method PoolResize(p: PoolId, size: nat, data: Option<Memory>, malloc: Option<Memory>, realloc: Option<Memory>)
      returns (r: Result<(), Error>)
      requires Sound() && p in pools && ResizeMemory(pools[p], size, data, malloc, realloc)
      modifies this`buffers, this`pools
      ensures Sound()
      ensures r.Err? <==> ResizeFails(old(pools)[p], size, data, malloc, realloc)
      ensures r.Err? ==> buffers == old(buffers) && pools == old(pools)
      ensures r.Err? ==> r.error == ResizeError(old(pools)[p], size, data)
      ensures r.Ok? ==>
                var memory := Destination(old(pools)[p], data, malloc, realloc);
                Resized(p, size, data.None?, memory, old(buffers), old(pools), buffers, pools)
    {
      assert PoolOk(p, pools[p], buffers);
      var pool := pools[p];
      if data.Some? && AlignmentPadding(data.value.address) != 0 {
        return Err(Misaligned);
      }
      if pool.Usage() > size {
        return Err(InsufficientMemory);
      }
      var memory := NewBlock(pool, size, data, malloc, realloc);
      if memory.None? {
        return Err(AllocationFailed);
      }
      MovedIsResized(buffers, pools, p, size, data.None?, memory.value);
      Relocate(p, size, memory.value, data.None?);
      return Ok(());
    }

    /** resizePool. */
    method ResizePool(b: BufferId, size: nat, data: Option<Memory>, malloc: Option<Memory>, realloc: Option<Memory>)
      returns (r: Result<(), Error>)
      requires Sound() && b in buffers
      requires buffers[b].pool.Some? && buffers[b].pool.value in pools
               ==> ResizeMemory(pools[buffers[b].pool.value], size, data, malloc, realloc)
      modifies this`buffers, this`pools
      ensures Sound()
      ensures r.Err? ==> buffers == old(buffers) && pools == old(pools)
      ensures var pool := old(buffers)[b].pool;
              if pool.None? then r.Err? else
                && pool.value in old(pools) && old(pools)[pool.value].Valid()
                && (r.Err? <==> ResizeFails(old(pools)[pool.value], size, data, malloc, realloc))
                && (r.Ok? ==>
                      var memory := Destination(old(pools)[pool.value], data, malloc, realloc);
                      Resized(pool.value, size, data.None?, memory, old(buffers), old(pools), buffers, pools))
                && (r.Err? ==> r.error == ResizeError(old(pools)[pool.value], size, data))
      ensures old(buffers)[b].pool.None? ==> r == Err(NoPool)
    {
      if buffers[b].pool.None? {
        return Err(NoPool);
      }
      assert BufferOk(b, buffers[b], pools);
      assert PoolOk(buffers[b].pool.value, pools[buffers[b].pool.value], buffers);
      r := PoolResize(buffers[b].pool.value, size, data, malloc, realloc);
    }
  }
}
