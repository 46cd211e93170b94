/** Whole runs of HostBuffer operations: which states are reachable. */
module HostBufferRuns {
  import opened Bytes
  import opened HostBuffers
  import opened Traces
  import opened Wrappers

  /** A call, with the memory that the system or the caller provides for it. */
  datatype Command =
    | CallCreatePool(b: BufferId, size: nat, data: Option<Memory>, malloc: Option<Memory>, p: PoolId)
    | CallCreateFull(b: BufferId, size: nat, data: Option<Memory>, malloc: Option<Memory>, p: PoolId)
    | CallCreate(b: BufferId, size: nat, shared: Option<BufferId>, malloc: Option<Memory>, p: PoolId)
    | CallInit(b: BufferId, size: nat, data: Option<Memory>, malloc: Option<Memory>, p: PoolId)
    | CallMoveConstruct(to: BufferId, from: BufferId)
    | CallMoveAssign(to: BufferId, from: BufferId)
    | CallClear(b: BufferId)
    | CallDestroy(b: BufferId)
    | CallReset(b: BufferId)
    | CallResizePool(b: BufferId, size: nat, data: Option<Memory>, malloc: Option<Memory>, realloc: Option<Memory>)

  type BufferMap = map<BufferId, Buffer>
  type PoolMap = map<PoolId, Pool>

  /** The calls that make sense: the buffers are there, new ones are not, memory is what the
      system may provide. */
  predicate Legal(c: Command, buffers: BufferMap, pools: PoolMap)
    requires Consistent(buffers, pools)
  {
    match c
    case CallCreatePool(b, size, data, malloc, p) =>
      b !in buffers && p !in pools && MallocGives(malloc, size + DATA_ALIGNMENT) && External(data, size)
    case CallCreateFull(b, size, data, malloc, p) =>
      b !in buffers && p !in pools && MallocGives(malloc, size + DATA_ALIGNMENT) && External(data, size)
    case CallCreate(b, size, shared, malloc, p) =>
      && b !in buffers && p !in pools && (shared.Some? ==> shared.value in buffers)
      && MallocGives(malloc, size + DATA_ALIGNMENT)
    case CallInit(b, size, data, malloc, p) =>
      b in buffers && p !in pools && MallocGives(malloc, size + DATA_ALIGNMENT) && External(data, size)
    case CallMoveConstruct(to, from) => from in buffers && to !in buffers
    case CallMoveAssign(to, from) => from in buffers && to in buffers
    case CallClear(b) => b in buffers
    case CallDestroy(b) => b in buffers
    case CallReset(b) => b in buffers
    case CallResizePool(b, size, data, malloc, realloc) =>
      && b in buffers
      && (buffers[b].pool.Some? && buffers[b].pool.value in pools ==>
            assert PoolOk(buffers[b].pool.value, pools[buffers[b].pool.value], buffers);
            ResizeMemory(pools[buffers[b].pool.value], size, data, malloc, realloc))
  }

  /** The calls that keep the registers right.  Four kinds of legal calls do not: init on a
      registered buffer, moving a buffer that is registered with size zero, moving a buffer
      that uses memory onto itself, and reset of a pool that only registered buffers own. */
  predicate Keeps(c: Command, buffers: BufferMap, pools: PoolMap)
    requires Consistent(buffers, pools) && Legal(c, buffers, pools)
  {
    match c
    case CallInit(b, size, _, _, _) => size == 0 || !Registered(b, buffers, pools)
    case CallMoveConstruct(_, from) => !RegisteredEmpty(from, buffers, pools)
    case CallMoveAssign(to, from) =>
      if to == from then buffers[from].size == 0 else !RegisteredEmpty(from, buffers, pools)
    case CallReset(b) => buffers[b].size > 0 || buffers[b].pool.None? || ReferencedOutside(buffers, pools, b)
    case _ => true
  }

  predicate Allowed(c: Command, buffers: BufferMap, pools: PoolMap)
    requires Consistent(buffers, pools)
  {
    Legal(c, buffers, pools) && Keeps(c, buffers, pools)
  }

  type State = (BufferMap, PoolMap)

  /** What a call does to the buffers and the pools. */
  ghost predicate Effect(c: Command, s: State, s': State)
    requires Consistent(s.0, s.1) && Legal(c, s.0, s.1)
  {
    match c
    case CallCreatePool(b, size, data, malloc, p) =>
      s' == if size > 0 && CanMake(data, malloc)
            then (s.0[b := Buffer(Some(p), 0, 0)], s.1[p := MadePool(size, data, malloc)]) else s
    case CallCreateFull(b, size, data, malloc, p) =>
      s' == if size > 0 && CanMake(data, malloc) then Filled(s, b, size, data, malloc, p) else s
    case CallCreate(b, size, shared, malloc, p) =>
      if shared.None? || s.0[shared.value].pool.None? then
        s' == if malloc.Some? then Filled(s, b, size, None, malloc, p) else s
      else
        var q := s.0[shared.value].pool.value;
        && q in s.1
        && s' == if Fits(s.1[q], size)
                 then (s.0[b := CarvedBuffer(s.1[q], q, size)], s.1[q := Extended(s.1[q], b, size)]) else s
    case CallInit(b, size, data, malloc, p) =>
      s' == if size == 0 then s
            else
              var dropped := DroppedPools(s.0, s.1, b);
              if CanMake(data, malloc) then Filled((s.0, dropped), b, size, data, malloc, p)
              else (s.0[b := s.0[b].(pool := None)], dropped)
    case CallMoveConstruct(to, from) =>
      s' == (s.0[to := s.0[from]][from := EMPTY], HandedOver(s.0, s.1, from, to))
    case CallMoveAssign(to, from) =>
      s' == (s.0[to := s.0[from]][from := EMPTY],
             if to == from then SelfAssignedPools(s.0, s.1, to) else AssignedPools(s.0, s.1, to, from))
    case CallClear(b) => s' == (s.0[b := EMPTY], ClearedPools(s.0, s.1, b))
    case CallDestroy(b) => s' == (s.0 - {b}, ClearedPools(s.0, s.1, b))
    case CallReset(b) =>
      if s.0[b].size > 0 || s.0[b].pool.None? then s' == s
      else
        var p := s.0[b].pool.value;
        p in s.1 && s' == (Emptied(s.0, s.1[p].register), ResetPools(s.0, s.1, p))
    case CallResizePool(b, size, data, malloc, realloc) =>
      if s.0[b].pool.None? then s' == s
      else
        var p := s.0[b].pool.value;
        && p in s.1 && s.1[p].Valid()
        && if ResizeFails(s.1[p], size, data, malloc, realloc) then s' == s
           else Resized(p, size, data.None?, Destination(s.1[p], data, malloc, realloc), s.0, s.1, s'.0, s'.1)
  }

  ghost function Filled(s: State, b: BufferId, size: nat, data: Option<Memory>, malloc: Option<Memory>,
                        p: PoolId): State
    requires MallocGives(malloc, size + DATA_ALIGNMENT) && External(data, size) && CanMake(data, malloc)
  {
    (s.0[b := InNewPool(p, size, data, malloc)], s.1[p := FilledPool(b, size, data, malloc)])
  }

  /** From a sound state, a legal call leads to a sound state exactly when it keeps the
      registers right. */
  method Dispatch(runtime: Runtime, c: Command)
    requires runtime.Sound() && Legal(c, runtime.buffers, runtime.pools)
    modifies runtime
    ensures runtime.Sound() <==> Keeps(c, old(runtime.buffers), old(runtime.pools))
    ensures Effect(c, old((runtime.buffers, runtime.pools)), (runtime.buffers, runtime.pools))
  {
    match c {
      case CallCreatePool(b, size, data, malloc, p) => var _ := runtime.CreatePool(b, size, data, malloc, p);
      case CallCreateFull(b, size, data, malloc, p) => var _ := runtime.CreateFull(b, size, data, malloc, p);
      case CallCreate(b, size, shared, malloc, p) => var _ := runtime.Create(b, size, shared, malloc, p);
      case CallInit(b, size, data, malloc, p) => var _ := runtime.Init(b, size, data, malloc, p);
      case CallMoveConstruct(to, from) => runtime.MoveConstruct(to, from);
      case CallMoveAssign(to, from) => runtime.MoveAssign(to, from);
      case CallClear(b) => runtime.Clear(b);
      case CallDestroy(b) => runtime.Destroy(b);
      case CallReset(b) => var _ := runtime.Reset(b);
      case CallResizePool(b, size, data, malloc, realloc) =>
        var _ := runtime.ResizePool(b, size, data, malloc, realloc);
    }
  }

  /** An aligned buffer inside the memory of a pool. */
  ghost predicate LiesInside(b: Buffer, pool: Pool) {
    b.data % 32 == 0 && pool.data <= b.data && b.data + b.size <= pool.data + |pool.block|
  }

  /** What the documentation promises of a state, buffer by buffer and pool by pool. */
  ghost predicate Safe(buffers: BufferMap, pools: PoolMap) {
    && (forall p, b | p in pools && b in buffers && buffers[b].size > 0 ::
          b in pools[p].register <==> buffers[b].pool == Some(p))
    && (forall p | p in pools ::
          pools[p].Valid() && forall b | b in pools[p].register ::
            b in buffers && pools[p].Holds(buffers[b]) && LiesInside(buffers[b], pools[p]))
    && (forall p, b, c | p in pools && b in pools[p].register && c in pools[p].register && b != c ::
          || buffers[b].data + buffers[b].size <= buffers[c].data
          || buffers[c].data + buffers[c].size <= buffers[b].data)
    && (forall p | p in pools :: Referenced(buffers, p))
  }

  lemma IntactIsSafe(buffers: BufferMap, pools: PoolMap)
    requires Intact(buffers, pools)
    ensures Safe(buffers, pools)
  {
    forall p | p in pools ensures PoolOk(p, pools[p], buffers) && Referenced(buffers, p) {
    }
    forall p, b | p in pools && b in buffers && buffers[b].size > 0
      ensures b in pools[p].register <==> buffers[b].pool == Some(p)
    {
      RegisteredIffPointing(buffers, pools, p, b);
    }
  }

  /** Calls that are not allowed are not made. */
  ghost predicate IsStep(s: State, c: Command, ok: bool, s': State) {
    && Intact(s.0, s.1) && Intact(s'.0, s'.1) && ok == Allowed(c, s.0, s.1)
    && if ok then Effect(c, s, s') else s' == s
  }

  method Step(runtime: Runtime, c: Command) returns (ok: bool)
    requires runtime.Sound()
    modifies runtime
    ensures runtime.Sound()
    ensures IsStep(old((runtime.buffers, runtime.pools)), c, ok, (runtime.buffers, runtime.pools))
  {
    ok := Allowed(c, runtime.buffers, runtime.pools);
    if ok {
      Dispatch(runtime, c);
    }
  }

  /** Starting from nothing, every run of allowed calls goes through safe states only, and the
      assertion in the destructor of a pool never fails. */
  method RunCommands(commands: seq<Command>) returns (runtime: Runtime, made: seq<bool>, ghost states: seq<State>)
    ensures fresh(runtime) && !runtime.broken
    ensures |made| == |commands| && IsHistory(IsStep, states, commands, made)
    ensures states[0] == (map[], map[]) && states[|commands|] == (runtime.buffers, runtime.pools)
    ensures forall k | 0 <= k <= |commands| :: Safe(states[k].0, states[k].1)
  {
    runtime := new Runtime();
    made, states := [], [(runtime.buffers, runtime.pools)];
    while |made| < |commands|
      invariant fresh(runtime) && runtime.Sound()
      invariant |made| <= |commands| && IsHistory(IsStep, states, commands, made)
      invariant states[0] == (map[], map[]) && states[|made|] == (runtime.buffers, runtime.pools)
    {
      var ok := Step(runtime, commands[|made|]);
      ExtendHistory(IsStep, states, commands, made, ok, (runtime.buffers, runtime.pools));
      made, states := made + [ok], states + [(runtime.buffers, runtime.pools)];
    }
    HistoryIsSafe(states, commands, made);
  }

  lemma HistoryIsSafe(states: seq<State>, commands: seq<Command>, made: seq<bool>)
    requires |made| == |commands| && IsHistory(IsStep, states, commands, made) && states[0] == (map[], map[])
    ensures forall k | 0 <= k <= |commands| :: Safe(states[k].0, states[k].1)
  {
    forall k | 0 <= k <= |commands| ensures Safe(states[k].0, states[k].1) {
      if k > 0 {
        assert IsStep(states[k - 1], commands[k - 1], made[k - 1], states[k - 1 + 1]);
      }
      IntactIsSafe(states[k].0, states[k].1);
    }
  }

  /* ---- the four kinds of calls that break the register ---- */

  function SomeMemory(): (m: Option<Memory>)
    ensures m.Some? && MallocGives(m, DATA_ALIGNMENT)
  {
    Some(Memory(DATA_ALIGNMENT, seq(DATA_ALIGNMENT, i => 0)))
  }

  lemma OneEntry<V>(before: map<nat, V>, after: map<nat, V>, v: V)
    requires before == map[] && after == before[0 := v]
    ensures after == map[0 := v]
  {
  }

  /** create(0) makes a buffer that uses no memory, is registered, and is its pool's only owner. */
  method CreateEmpty(memory: Option<Memory>) returns (runtime: Runtime, ghost buffer: Buffer, ghost pool: Pool)
    requires memory.Some? && MallocGives(memory, 0 + DATA_ALIGNMENT)
    ensures fresh(runtime) && runtime.Sound()
    ensures runtime.buffers == map[0 := buffer] && buffer.pool == Some(0) && buffer.size == 0
    ensures runtime.pools == map[0 := pool] && pool.register == {0}
  {
    buffer, pool := InNewPool(0, 0, None, memory), FilledPool(0, 0, None, memory);
    runtime := new Runtime();
    ghost var none, nothing := runtime.buffers, runtime.pools;
    var _ := runtime.Create(0, 0, None, memory, 0);
    OneEntry(none, runtime.buffers, buffer);
    OneEntry(nothing, runtime.pools, pool);
  }

  /** Its reset drops the only reference in the middle of the loop, and the assertion in the
      pool's destructor fails. */
  method PoolDiesInReset() returns (runtime: Runtime)
    ensures fresh(runtime) && runtime.broken
  {
    ghost var buffer, pool;
    runtime, buffer, pool := CreateEmpty(SomeMemory());
    var _ := runtime.Reset(0);
    assert runtime.buffers == map[0 := EMPTY];
    assert runtime.pools == map[];
    NothingLeft(runtime.buffers);
  }

  lemma NothingLeft(buffers: BufferMap)
    requires buffers == map[0 := EMPTY]
    ensures Intact(buffers, map[])
  {
  }

  /** Moved to another place, it stays in the register under the old one. */
  method StrayAfterMove() returns (runtime: Runtime)
    ensures fresh(runtime) && !runtime.broken && !Consistent(runtime.buffers, runtime.pools)
  {
    ghost var buffer, pool;
    runtime, buffer, pool := CreateEmpty(SomeMemory());
    runtime.MoveConstruct(1, 0);
    StrayBreaks(runtime.buffers, runtime.pools, 0, 0);
  }

  /** init makes its pool die with the buffer still in the register. */
  method PoolDiesInInit() returns (runtime: Runtime)
    ensures fresh(runtime) && runtime.broken
  {
    ghost var buffer, pool;
    runtime, buffer, pool := CreateEmpty(SomeMemory());
    var memory := Memory(32, seq(64, i => 0));
    assert MallocGives(Some(memory), 32 + DATA_ALIGNMENT);
    var _ := runtime.Init(0, 32, None, Some(memory), 1);
  }

  /** Two buffers of one pool, one of which is moved onto itself. */
  method StrayAfterSelfMove() returns (runtime: Runtime)
    ensures fresh(runtime) && !Consistent(runtime.buffers, runtime.pools)
  {
    runtime := new Runtime();
    var r := runtime.CreatePool(0, 32, None, Some(Memory(32, seq(64, i => 0))), 0);
    r := runtime.Create(1, 32, Some(0), None, 1);
    ghost var buffers := runtime.buffers;
    runtime.MoveAssign(1, 1);
    ghost var cleared: BufferMap := buffers[1 := EMPTY];
    assert cleared[0].pool == Some(0);
    assert Referenced(cleared, 0);
    StrayBreaks(runtime.buffers, runtime.pools, 0, 1);
  }
}
