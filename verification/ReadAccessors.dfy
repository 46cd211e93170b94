/** The value accessors of NanoVDB.h, which cache one node per tree level under a key
    of its own, and their agreement with uncached access over every trace of calls. */
module ReadAccessors {
  import opened Coords
  import opened Wrappers
  import opened VdbTree
  import opened VdbWrites
  import opened VdbDims
  import opened Traces

  /** A root node together with the nodes behind it, which writes change in place. */
  class Root<V> {
    var tree: Tree<V>

    constructor (t: Tree<V>)
      ensures tree == t
    {
      tree := t;
    }

    /** RootData::probe: the first tile with the key of a voxel. */
    method Probe(ijk: Coord) returns (r: Option<nat>)
      ensures r == ProbeTile(tree, ijk)
    {
      var key := Block(ijk, 2);
      var i := 0;
      while i < |tree.tiles| && tree.tiles[i].key != key
        invariant i <= |tree.tiles|
        invariant forall j | 0 <= j < i :: tree.tiles[j].key != key
      {
        i := i + 1;
      }
      r := if i < |tree.tiles| then Some(i) else None;
    }
  }

  /** A cache slot is empty, or it holds the node of the block that its key is the origin of. */
  ghost predicate SlotOk<V>(t: Tree<V>, level: Level, key: Coord, node: Option<nat>)
    requires WellFormed(t)
  {
    key == MAX_COORD || (Aligned(key, level) && node.Some? && NodeAt(t, level, key) == node)
  }

  lemma HitIsOnPath<V>(t: Tree<V>, level: Level, key: Coord, node: Option<nat>, ijk: Coord)
    requires WellFormed(t) && SlotOk(t, level, key, node)
    requires Block(ijk, level) == key
    ensures node.Some? && NodeAt(t, level, ijk) == node && node.value < Count(t, level)
  {
    SentinelNeverMatches(ijk, level);
    PathOfBlock(t, level, ijk, key);
  }

  lemma TopologyKeepsSlots<V>(t: Tree<V>, t': Tree<V>, level: Level, key: Coord, node: Option<nat>)
    requires WellFormed(t) && WellFormed(t') && SameTopology(t, t')
    requires SlotOk(t, level, key, node)
    ensures SlotOk(t', level, key, node)
  {
    TopologyFixesPaths(t, t', key);
  }

  /** ReadAccessor<BuildT, LEVEL0, LEVEL1, LEVEL2>.  `levels` are the template levels:
      none for the accessor without a cache, one, two, or all three. */
  class ReadAccessor<V> {
    const levels: set<Level>
    const mRoot: Root<V>
    var mKeys: seq<Coord>
    var mNode: seq<Option<nat>>

    ghost predicate Valid()
      reads this, mRoot
    {
      && WellFormed(mRoot.tree)
      && |mKeys| == |mNode| == 3
      && forall level: Level :: SlotOk(mRoot.tree, level, mKeys[level], mNode[level])
    }

    constructor (levels: set<Level>, root: Root<V>)
      requires WellFormed(root.tree)
      ensures Valid() && mRoot == root && this.levels == levels
    {
      this.levels := levels;
      mRoot := root;
      mKeys := [MAX_COORD, MAX_COORD, MAX_COORD];
      mNode := [None, None, None];
    }

    method Clear()
      requires Valid()
      modifies this
      ensures Valid()
      ensures forall level: Level, ijk: Coord :: !IsCached(level, ijk)
      ensures mNode == [None, None, None]
    {
      mKeys := [MAX_COORD, MAX_COORD, MAX_COORD];
      mNode := [None, None, None];
      forall level: Level, ijk: Coord ensures !IsCached(level, ijk) {
        SentinelNeverMatches(ijk, level);
      }
    }

    predicate IsCached(level: Level, ijk: Coord)
      requires |mKeys| == 3
      reads this
    {
      Block(ijk, level) == mKeys[level]
    }

    /** The nodes on a voxel's path between two levels are cached, as far as the accessor
        caches their levels. */
    ghost predicate PathCached(lo: nat, hi: nat, ijk: Coord)
      requires WellFormed(mRoot.tree) && |mKeys| == 3
      reads this, mRoot
    {
      forall l: Level | lo <= l < hi && l in levels && NodeAt(mRoot.tree, l, ijk).Some? :: IsCached(l, ijk)
    }

    /** The lowest of them is cached, so that the same call again would start from it. */
    ghost predicate Warm(lo: nat, ijk: Coord)
      requires WellFormed(mRoot.tree) && |mKeys| == 3
      reads this, mRoot
    {
      forall l: Level | lo <= l && l in levels && NodeAt(mRoot.tree, l, ijk).Some?
                        && (forall k: Level | lo <= k < l && k in levels :: NodeAt(mRoot.tree, k, ijk).None?) ::
          IsCached(l, ijk)
    }

    /** The slots from a level up are as they were. */
    twostate predicate KeepsFrom(level: nat)
      requires old(|mKeys| == |mNode| == 3) && |mKeys| == |mNode| == 3
      reads this
    {
      forall l: Level | level <= l :: mKeys[l] == old(mKeys)[l] && mNode[l] == old(mNode)[l]
    }

    lemma NothingBelow(lo: nat, level: Level, ijk: Coord)
      requires Valid() && NodeAt(mRoot.tree, level, ijk).None?
      ensures PathCached(lo, level + 1, ijk)
    {
    }

    lemma NoChild(lo: nat, level: Level, i: nat, ijk: Coord)
      requires Valid() && level > 0 && NodeAt(mRoot.tree, level, ijk) == Some(i) && i < Count(mRoot.tree, level)
      requires ChildAt(mRoot.tree, level, i, ijk).None?
      ensures PathCached(lo, level, ijk)
      ensures !InternalAt(mRoot.tree, level, i).childMask[CoordToOffset(level, ijk)]
    {
      ChildOnPath(mRoot.tree, level, i, ijk);
      NothingBelow(lo, level - 1, ijk);
    }

    lemma OneMoreCached(lo: nat, level: Level, ijk: Coord)
      requires Valid() && PathCached(lo, level, ijk) && (level in levels ==> IsCached(level, ijk))
      ensures PathCached(lo, level + 1, ijk)
    {
    }

    lemma HitIsWarm(lo: nat, hit: Level, ijk: Coord)
      requires Valid() && PathCached(lo, hit, ijk) && lo <= hit && hit in levels && IsCached(hit, ijk)
      requires NodeAt(mRoot.tree, hit, ijk).Some?
      ensures Warm(lo, ijk)
    {
    }

    method Insert(level: Level, ijk: Coord, node: nat)
      requires Valid()
      requires NodeAt(mRoot.tree, level, ijk) == Some(node)
      modifies this
      ensures Valid()
      ensures level in levels ==>
              mKeys == old(mKeys)[level := Block(ijk, level)] && mNode == old(mNode)[level := Some(node)]
      ensures level !in levels ==> mKeys == old(mKeys) && mNode == old(mNode)
    {
      if level in levels {
        BlockIsAligned(ijk, level);
        PathOfBlock(mRoot.tree, level, ijk, Block(ijk, level));
        mKeys := mKeys[level := Block(ijk, level)];
        mNode := mNode[level := Some(node)];
      }
    }

    /* ---- the node methods that a descent calls, with this accessor as their argument ---- */

    method NodeGetAndCache(level: Level, i: nat, op: GetOp, ijk: Coord) returns (r: Reply<V>)
      requires Valid() && OpLevel(op) <= level
      requires NodeAt(mRoot.tree, level, ijk) == Some(i) && i < Count(mRoot.tree, level)
      modifies this
      ensures Valid()
      ensures r == NodeGet(mRoot.tree, level, i, op, ijk)
      ensures PathCached(OpLevel(op), level, ijk) && KeepsFrom(level)
      decreases level, 1
    {
      var n := CoordToOffset(level, ijk);
      if level == 0 {
        r := GetAtVoxel(mRoot.tree, i, n, op);
        return;
      }
      if OpLevel(op) < level {
        var child := ChildAt(mRoot.tree, level, i, ijk);
        if child.Some? {
          ChildOnPath(mRoot.tree, level, i, ijk);
          r := ChildGetAndCache(level - 1, child.value, op, ijk);
          return;
        }
        NoChild(OpLevel(op), level, i, ijk);
      }
      r := GetAtEntry(mRoot.tree, level, i, n, op);
    }

    /** The branch for a child: it is cached before the descent goes on in it. */
    method ChildGetAndCache(level: Level, child: nat, op: GetOp, ijk: Coord) returns (r: Reply<V>)
      requires Valid() && OpLevel(op) <= level
      requires NodeAt(mRoot.tree, level, ijk) == Some(child) && child < Count(mRoot.tree, level)
      modifies this
      ensures Valid()
      ensures r == NodeGet(mRoot.tree, level, child, op, ijk)
      ensures PathCached(OpLevel(op), level + 1, ijk) && KeepsFrom(level + 1)
      decreases level, 2
    {
      Insert(level, ijk, child);
      r := NodeGetAndCache(level, child, op, ijk);
      OneMoreCached(OpLevel(op), level, ijk);
    }

    method RootGetAndCache(op: GetOp, ijk: Coord) returns (r: Reply<V>)
      requires Valid()
      modifies this
      ensures Valid()
      ensures r == RootGet(mRoot.tree, op, ijk)
      ensures PathCached(OpLevel(op), 3, ijk)
    {
      var tile := mRoot.Probe(ijk);
      if tile.Some? {
        assert TileOk(mRoot.tree, mRoot.tree.tiles[tile.value]);
        var child := mRoot.tree.tiles[tile.value].child;
        if OpLevel(op) < 3 && child.Some? {
          r := ChildGetAndCache(2, child.value, op, ijk);
          return;
        }
        r := GetAtTile(mRoot.tree, tile.value, op);
      } else {
        r := GetAtBackground(mRoot.tree, op);
      }
      if OpLevel(op) < 3 {
        NothingBelow(OpLevel(op), 2, ijk);
      }
    }

    method NodeSetAndCache(level: Level, i: nat, op: SetOp, ijk: Coord, v: V)
      requires Valid()
      requires NodeAt(mRoot.tree, level, ijk) == Some(i) && i < Count(mRoot.tree, level)
      modifies this, mRoot
      ensures Valid()
      ensures mRoot.tree == RootSet(old(mRoot.tree), op, ijk, v)
      ensures PathCached(0, level, ijk) && KeepsFrom(level)
      decreases level, 1
    {
      SetFromPath(mRoot.tree, level, i, op, ijk, v);
      if level > 0 {
        var child := ChildAt(mRoot.tree, level, i, ijk);
        if child.Some? {
          ChildOnPath(mRoot.tree, level, i, ijk);
          ChildSetAndCache(level - 1, child.value, op, ijk, v);
          return;
        }
        NoChild(0, level, i, ijk);
      }
      var n := CoordToOffset(level, ijk);
      var t := if level == 0 then SetAtVoxel(mRoot.tree, i, n, v) else SetAtEntry(mRoot.tree, level, i, n, op, v);
      Write(t, op, ijk, v);
    }

    method ChildSetAndCache(level: Level, child: nat, op: SetOp, ijk: Coord, v: V)
      requires Valid()
      requires NodeAt(mRoot.tree, level, ijk) == Some(child) && child < Count(mRoot.tree, level)
      modifies this, mRoot
      ensures Valid()
      ensures mRoot.tree == RootSet(old(mRoot.tree), op, ijk, v)
      ensures PathCached(0, level + 1, ijk) && KeepsFrom(level + 1)
      decreases level, 2
    {
      Insert(level, ijk, child);
      NodeSetAndCache(level, child, op, ijk, v);
      OneMoreCached(0, level, ijk);
    }

    method RootSetAndCache(op: SetOp, ijk: Coord, v: V)
      requires Valid()
      modifies this, mRoot
      ensures Valid()
      ensures mRoot.tree == RootSet(old(mRoot.tree), op, ijk, v)
      ensures PathCached(0, 3, ijk)
    {
      var tile := mRoot.Probe(ijk);
      if tile.Some? {
        assert TileOk(mRoot.tree, mRoot.tree.tiles[tile.value]);
        var child := mRoot.tree.tiles[tile.value].child;
        if child.Some? {
          ChildSetAndCache(2, child.value, op, ijk, v);
          return;
        }
      }
      NothingBelow(0, 2, ijk);
      if tile.Some? {
        Write(SetAtTile(mRoot.tree, tile.value, op, v), op, ijk, v);
      }
    }

    /** The assignment that ends a set operation; caches survive it because the
        topology does. */
    method Write(t: Tree<V>, ghost op: SetOp, ghost ijk: Coord, ghost v: V)
      requires Valid()
      requires t == RootSet(mRoot.tree, op, ijk, v)
      modifies mRoot
      ensures Valid() && mRoot.tree == t
      ensures forall hi: nat :: old(PathCached(0, hi, ijk)) ==> PathCached(0, hi, ijk)
    {
      SetKeepsTopology(mRoot.tree, op, ijk, v);
      TopologyFixesPaths(mRoot.tree, t, ijk);
      forall level: Level ensures SlotOk(t, level, mKeys[level], mNode[level]) {
        TopologyKeepsSlots(mRoot.tree, t, level, mKeys[level], mNode[level]);
      }
      mRoot.tree := t;
    }

    /** Without skip flags the descent reaches the end of the path. */
    method NodeGetDimAndCache(level: Level, i: nat, ijk: Coord) returns (d: nat)
      requires Valid()
      requires NodeAt(mRoot.tree, level, ijk) == Some(i) && i < Count(mRoot.tree, level)
      modifies this
      ensures Valid()
      ensures d == NodeDim(mRoot.tree, level, i, ijk)
      ensures (NoSkips(mRoot.tree) ==> PathCached(0, level, ijk)) && KeepsFrom(level)
      decreases level, 1
    {
      if Skips(mRoot.tree, level, i) {
        return Dim(level);
      }
      if level > 0 {
        var child := ChildAt(mRoot.tree, level, i, ijk);
        if child.Some? {
          ChildOnPath(mRoot.tree, level, i, ijk);
          d := ChildGetDimAndCache(level - 1, child.value, ijk);
          return;
        }
        NoChild(0, level, i, ijk);
      }
      d := ChildDim(level);
    }

    method ChildGetDimAndCache(level: Level, child: nat, ijk: Coord) returns (d: nat)
      requires Valid()
      requires NodeAt(mRoot.tree, level, ijk) == Some(child) && child < Count(mRoot.tree, level)
      modifies this
      ensures Valid()
      ensures d == NodeDim(mRoot.tree, level, child, ijk)
      ensures (NoSkips(mRoot.tree) ==> PathCached(0, level + 1, ijk)) && KeepsFrom(level + 1)
      decreases level, 2
    {
      Insert(level, ijk, child);
      d := NodeGetDimAndCache(level, child, ijk);
      if NoSkips(mRoot.tree) {
        OneMoreCached(0, level, ijk);
      }
    }

    method RootGetDimAndCache(ijk: Coord) returns (d: nat)
      requires Valid()
      modifies this
      ensures Valid()
      ensures d == RootDim(mRoot.tree, ijk)
      ensures NoSkips(mRoot.tree) ==> PathCached(0, 3, ijk)
    {
      var tile := mRoot.Probe(ijk);
      if tile.Some? {
        assert TileOk(mRoot.tree, mRoot.tree.tiles[tile.value]);
        var child := mRoot.tree.tiles[tile.value].child;
        if child.Some? {
          d := ChildGetDimAndCache(2, child.value, ijk);
          return;
        }
      }
      NothingBelow(0, 2, ijk);
      d := 4096;
    }

    /** ActiveExact reaches the end of the path whatever the flags. */
    method NodeGetDimAndActiveAndCache(policy: Policy, level: Level, i: nat, ijk: Coord) returns (r: DimAndActive)
      requires Valid()
      requires NodeAt(mRoot.tree, level, ijk) == Some(i) && i < Count(mRoot.tree, level)
      modifies this
      ensures Valid()
      ensures r == NodeDimAndActive(mRoot.tree, policy, level, i, ijk)
      ensures (policy.ActiveExact? || NoSkips(mRoot.tree) ==> PathCached(0, level, ijk)) && KeepsFrom(level)
      decreases level, 1
    {
      var skip, n := Skips(mRoot.tree, level, i), CoordToOffset(level, ijk);
      if level == 0 {
        return DimAndActive(if skip then Dim(0) else 1, mRoot.tree.leaves[i].valueMask[n]);
      }
      if policy.ActiveOnLeafOnly? && skip {
        return DimAndActive(Dim(level), false);
      }
      var child := ChildAt(mRoot.tree, level, i, ijk);
      if child.Some? {
        ChildOnPath(mRoot.tree, level, i, ijk);
        r := ChildGetDimAndActiveAndCache(policy, level - 1, child.value, ijk);
        return if skip then DimAndActive(Dim(level), r.active) else r;
      }
      NoChild(0, level, i, ijk);
      r := DimAndActive(if skip then Dim(level) else ChildDim(level), InternalAt(mRoot.tree, level, i).valueMask[n]);
    }

    method ChildGetDimAndActiveAndCache(policy: Policy, level: Level, child: nat, ijk: Coord) returns (r: DimAndActive)
      requires Valid()
      requires NodeAt(mRoot.tree, level, ijk) == Some(child) && child < Count(mRoot.tree, level)
      modifies this
      ensures Valid()
      ensures r == NodeDimAndActive(mRoot.tree, policy, level, child, ijk)
      ensures (policy.ActiveExact? || NoSkips(mRoot.tree) ==> PathCached(0, level + 1, ijk)) && KeepsFrom(level + 1)
      decreases level, 2
    {
      Insert(level, ijk, child);
      r := NodeGetDimAndActiveAndCache(policy, level, child, ijk);
      if policy.ActiveExact? || NoSkips(mRoot.tree) {
        OneMoreCached(0, level, ijk);
      }
    }

    method RootGetDimAndActiveAndCache(policy: Policy, ijk: Coord) returns (r: DimAndActive)
      requires Valid()
      modifies this
      ensures Valid()
      ensures r == RootDimAndActive(mRoot.tree, policy, ijk)
      ensures policy.ActiveExact? || NoSkips(mRoot.tree) ==> PathCached(0, 3, ijk)
    {
      var tile := mRoot.Probe(ijk);
      if tile.Some? {
        assert TileOk(mRoot.tree, mRoot.tree.tiles[tile.value]);
        var child := mRoot.tree.tiles[tile.value].child;
        if child.Some? {
          r := ChildGetDimAndActiveAndCache(policy, 2, child.value, ijk);
          return;
        }
      }
      NothingBelow(0, 2, ijk);
      r := if tile.Some? then DimAndActive(4096, mRoot.tree.tiles[tile.value].state) else DimAndActive(4096, false);
    }

    /* ---- the accessor's own methods ---- */

    /** The voxel is not cached at any level of a range. */
    ghost predicate NothingCached(lo: nat, hi: nat, ijk: Coord)
      requires |mKeys| == 3
      reads this
    {
      forall k: Level | lo <= k < hi && k in levels :: !IsCached(k, ijk)
    }

    /** The lowest level, of those from some level on, at which the voxel is cached. */
    ghost function Start(from: nat, ijk: Coord): (start: Option<Level>)
      requires |mKeys| == 3
      reads this
      ensures start.Some? ==> from <= start.value && start.value in levels && IsCached(start.value, ijk)
      ensures NothingCached(from, if start.Some? then start.value else 3, ijk)
    {
      if from <= 0 && 0 in levels && IsCached(0, ijk) then Some(0)
      else if from <= 1 && 1 in levels && IsCached(1, ijk) then Some(1)
      else if from <= 2 && 2 in levels && IsCached(2, ijk) then Some(2)
      else None
    }

    /** The lowest cached node that a descent may start from, if any. */
    method LowestHit(from: nat, ijk: Coord) returns (hit: Option<Level>)
      requires Valid()
      ensures hit == Start(from, ijk)
      ensures hit.Some? ==>
                && mNode[hit.value].Some? && NodeAt(mRoot.tree, hit.value, ijk) == mNode[hit.value]
                && mNode[hit.value].value < Count(mRoot.tree, hit.value)
    {
      if from <= 0 && 0 in levels && IsCached(0, ijk) {
        HitIsOnPath(mRoot.tree, 0, mKeys[0], mNode[0], ijk);
        hit := Some(0);
      } else if from <= 1 && 1 in levels && IsCached(1, ijk) {
        HitIsOnPath(mRoot.tree, 1, mKeys[1], mNode[1], ijk);
        hit := Some(1);
      } else if from <= 2 && 2 in levels && IsCached(2, ijk) {
        HitIsOnPath(mRoot.tree, 2, mKeys[2], mNode[2], ijk);
        hit := Some(2);
      } else {
        hit := None;
      }
    }

    method Get(op: GetOp, ijk: Coord) returns (r: Reply<V>)
      requires Valid()
      modifies this
      ensures Valid()
      ensures r == RootGet(mRoot.tree, op, ijk)
      ensures Warm(OpLevel(op), ijk)
      ensures var start := old(Start(OpLevel(op), ijk)); start.Some? ==> KeepsFrom(start.value)
    {
      var hit := LowestHit(OpLevel(op), ijk);
      if hit.Some? {
        GetFromPath(mRoot.tree, hit.value, mNode[hit.value].value, op, ijk);
        r := NodeGetAndCache(hit.value, mNode[hit.value].value, op, ijk);
        HitIsWarm(OpLevel(op), hit.value, ijk);
      } else {
        r := RootGetAndCache(op, ijk);
      }
    }

    method Set(op: SetOp, ijk: Coord, v: V)
      requires Valid()
      modifies this, mRoot
      ensures Valid()
      ensures mRoot.tree == RootSet(old(mRoot.tree), op, ijk, v)
      ensures Warm(0, ijk)
      ensures var start := old(Start(0, ijk)); start.Some? ==> KeepsFrom(start.value)
    {
      var hit := LowestHit(0, ijk);
      if hit.Some? {
        NodeSetAndCache(hit.value, mNode[hit.value].value, op, ijk, v);
        SetKeepsTopology(old(mRoot.tree), op, ijk, v);
        TopologyFixesPaths(old(mRoot.tree), mRoot.tree, ijk);
        HitIsWarm(0, hit.value, ijk);
      } else {
        RootSetAndCache(op, ijk, v);
      }
    }

    /** With skip flags the answer may depend on the cache.  It is never larger than the uncached
        one, and the same exactly if the lookup starts at the root or no node above the one it
        starts from is flagged. */
    method GetDim(ijk: Coord) returns (d: nat)
      requires Valid()
      modifies this
      ensures Valid()
      ensures var start := old(Start(0, ijk));
              && d == DimBelow(mRoot.tree, if start.Some? then start.value else 2, ijk) <= RootDim(mRoot.tree, ijk)
              && (d == RootDim(mRoot.tree, ijk) <==>
                    start.None? || NoSkipAbove(mRoot.tree, start.value, ijk))
      ensures NoSkips(mRoot.tree) ==> d == RootDim(mRoot.tree, ijk) && Warm(0, ijk)
    {
      var hit := LowestHit(0, ijk);
      if hit.Some? {
        DimFromPath(mRoot.tree, hit.value, mNode[hit.value].value, ijk);
        DimFromNode(mRoot.tree, hit.value, mNode[hit.value].value, ijk);
        d := NodeGetDimAndCache(hit.value, mNode[hit.value].value, ijk);
        if NoSkips(mRoot.tree) {
          HitIsWarm(0, hit.value, ijk);
        }
      } else {
        DimOnPath(mRoot.tree, ijk);
        d := RootGetDimAndCache(ijk);
      }
    }

    /** The fused call reports a cached getDim, and the state as far as the policy promises. */
    method GetDimAndActive(policy: Policy, ijk: Coord) returns (r: DimAndActive)
      requires Valid()
      modifies this
      ensures Valid()
      ensures var start := old(Start(0, ijk));
              && IsFrom(mRoot.tree, policy, if start.Some? then start.value else 2, ijk, r)
              && r.dim <= RootDim(mRoot.tree, ijk)
              && (r.dim == RootDim(mRoot.tree, ijk) <==>
                    start.None? || NoSkipAbove(mRoot.tree, start.value, ijk))
      ensures NoSkips(mRoot.tree) ==> r.dim == RootDim(mRoot.tree, ijk)
      ensures policy.ActiveExact? || r.dim < 128 || r.active ==> State(r.active) == RootGet(mRoot.tree, GetState, ijk)
      ensures policy.ActiveExact? || NoSkips(mRoot.tree) ==> Warm(0, ijk)
    {
      var hit := LowestHit(0, ijk);
      if hit.Some? {
        DimFromPath(mRoot.tree, hit.value, mNode[hit.value].value, ijk);
        DimFromNode(mRoot.tree, hit.value, mNode[hit.value].value, ijk);
        DimAndActiveFromPath(mRoot.tree, hit.value, mNode[hit.value].value, ijk);
        r := NodeGetDimAndActiveAndCache(policy, hit.value, mNode[hit.value].value, ijk);
        if policy.ActiveExact? || NoSkips(mRoot.tree) {
          HitIsWarm(0, hit.value, ijk);
        }
      } else {
        DimOnPath(mRoot.tree, ijk);
        DimAndActiveFromRoot(mRoot.tree, ijk);
        r := RootGetDimAndActiveAndCache(policy, ijk);
      }
    }
  }

  /** On the flagged tree, getDim after a read of the same voxel, and with an empty cache. */
  method DimAfterRead<V>(v: V) returns (warm: nat, cold: nat)
    ensures warm == 8 && cold == 4096
  {
    var ijk := Coord(0, 0, 0);
    SkipFlagsShowCache(v);
    var root := new Root(FlaggedTree(v));
    var reader := new ReadAccessor({0, 1, 2}, root);
    var _ := reader.Get(GetValue, ijk);
    assert reader.Start(0, ijk) == Some(1) && !NoSkipAbove(root.tree, 1, ijk);
    warm := reader.GetDim(ijk);
    reader.Clear();
    cold := reader.GetDim(ijk);
  }

  /* ---- whole traces ---- */

  datatype Call<V> =
    | CallGet(getOp: GetOp, ijk: Coord)
    | CallSet(setOp: SetOp, ijk: Coord, v: V)
    | CallDim(ijk: Coord)
    | CallDimAndActive(policy: Policy, ijk: Coord)
    | CallClear

  datatype Answer<V> = Got(reply: Reply<V>) | GotDim(dim: nat) | GotDimAndActive(both: DimAndActive) | Done

  function TreeAfter<V>(t: Tree<V>, call: Call<V>): (t': Tree<V>)
    requires WellFormed(t)
    ensures WellFormed(t') && SameTopology(t, t')
  {
    match call
    case CallSet(op, ijk, v) => SetKeepsTopology(t, op, ijk, v); RootSet(t, op, ijk, v)
    case _ => t
  }

  /** The answer an uncached traversal of the current tree justifies. */
  ghost predicate Agrees<V>(t: Tree<V>, call: Call<V>, answer: Answer<V>)
    requires WellFormed(t)
  {
    match call
    case CallGet(op, ijk) => answer == Got(RootGet(t, op, ijk))
    case CallSet(_, _, _) => answer == Done
    case CallClear => answer == Done
    case CallDim(ijk) =>
      && answer.GotDim? && answer.dim <= RootDim(t, ijk)
      && (exists level: Level :: answer.dim == DimBelow(t, level, ijk))
      && (NoSkips(t) ==> answer.dim == RootDim(t, ijk))
    case CallDimAndActive(policy, ijk) =>
      && answer.GotDimAndActive? && answer.both.dim <= RootDim(t, ijk)
      && (exists level: Level :: IsFrom(t, policy, level, ijk, answer.both))
      && (NoSkips(t) ==> answer.both.dim == RootDim(t, ijk))
      && (policy.ActiveExact? || answer.both.dim < 128 || answer.both.active ==>
            State(answer.both.active) == RootGet(t, GetState, ijk))
  }

  method Dispatch<V>(acc: ReadAccessor<V>, call: Call<V>) returns (answer: Answer<V>)
    requires acc.Valid()
    modifies acc, acc.mRoot
    ensures acc.Valid()
    ensures acc.mRoot.tree == TreeAfter(old(acc.mRoot.tree), call)
    ensures SameTopology(old(acc.mRoot.tree), acc.mRoot.tree)
    ensures Agrees(old(acc.mRoot.tree), call, answer)
    ensures call.CallClear? ==> acc.mNode == [None, None, None]
  {
    match call {
      case CallGet(op, ijk) =>
        var r := acc.Get(op, ijk);
        answer := Got(r);
      case CallSet(op, ijk, v) =>
        SetKeepsTopology(acc.mRoot.tree, op, ijk, v);
        acc.Set(op, ijk, v);
        answer := Done;
      case CallDim(ijk) =>
        var d := acc.GetDim(ijk);
        answer := GotDim(d);
      case CallDimAndActive(policy, ijk) =>
        var r := acc.GetDimAndActive(policy, ijk);
        answer := GotDimAndActive(r);
      case CallClear =>
        acc.Clear();
        answer := Done;
    }
  }

  /** One call by one of the accessors of a shared tree leaves all of them valid. */
  method Step<V>(accessors: seq<ReadAccessor<V>>, root: Root<V>, who: nat, call: Call<V>) returns (answer: Answer<V>)
    requires who < |accessors| && WellFormed(root.tree)
    requires forall a | a in accessors :: a.Valid() && a.mRoot == root
    modifies root, accessors
    ensures forall a | a in accessors :: a.Valid()
    ensures root.tree == TreeAfter(old(root.tree), call)
    ensures Agrees(old(root.tree), call, answer)
    ensures call.CallClear? ==> accessors[who].mNode == [None, None, None]
  {
    answer := Dispatch(accessors[who], call);
    forall a | a in accessors ensures a.Valid() {
      if a != accessors[who] {
        assert a.mKeys == old(a.mKeys) && a.mNode == old(a.mNode);
        forall level: Level ensures SlotOk(root.tree, level, a.mKeys[level], a.mNode[level]) {
          TopologyKeepsSlots(old(root.tree), root.tree, level, a.mKeys[level], a.mNode[level]);
        }
      }
    }
  }

  ghost predicate IsStep<V(!new)>(t: Tree<V>, call: (nat, Call<V>), answer: Answer<V>, t': Tree<V>) {
    WellFormed(t) && Agrees(t, call.1, answer) && t' == TreeAfter(t, call.1)
  }

  /** Any number of accessors, caching any levels, share one tree and make any trace of
      calls: every answer is what uncached access to the tree of that moment gives, and
      the tree changes as if no cache existed. */
  method RunTrace<V(!new)>(accessors: seq<ReadAccessor<V>>, root: Root<V>, calls: seq<(nat, Call<V>)>)
    returns (answers: seq<Answer<V>>, ghost trees: seq<Tree<V>>)
    requires forall a | a in accessors :: a.Valid() && a.mRoot == root
    requires forall c | c in calls :: c.0 < |accessors|
    requires WellFormed(root.tree)
    modifies root, accessors
    ensures forall a | a in accessors :: a.Valid()
    ensures |answers| == |calls| && IsHistory(IsStep, trees, calls, answers)
    ensures trees[0] == old(root.tree) && trees[|calls|] == root.tree
  {
    answers, trees := [], [root.tree];
    while |answers| < |calls|
      invariant |answers| <= |calls| && IsHistory(IsStep, trees, calls, answers)
      invariant WellFormed(root.tree) && trees[0] == old(root.tree) && trees[|answers|] == root.tree
      invariant forall a | a in accessors :: a.Valid()
    {
      var n := |answers|;
      assert calls[n] in calls;
      var answer := Step(accessors, root, calls[n].0, calls[n].1);
      ExtendHistory(IsStep, trees, calls, answers, answer, root.tree);
      answers, trees := answers + [answer], trees + [root.tree];
    }
  }
}
