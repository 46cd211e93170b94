/** Step sizes for ray marching: the edge that getDim reports, with or without skip
    flags, and the fused getDim + isActive traversal. */
module VdbDims {
  import opened Coords
  import opened Wrappers
  import opened VdbTree
  import opened VdbWrites

  predicate Skips<V>(t: Tree<V>, level: Level, i: nat)
    requires i < Count(t, level)
  {
    if level == 0 then t.leaves[i].skip else InternalAt(t, level, i).skip
  }

  /** getDimAndCache of an internal node or a leaf, without the caching. */
  function NodeDim<V>(t: Tree<V>, level: Level, i: nat, ijk: Coord): (d: nat)
    requires WellFormed(t) && i < Count(t, level)
    ensures d <= Dim(level)
    decreases level
  {
    if Skips(t, level, i) then Dim(level)
    else if level > 0 && ChildAt(t, level, i, ijk).Some? then
      NodeDim(t, level - 1, ChildAt(t, level, i, ijk).value, ijk)
    else ChildDim(level)
  }

  /** RootNode::getDimAndCache, without the caching. */
  function RootDim<V>(t: Tree<V>, ijk: Coord): nat
    requires WellFormed(t)
  {
    var tile := ProbeTile(t, ijk);
    if tile.None? then 4096
    else
      assert TileOk(t, t.tiles[tile.value]);
      var child := t.tiles[tile.value].child;
      if child.Some? then NodeDim(t, 2, child.value, ijk) else 4096
  }

  /** No skip flag on the path of a voxel above a level. */
  ghost predicate NoSkipAbove<V>(t: Tree<V>, level: Level, ijk: Coord)
    requires WellFormed(t)
  {
    forall k: Level | level < k && NodeAt(t, k, ijk).Some? :: !SkipsOnPath(t, k, ijk)
  }

  ghost predicate SkipsOnPath<V>(t: Tree<V>, level: Level, ijk: Coord)
    requires WellFormed(t) && NodeAt(t, level, ijk).Some?
  {
    Skips(t, level, NodeAt(t, level, ijk).value)
  }

  /** A call that starts at a cached node never reports more than the uncached call,
      and it reports the same exactly when no node above it is flagged. */
  lemma {:induction false} DimFromPath<V>(t: Tree<V>, level: Level, i: nat, ijk: Coord)
    requires WellFormed(t)
    requires NodeAt(t, level, ijk) == Some(i)
    ensures i < Count(t, level)
    ensures NodeDim(t, level, i, ijk) <= RootDim(t, ijk)
    ensures NodeDim(t, level, i, ijk) == RootDim(t, ijk) <==> NoSkipAbove(t, level, ijk)
    decreases 2 - level
  {
    if level < 2 {
      var parent := NodeAt(t, level + 1, ijk);
      assert parent.Some?;
      ChildOnPath(t, level + 1, parent.value, ijk);
      DimFromPath(t, level + 1, parent.value, ijk);
      assert NoSkipAbove(t, level, ijk) <==> NoSkipAbove(t, level + 1, ijk) && !SkipsOnPath(t, level + 1, ijk);
    }
  }

  /** The edge that getDim reports from a level down, spelled out along the path: that of the
      topmost flagged node, else that of the entry where the path ends. */
  ghost function DimBelow<V>(t: Tree<V>, level: Level, ijk: Coord): nat
    requires WellFormed(t)
  {
    var u, l, f := UpperAt(t, ijk), LowerAt(t, ijk), LeafAt(t, ijk);
    if level == 2 && (u.None? || t.uppers[u.value].skip) then 4096
    else if level >= 1 && (l.None? || t.lowers[l.value].skip) then 128
    else if f.None? || t.leaves[f.value].skip then 8
    else 1
  }

  lemma DimFromNode<V>(t: Tree<V>, level: Level, i: nat, ijk: Coord)
    requires WellFormed(t)
    requires NodeAt(t, level, ijk) == Some(i)
    ensures i < Count(t, level)
    ensures NodeDim(t, level, i, ijk) == DimBelow(t, level, ijk)
    decreases level
  {
    if level > 0 {
      ChildOnPath(t, level, i, ijk);
      var child := ChildAt(t, level, i, ijk);
      if child.Some? {
        DimFromNode(t, level - 1, child.value, ijk);
      }
    }
  }

  lemma DimOnPath<V>(t: Tree<V>, ijk: Coord)
    requires WellFormed(t)
    ensures RootDim(t, ijk) == DimBelow(t, 2, ijk)
  {
    var u := UpperAt(t, ijk);
    if u.Some? {
      DimFromNode(t, 2, u.value, ijk);
    }
  }

  ghost predicate NoSkips<V>(t: Tree<V>) {
    forall level: Level, i: nat | i < Count(t, level) :: !Skips(t, level, i)
  }

  lemma {:induction false} UnskippedNodeDim<V>(t: Tree<V>, level: Level, i: nat, ijk: Coord)
    requires WellFormed(t) && NoSkips(t) && i < Count(t, level)
    ensures NodeDim(t, level, i, ijk) == AddressDim(NodeAddress(t, level, i, ijk))
    decreases level
  {
    if level > 0 && ChildAt(t, level, i, ijk).Some? {
      UnskippedNodeDim(t, level - 1, ChildAt(t, level, i, ijk).value, ijk);
    }
  }

  /** Without skip flags a step is sound: all the voxels of the reported cube read the
      same value and state, and report the same cube. */
  lemma DimIsSound<V>(t: Tree<V>, a: Coord, b: Coord)
    requires WellFormed(t) && NoSkips(t)
    requires InCube(a, b, RootDim(t, a))
    ensures RootDim(t, b) == RootDim(t, a)
    ensures RootGet(t, GetValue, b) == RootGet(t, GetValue, a)
    ensures RootGet(t, GetState, b) == RootGet(t, GetState, a)
  {
    UnskippedRootDim(t, a);
    UnskippedRootDim(t, b);
    CubesAreBlocks(a, b);
    if RootAddress(t, a) == BackgroundAddress {
      AddressOnPath(t, a);
      AddressOnPath(t, b);
    } else {
      SlotsAreCubes(t, a, b);
    }
    forall op: GetOp | op == GetValue || op == GetState
      ensures RootGet(t, op, a) == RootGet(t, op, b)
    {
      RootGoesThroughSlot(t, op, SetVoxel, a, t.background);
      RootGoesThroughSlot(t, op, SetVoxel, b, t.background);
    }
  }

  lemma UnskippedRootDim<V>(t: Tree<V>, ijk: Coord)
    requires WellFormed(t) && NoSkips(t)
    ensures RootDim(t, ijk) ==
            if RootAddress(t, ijk) == BackgroundAddress then 4096 else AddressDim(RootAddress(t, ijk))
  {
    var u := UpperAt(t, ijk);
    if u.Some? {
      UnskippedNodeDim(t, 2, u.value, ijk);
      AddressOnPath(t, ijk);
    }
  }

  /* ---- getDim and isActive in one traversal ---- */

  datatype Policy = ActiveExact | ActiveOnLeafOnly

  datatype DimAndActive = DimAndActive(dim: nat, active: bool)

  /** getDimAndActiveAndCache of an internal node or a leaf, without the caching. */
  function NodeDimAndActive<V>(t: Tree<V>, policy: Policy, level: Level, i: nat, ijk: Coord): DimAndActive
    requires WellFormed(t) && i < Count(t, level)
    decreases level
  {
    var n := CoordToOffset(level, ijk);
    var skip := Skips(t, level, i);
    if level == 0 then
      DimAndActive(if skip then Dim(0) else 1, t.leaves[i].valueMask[n])
    else
      var node := InternalAt(t, level, i);
      assert level == 2 ==> UpperOk(t, node);
      assert level == 1 ==> LowerOk(t, node);
      var child := ChildAt(t, level, i, ijk);
      match policy
      case ActiveOnLeafOnly =>
        if skip then DimAndActive(Dim(level), false)
        else if child.Some? then NodeDimAndActive(t, policy, level - 1, child.value, ijk)
        else DimAndActive(ChildDim(level), node.valueMask[n])
      case ActiveExact =>
        if child.Some? then
          var r := NodeDimAndActive(t, policy, level - 1, child.value, ijk);
          DimAndActive(if skip then Dim(level) else r.dim, r.active)
        else
          DimAndActive(if skip then Dim(level) else ChildDim(level), node.valueMask[n])
  }

  /** RootNode::getDimAndActiveAndCache, without the caching. */
  function RootDimAndActive<V>(t: Tree<V>, policy: Policy, ijk: Coord): DimAndActive
    requires WellFormed(t)
  {
    var tile := ProbeTile(t, ijk);
    if tile.None? then DimAndActive(4096, false)
    else
      assert TileOk(t, t.tiles[tile.value]);
      var child := t.tiles[tile.value].child;
      if child.Some? then NodeDimAndActive(t, policy, 2, child.value, ijk)
      else DimAndActive(4096, t.tiles[tile.value].state)
  }

  lemma {:induction false} NodeDimAndActiveIsBoth<V>(t: Tree<V>, level: Level, i: nat, ijk: Coord)
    requires WellFormed(t) && i < Count(t, level)
    ensures var exact, fast := NodeDimAndActive(t, ActiveExact, level, i, ijk),
            NodeDimAndActive(t, ActiveOnLeafOnly, level, i, ijk);
            && exact.dim == fast.dim == NodeDim(t, level, i, ijk)
            && State(exact.active) == NodeGet(t, level, i, GetState, ijk)
            && (fast.dim < 128 || fast.active ==> fast == exact)
    decreases level
  {
    if level > 0 && ChildAt(t, level, i, ijk).Some? {
      NodeDimAndActiveIsBoth(t, level - 1, ChildAt(t, level, i, ijk).value, ijk);
    }
  }

  /** No skip flag on the path from a level down to the lower node; those of leaves do not count. */
  ghost predicate NoFlagBelow<V>(t: Tree<V>, level: Level, ijk: Coord)
    requires WellFormed(t)
  {
    && (level == 2 && UpperAt(t, ijk).Some? ==> !t.uppers[UpperAt(t, ijk).value].skip)
    && (level >= 1 && LowerAt(t, ijk).Some? ==> !t.lowers[LowerAt(t, ijk).value].skip)
  }

  /** ActiveOnLeafOnly reports a voxel as active exactly if it is and no flag is met. */
  lemma {:induction false} ActiveBelow<V>(t: Tree<V>, level: Level, i: nat, ijk: Coord)
    requires WellFormed(t)
    requires NodeAt(t, level, ijk) == Some(i)
    ensures i < Count(t, level)
    ensures NodeDimAndActive(t, ActiveOnLeafOnly, level, i, ijk).active <==>
            NodeDimAndActive(t, ActiveExact, level, i, ijk).active && NoFlagBelow(t, level, ijk)
    decreases level
  {
    if level > 0 {
      ChildOnPath(t, level, i, ijk);
      var child := ChildAt(t, level, i, ijk);
      if child.Some? {
        ActiveBelow(t, level - 1, child.value, ijk);
      }
    }
  }

  /** What a traversal from a level down reports; level 2 stands for the root too. */
  ghost predicate IsFrom<V>(t: Tree<V>, policy: Policy, level: Level, ijk: Coord, r: DimAndActive)
    requires WellFormed(t)
  {
    && r.dim == DimBelow(t, level, ijk)
    && (r.active <==> RootGet(t, GetState, ijk) == State(true)
                      && (policy.ActiveOnLeafOnly? ==> NoFlagBelow(t, level, ijk)))
  }

  /** From any node on the path, under any pattern of skip flags: both policies report
      getDim; ActiveExact reports isActive; ActiveOnLeafOnly is exact below edge 128, and
      reports a voxel as active exactly if it is and no flag was met. */
  lemma DimAndActiveFromPath<V>(t: Tree<V>, level: Level, i: nat, ijk: Coord)
    requires WellFormed(t)
    requires NodeAt(t, level, ijk) == Some(i)
    ensures i < Count(t, level)
    ensures var exact, fast := NodeDimAndActive(t, ActiveExact, level, i, ijk),
            NodeDimAndActive(t, ActiveOnLeafOnly, level, i, ijk);
            && exact.dim == fast.dim == NodeDim(t, level, i, ijk)
            && State(exact.active) == RootGet(t, GetState, ijk)
            && (fast.dim < 128 || fast.active ==> fast == exact)
            && (fast.active <==> exact.active && NoFlagBelow(t, level, ijk))
  {
    GetFromPath(t, level, i, GetState, ijk);
    NodeDimAndActiveIsBoth(t, level, i, ijk);
    ActiveBelow(t, level, i, ijk);
  }

  /** The same from the root. */
  lemma DimAndActiveFromRoot<V>(t: Tree<V>, ijk: Coord)
    requires WellFormed(t)
    ensures var exact, fast := RootDimAndActive(t, ActiveExact, ijk), RootDimAndActive(t, ActiveOnLeafOnly, ijk);
            && exact.dim == fast.dim == RootDim(t, ijk)
            && State(exact.active) == RootGet(t, GetState, ijk)
            && (fast.dim < 128 || fast.active ==> fast == exact)
            && (fast.active <==> exact.active && NoFlagBelow(t, 2, ijk))
  {
    var u := UpperAt(t, ijk);
    if u.Some? {
      NodeDimAndActiveIsBoth(t, 2, u.value, ijk);
      ActiveBelow(t, 2, u.value, ijk);
    }
  }

  /* ---- a tree on which it depends on the cache ---- */

  function Repeated<T>(x: T, n: nat): seq<T> {
    seq(n, _ => x)
  }

  /** One upper node, which is flagged, over one lower node without children. */
  function FlaggedTree<V>(v: V): Tree<V> {
    var origin := Coord(0, 0, 0);
    var off := Repeated(false, Size(2));
    var upper := Internal(origin, true, off, off[0 := true], Repeated(Entry.Value(v), Size(2))[0 := Child(0)]);
    var lower :=
      Internal(origin, false, Repeated(false, Size(1)), Repeated(false, Size(1)), Repeated(Entry.Value(v), Size(1)));
    Tree(v, [Tile(origin, Some(0), false, v)], [upper], [lower], [])
  }

  lemma FlaggedTreeIsWellFormed<V>(v: V)
    ensures WellFormed(FlaggedTree(v))
  {
    var t := FlaggedTree(v);
    assert TileOk(t, t.tiles[0]);
    assert EntryOrigin(t.uppers[0], 2, 0) == Coord(0, 0, 0);
    assert UpperOk(t, t.uppers[0]);
    assert LowerOk(t, t.lowers[0]);
  }

  /** With the lower node in the cache getDim reports a leaf's edge, and without it the edge
      of the flagged upper node. */
  lemma SkipFlagsShowCache<V>(v: V)
    ensures var t, ijk := FlaggedTree(v), Coord(0, 0, 0);
            && WellFormed(t) && NodeAt(t, 1, ijk) == Some(0)
            && NodeDim(t, 1, 0, ijk) == 8 && RootDim(t, ijk) == 4096
  {
    FlaggedTreeIsWellFormed(v);
    var t, ijk := FlaggedTree(v), Coord(0, 0, 0);
    assert CoordToOffset(2, ijk) == 0;
    assert ProbeTile(t, ijk) == Some(0);
    assert Skips(t, 2, 0) && !Skips(t, 1, 0);
    assert ChildAt(t, 1, 0, ijk) == None;
  }
}
