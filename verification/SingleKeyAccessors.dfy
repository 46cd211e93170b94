/** The value accessor of PNanoVDB.h and CNanoVDB.h: three cached nodes share one key, and
    a cache check that fails also forgets the node it checked. */
module SingleKeyAccessors {
  import opened Bits
  import opened CoordBits
  import opened Coords
  import ReadAccessors
  import opened Traces
  import opened VdbTree
  import opened VdbWrites
  import opened Wrappers

  /** get_value_address_and_level, get_dim and is_active of PNanoVDB, getValue of CNanoVDB:
      one descent that ends in different expressions. */
  datatype Query = QueryAddress | QueryDim | QueryActive | QueryValue

  datatype Finding<V> = AddressIs(address: Address, level: nat) | DimIs(dim: nat) | ActiveIs(on: bool) | ValueIs(v: V)

  /** What each query reports at the slot where its descent ends. */
  function AtSlot<V>(t: Tree<V>, q: Query, a: Address): Finding<V>
    requires WellFormed(t) && ValidAddress(t, a)
  {
    match q
    case QueryAddress => AddressIs(a, AddressLevel(a))
    case QueryDim => DimIs(if a.BackgroundAddress? then 4096 else AddressDim(a))
    case QueryActive => ActiveIs(ReadSlot(t, GetState, a).on)
    case QueryValue => ValueIs(ReadSlot(t, GetValue, a).v)
  }

  lemma RootAddressIsValid<V>(t: Tree<V>, ijk: Coord)
    requires WellFormed(t)
    ensures ValidAddress(t, RootAddress(t, ijk))
  {
    RootGoesThroughSlot(t, GetValue, SetVoxel, ijk, t.background);
  }

  /** The uncached answer to a query. */
  function RootQuery<V>(t: Tree<V>, q: Query, ijk: Coord): Finding<V>
    requires WellFormed(t)
  {
    RootAddressIsValid(t, ijk);
    AtSlot(t, q, RootAddress(t, ijk))
  }

  /** The queries mean what the descents of NanoVDB.h return. */
  lemma QueriesAreGets<V>(t: Tree<V>, ijk: Coord)
    requires WellFormed(t)
    ensures RootQuery(t, QueryValue, ijk).ValueIs? &&
            RootGet(t, GetValue, ijk) == Reply.Value(RootQuery(t, QueryValue, ijk).v)
    ensures RootQuery(t, QueryActive, ijk).ActiveIs? &&
            RootGet(t, GetState, ijk) == State(RootQuery(t, QueryActive, ijk).on)
    ensures ProbeTile(t, ijk).Some? ==>
            RootQuery(t, QueryDim, ijk).DimIs? && RootGet(t, GetDim, ijk) == Edge(RootQuery(t, QueryDim, ijk).dim)
    ensures ProbeTile(t, ijk).None? ==> RootQuery(t, QueryDim, ijk) == DimIs(4096)
  {
    RootAddressIsValid(t, ijk);
    RootGoesThroughSlot(t, GetValue, SetVoxel, ijk, t.background);
    RootGoesThroughSlot(t, GetState, SetVoxel, ijk, t.background);
    AddressOnPath(t, ijk);
  }

  /** What the four queries report. */
  ghost predicate AnswersAs<V>(t: Tree<V>, ijk: Coord, a: Address, level: nat, dim: nat, on: bool, v: V)
    requires WellFormed(t)
  {
    && RootQuery(t, QueryAddress, ijk) == AddressIs(a, level) && RootQuery(t, QueryDim, ijk) == DimIs(dim)
    && RootQuery(t, QueryActive, ijk) == ActiveIs(on) && RootQuery(t, QueryValue, ijk) == ValueIs(v)
  }

  /** Every query, spelled out along the path: level 0 is a leaf's voxel, 1 and 2 an entry of a
      lower or upper node, 3 a tile and 4 the background. */
  lemma QueriesOnPath<V>(t: Tree<V>, ijk: Coord)
    requires WellFormed(t)
    ensures var f, n := LeafAt(t, ijk), CoordToOffset(0, ijk);
            f.Some? ==>
              var leaf := t.leaves[f.value];
              AnswersAs(t, ijk, VoxelAddress(f.value, n), 0, 1, leaf.valueMask[n], leaf.values[n])
    ensures var l, n := LowerAt(t, ijk), CoordToOffset(1, ijk);
            l.Some? && LeafAt(t, ijk).None? ==>
              var node := t.lowers[l.value];
              |node.valueMask| == |node.table| == Size(1) && node.table[n].Value? &&
              AnswersAs(t, ijk, EntryAddress(1, l.value, n), 1, 8, node.valueMask[n], node.table[n].value)
    ensures var u, n := UpperAt(t, ijk), CoordToOffset(2, ijk);
            u.Some? && LowerAt(t, ijk).None? ==>
              var node := t.uppers[u.value];
              |node.valueMask| == |node.table| == Size(2) && node.table[n].Value? &&
              AnswersAs(t, ijk, EntryAddress(2, u.value, n), 2, 128, node.valueMask[n], node.table[n].value)
    ensures var i := ProbeTile(t, ijk);
            i.Some? && UpperAt(t, ijk).None? ==>
              AnswersAs(t, ijk, TileAddress(i.value), 3, 4096, t.tiles[i.value].state, t.tiles[i.value].value)
    ensures ProbeTile(t, ijk).None? ==> AnswersAs(t, ijk, BackgroundAddress, 4, 4096, false, t.background)
  {
    AddressOnPath(t, ijk);
    QueriesAreGets(t, ijk);
    ReadsOnPath(t, ijk);
  }

  class SingleKeyAccessor<V> {
    const mRoot: ReadAccessors.Root<V>
    var mKey: Coord
    var mNode: seq<Option<nat>>

    /** Every cached node contains the one key. */
    ghost predicate Valid()
      reads this, mRoot
    {
      WellFormed(mRoot.tree) && |mNode| == 3 && AllOnPath(mKey)
    }

    ghost predicate AllOnPath(ijk: Coord)
      requires WellFormed(mRoot.tree) && |mNode| == 3
      reads this, mRoot
    {
      forall level: Level | mNode[level].Some? :: NodeAt(mRoot.tree, level, ijk) == mNode[level]
    }

    /** The nodes on a voxel's path up to a level are exactly those cached. */
    ghost predicate PathCached(level: Level, ijk: Coord)
      requires WellFormed(mRoot.tree) && |mNode| == 3
      reads this, mRoot
    {
      forall l: Level | l <= level :: mNode[l] == NodeAt(mRoot.tree, l, ijk)
    }

    /** Nothing off the path is cached, and the lowest node on it is: the same call again
        would start from there. */
    ghost predicate Warm(ijk: Coord)
      requires WellFormed(mRoot.tree) && |mNode| == 3
      reads this, mRoot
    {
      && AllOnPath(ijk)
      && forall l: Level | NodeAt(mRoot.tree, l, ijk).Some? &&
          (forall k: Level | k < l :: NodeAt(mRoot.tree, k, ijk).None?) ::
           mNode[l] == NodeAt(mRoot.tree, l, ijk)
    }

    lemma HitIsWarm(hit: Level, ijk: Coord)
      requires Valid() && AllOnPath(ijk) && PathCached(hit, ijk) && (mNode[hit].Some? || hit == 2)
      ensures Warm(ijk)
    {
    }

    constructor (root: ReadAccessors.Root<V>, key: Coord)
      requires WellFormed(root.tree)
      ensures Valid() && mRoot == root && mKey == key && mNode == [None, None, None]
    {
      mRoot := root;
      mKey := key;
      mNode := [None, None, None];
    }

    /** iscached0, iscached1 and iscached2. */
    method IsCached(level: Level, dirty: int) returns (hit: bool)
      requires |mNode| == 3
      modifies this
      ensures mKey == old(mKey)
      ensures hit == (old(mNode)[level].Some? && And(dirty, Not(Dim(level) - 1)) == 0)
      ensures mNode == if hit then old(mNode) else old(mNode)[level := None]
    {
      if mNode[level].None? {
        return false;
      }
      if And(dirty, Not(Dim(level) - 1)) != 0 {
        mNode := mNode[level := None];
        return false;
      }
      return true;
    }

    /** A check below which all nodes are forgotten: if it fails, this one is too, and if it
        succeeds, all the nodes still cached lie on the path of the voxel. */
    method Check(level: Level, dirty: int, ghost ijk: Coord) returns (hit: bool)
      requires Valid() && dirty == Dirty(ijk, mKey)
      requires forall l: Level | l < level :: mNode[l].None?
      modifies this
      ensures Valid() && mKey == old(mKey)
      ensures hit ==> AllOnPath(ijk) && mNode[level].Some? && mNode[level].value < Count(mRoot.tree, level)
      ensures forall l: Level | l < level || (l == level && !hit) :: mNode[l].None?
    {
      hit := IsCached(level, dirty);
      if hit {
        HitContainsVoxel(mRoot.tree, mNode, mKey, level, ijk);
      }
    }

    /** The lowest node that survives its check.  Afterwards every node still cached lies on
        the path of `ijk`: lower ones are forgotten, and higher ones contain the one hit. */
    method LowestHit(ijk: Coord) returns (hit: Option<Level>)
      requires Valid()
      modifies this
      ensures Valid() && AllOnPath(ijk)
      ensures hit.Some? ==> mNode[hit.value].Some? && mNode[hit.value].value < Count(mRoot.tree, hit.value)
      ensures forall l: Level | hit.None? || l < hit.value :: mNode[l].None?
    {
      var dirty := Dirty(ijk, mKey);
      var c0 := Check(0, dirty, ijk);
      if c0 {
        return Some(0);
      }
      var c1 := Check(1, dirty, ijk);
      if c1 {
        return Some(1);
      }
      var c2 := Check(2, dirty, ijk);
      if c2 {
        return Some(2);
      }
      return None;
    }

    method Insert(level: Level, ijk: Coord, node: nat)
      requires Valid() && AllOnPath(ijk)
      requires NodeAt(mRoot.tree, level, ijk) == Some(node)
      modifies this
      ensures Valid() && AllOnPath(ijk)
      ensures mKey == ijk && mNode == old(mNode)[level := Some(node)]
    {
      mNode := mNode[level := Some(node)];
      mKey := ijk;
    }

    /* ---- reading ---- */

    /** The descent that all queries share: it caches the children it passes and stops at
        the slot of the voxel. */
    method NodeDescendAndCache(level: Level, i: nat, ijk: Coord) returns (a: Address)
      requires Valid() && AllOnPath(ijk)
      requires NodeAt(mRoot.tree, level, ijk) == Some(i) && i < Count(mRoot.tree, level)
      requires mNode[level] == Some(i) && forall l: Level | l < level :: mNode[l].None?
      modifies this
      ensures Valid() && AllOnPath(ijk)
      ensures a == NodeAddress(mRoot.tree, level, i, ijk)
      ensures PathCached(level, ijk) && mNode[level..] == old(mNode)[level..]
      decreases level, 1
    {
      var n := CoordToOffset(level, ijk);
      if level == 0 {
        return VoxelAddress(i, n);
      }
      ChildOnPath(mRoot.tree, level, i, ijk);
      var child := ChildAt(mRoot.tree, level, i, ijk);
      if child.Some? {
        a := ChildDescendAndCache(level - 1, child.value, ijk);
        OneMoreCached(level, i, ijk);
      } else {
        NoChild(level, i, ijk);
        a := EntryAddress(level, i, n);
      }
    }

    /** The branch for a child: it is cached before the descent goes on in it. */
    method ChildDescendAndCache(level: Level, child: nat, ijk: Coord) returns (a: Address)
      requires Valid() && AllOnPath(ijk)
      requires NodeAt(mRoot.tree, level, ijk) == Some(child) && child < Count(mRoot.tree, level)
      requires forall l: Level | l <= level :: mNode[l].None?
      modifies this
      ensures Valid() && AllOnPath(ijk)
      ensures a == NodeAddress(mRoot.tree, level, child, ijk)
      ensures PathCached(level, ijk) && mNode[level + 1..] == old(mNode)[level + 1..]
      decreases level, 2
    {
      Insert(level, ijk, child);
      a := NodeDescendAndCache(level, child, ijk);
      assert mNode[level + 1..] == mNode[level..][1..];
    }

    lemma OneMoreCached(level: Level, i: nat, ijk: Coord)
      requires Valid() && level > 0 && PathCached(level - 1, ijk)
      requires mNode[level] == Some(i) && NodeAt(mRoot.tree, level, ijk) == Some(i)
      ensures PathCached(level, ijk)
    {
    }

    lemma NoChild(level: Level, i: nat, ijk: Coord)
      requires Valid() && level > 0 && NodeAt(mRoot.tree, level - 1, ijk).None?
      requires mNode[level] == Some(i) && NodeAt(mRoot.tree, level, ijk) == Some(i)
      requires forall l: Level | l < level :: mNode[l].None?
      ensures PathCached(level, ijk)
    {
    }

    method RootDescendAndCache(ijk: Coord) returns (a: Address)
      requires Valid() && AllOnPath(ijk)
      requires forall l: Level :: mNode[l].None?
      modifies this
      ensures Valid() && AllOnPath(ijk)
      ensures a == RootAddress(mRoot.tree, ijk)
      ensures PathCached(2, ijk)
    {
      var tile := mRoot.Probe(ijk);
      if tile.None? {
        return BackgroundAddress;
      }
      assert TileOk(mRoot.tree, mRoot.tree.tiles[tile.value]);
      var child := mRoot.tree.tiles[tile.value].child;
      if child.Some? {
        a := ChildDescendAndCache(2, child.value, ijk);
      } else {
        a := TileAddress(tile.value);
      }
    }

    /** pnanovdb_readaccessor_get_value_address_and_level, _get_dim and _is_active, and
        cnanovdb_readaccessor_getValue and _isActive. */
    method Lookup(q: Query, ijk: Coord) returns (r: Finding<V>)
      requires Valid()
      modifies this
      ensures Valid() && Warm(ijk)
      ensures r == RootQuery(mRoot.tree, q, ijk)
    {
      var hit := LowestHit(ijk);
      var a;
      if hit.Some? {
        AddressFromPath(mRoot.tree, hit.value, mNode[hit.value].value, ijk);
        a := NodeDescendAndCache(hit.value, mNode[hit.value].value, ijk);
        HitIsWarm(hit.value, ijk);
      } else {
        a := RootDescendAndCache(ijk);
        HitIsWarm(2, ijk);
      }
      RootAddressIsValid(mRoot.tree, ijk);
      r := AtSlot(mRoot.tree, q, a);
    }

    /** cnanovdb_readaccessor_getLeaf: non-null exactly when a leaf covers the voxel. */
    method GetLeaf(ijk: Coord) returns (leaf: Option<nat>)
      requires Valid()
      modifies this
      ensures Valid() && Warm(ijk)
      ensures leaf == LeafAt(mRoot.tree, ijk)
    {
      var hit := LowestHit(ijk);
      if hit == Some(0) {
        HitIsWarm(0, ijk);
        return mNode[0];
      } else if hit.Some? {
        var _ := NodeDescendAndCache(hit.value, mNode[hit.value].value, ijk);
        HitIsWarm(hit.value, ijk);
      } else {
        var _ := RootDescendAndCache(ijk);
        HitIsWarm(2, ijk);
      }
      return mNode[0];
    }

    /* ---- writing ---- */

    method NodeSetValueAndCache(level: Level, i: nat, ijk: Coord, v: V) returns (written: bool)
      requires Valid() && AllOnPath(ijk)
      requires NodeAt(mRoot.tree, level, ijk) == Some(i) && i < Count(mRoot.tree, level)
      requires mNode[level] == Some(i) && forall l: Level | l < level :: mNode[l].None?
      modifies this, mRoot
      ensures Valid() && AllOnPath(ijk)
      ensures written <==> LeafAt(old(mRoot.tree), ijk).Some?
      ensures mRoot.tree == RootSet(old(mRoot.tree), SetVoxel, ijk, v)
      ensures PathCached(level, ijk) && mNode[level..] == old(mNode)[level..]
      decreases level, 1
    {
      SetFromPath(mRoot.tree, level, i, SetVoxel, ijk, v);
      if level == 0 {
        Write(SetAtVoxel(mRoot.tree, i, CoordToOffset(0, ijk), v), ijk, v);
        return true;
      }
      ChildOnPath(mRoot.tree, level, i, ijk);
      var child := ChildAt(mRoot.tree, level, i, ijk);
      if child.Some? {
        written := ChildSetValueAndCache(level - 1, child.value, ijk, v);
        SameNode(old(mRoot.tree), level, ijk, v);
        OneMoreCached(level, i, ijk);
      } else {
        NoChild(level, i, ijk);
        return false;
      }
    }

    method ChildSetValueAndCache(level: Level, child: nat, ijk: Coord, v: V) returns (written: bool)
      requires Valid() && AllOnPath(ijk)
      requires NodeAt(mRoot.tree, level, ijk) == Some(child) && child < Count(mRoot.tree, level)
      requires forall l: Level | l <= level :: mNode[l].None?
      modifies this, mRoot
      ensures Valid() && AllOnPath(ijk)
      ensures written <==> LeafAt(old(mRoot.tree), ijk).Some?
      ensures mRoot.tree == RootSet(old(mRoot.tree), SetVoxel, ijk, v)
      ensures PathCached(level, ijk) && mNode[level + 1..] == old(mNode)[level + 1..]
      decreases level, 2
    {
      Insert(level, ijk, child);
      written := NodeSetValueAndCache(level, child, ijk, v);
      assert mNode[level + 1..] == mNode[level..][1..];
    }

    method RootSetValueAndCache(ijk: Coord, v: V) returns (written: bool)
      requires Valid() && AllOnPath(ijk)
      requires forall l: Level :: mNode[l].None?
      modifies this, mRoot
      ensures Valid() && AllOnPath(ijk)
      ensures written <==> LeafAt(old(mRoot.tree), ijk).Some?
      ensures mRoot.tree == RootSet(old(mRoot.tree), SetVoxel, ijk, v)
      ensures PathCached(2, ijk)
    {
      var tile := mRoot.Probe(ijk);
      if tile.None? {
        return false;
      }
      assert TileOk(mRoot.tree, mRoot.tree.tiles[tile.value]);
      var child := mRoot.tree.tiles[tile.value].child;
      if child.None? {
        return false;
      }
      written := ChildSetValueAndCache(2, child.value, ijk, v);
    }

    lemma SameNode(t: Tree<V>, level: Level, ijk: Coord, v: V)
      requires WellFormed(t) && WellFormed(mRoot.tree) && mRoot.tree == RootSet(t, SetVoxel, ijk, v)
      ensures NodeAt(mRoot.tree, level, ijk) == NodeAt(t, level, ijk)
    {
      SetKeepsTopology(t, SetVoxel, ijk, v);
      TopologyFixesPaths(t, mRoot.tree, ijk);
    }

    method Write(t: Tree<V>, ghost ijk: Coord, ghost v: V)
      requires Valid()
      requires t == RootSet(mRoot.tree, SetVoxel, ijk, v)
      modifies mRoot
      ensures Valid() && mRoot.tree == t
      ensures forall level: Level :: NodeAt(mRoot.tree, level, ijk) == NodeAt(old(mRoot.tree), level, ijk)
    {
      SetKeepsTopology(mRoot.tree, SetVoxel, ijk, v);
      TopologyFixesPaths(mRoot.tree, t, mKey);
      TopologyFixesPaths(mRoot.tree, t, ijk);
      mRoot.tree := t;
    }

    /** cnanovdb_readaccessor_setValue: true exactly when it wrote that one voxel. */
    method SetValue(ijk: Coord, v: V) returns (written: bool)
      requires Valid()
      modifies this, mRoot
      ensures Valid() && Warm(ijk)
      ensures written <==> LeafAt(old(mRoot.tree), ijk).Some?
      ensures mRoot.tree == RootSet(old(mRoot.tree), SetVoxel, ijk, v)
    {
      var hit := LowestHit(ijk);
      if hit.Some? {
        written := NodeSetValueAndCache(hit.value, mNode[hit.value].value, ijk, v);
        HitIsWarm(hit.value, ijk);
      } else {
        written := RootSetValueAndCache(ijk, v);
        HitIsWarm(2, ijk);
      }
    }
  }

  /** If the check of a level is clean and the nodes below it are forgotten, then all the
      nodes on the key's path are on the voxel's path. */
  lemma HitContainsVoxel<V>(t: Tree<V>, nodes: seq<Option<nat>>, key: Coord, level: Level, ijk: Coord)
    requires WellFormed(t) && |nodes| == 3
    requires forall l: Level | nodes[l].Some? :: NodeAt(t, l, key) == nodes[l]
    requires forall l: Level | l < level :: nodes[l].None?
    requires nodes[level].Some? && And(Dirty(ijk, key), Not(Dim(level) - 1)) == 0
    ensures forall l: Level | nodes[l].Some? :: NodeAt(t, l, ijk) == nodes[l]
    ensures nodes[level].value < Count(t, level)
  {
    DirtyMeansOtherNode(level, ijk, key);
    forall l: Level | nodes[l].Some? ensures NodeAt(t, l, ijk) == nodes[l] {
      NestUpTo(level, l, ijk, key);
      PathOfBlock(t, l, ijk, key);
    }
  }

  lemma {:induction false} NestUpTo(level: Level, k: Level, a: Coord, b: Coord)
    requires level <= k && SameBlock(a, b, level)
    ensures SameBlock(a, b, k)
    decreases k
  {
    if level < k {
      NestUpTo(level, k - 1, a, b);
      BlocksNest(a, b, k);
    }
  }

  /* ---- whole traces ---- */

  datatype Call<V> = CallLookup(q: Query, ijk: Coord) | CallGetLeaf(ijk: Coord) | CallSetValue(ijk: Coord, v: V)

  datatype Answer<V> = Found(finding: Finding<V>) | LeafIs(leaf: Option<nat>) | Written(written: bool)

  /** What uncached access to the tree of the moment answers and leaves behind. */
  ghost predicate IsStep<V(!new)>(t: Tree<V>, call: Call<V>, answer: Answer<V>, t': Tree<V>) {
    && WellFormed(t)
    && match call
       case CallLookup(q, ijk) => answer == Found(RootQuery(t, q, ijk)) && t' == t
       case CallGetLeaf(ijk) => answer == LeafIs(LeafAt(t, ijk)) && t' == t
       case CallSetValue(ijk, v) => answer == Written(LeafAt(t, ijk).Some?) && t' == RootSet(t, SetVoxel, ijk, v)
  }

  method Dispatch<V(!new)>(acc: SingleKeyAccessor<V>, call: Call<V>) returns (answer: Answer<V>)
    requires acc.Valid()
    modifies acc, acc.mRoot
    ensures acc.Valid()
    ensures IsStep(old(acc.mRoot.tree), call, answer, acc.mRoot.tree)
  {
    match call {
      case CallLookup(q, ijk) =>
        var r := acc.Lookup(q, ijk);
        answer := Found(r);
      case CallGetLeaf(ijk) =>
        var r := acc.GetLeaf(ijk);
        answer := LeafIs(r);
      case CallSetValue(ijk, v) =>
        var r := acc.SetValue(ijk, v);
        answer := Written(r);
    }
  }

  /** One call by one of the accessors of a shared tree leaves all of them valid. */
  method Step<V(!new)>(accessors: seq<SingleKeyAccessor<V>>, root: ReadAccessors.Root<V>, who: nat, call: Call<V>)
    returns (answer: Answer<V>)
    requires who < |accessors| && WellFormed(root.tree)
    requires forall a | a in accessors :: a.Valid() && a.mRoot == root
    modifies root, accessors
    ensures forall a | a in accessors :: a.Valid()
    ensures IsStep(old(root.tree), call, answer, root.tree)
  {
    answer := Dispatch(accessors[who], call);
    StepKeepsTopology(old(root.tree), call, answer, root.tree);
    forall a | a in accessors ensures a.Valid() {
      if a != accessors[who] {
        assert a.mKey == old(a.mKey) && a.mNode == old(a.mNode);
        TopologyFixesPaths(old(root.tree), root.tree, a.mKey);
      }
    }
  }

  lemma StepKeepsTopology<V(!new)>(t: Tree<V>, call: Call<V>, answer: Answer<V>, t': Tree<V>)
    requires IsStep(t, call, answer, t')
    ensures WellFormed(t') && SameTopology(t, t')
  {
    match call
    case CallSetValue(ijk, v) => SetKeepsTopology(t, SetVoxel, ijk, v);
    case _ =>
  }

  ghost predicate IsStepOfAny<V(!new)>(t: Tree<V>, call: (nat, Call<V>), answer: Answer<V>, t': Tree<V>) {
    IsStep(t, call.1, answer, t')
  }

  /** Any number of accessors share one tree, which they also write: every answer in every run is
      the uncached one on the tree of the moment. */
  method RunTrace<V(!new)>(accessors: seq<SingleKeyAccessor<V>>, root: ReadAccessors.Root<V>,
                           calls: seq<(nat, Call<V>)>)
    returns (answers: seq<Answer<V>>, ghost trees: seq<Tree<V>>)
    requires forall a | a in accessors :: a.Valid() && a.mRoot == root
    requires forall c | c in calls :: c.0 < |accessors|
    requires WellFormed(root.tree)
    modifies root, accessors
    ensures forall a | a in accessors :: a.Valid()
    ensures |answers| == |calls| && IsHistory(IsStepOfAny, trees, calls, answers)
    ensures trees[0] == old(root.tree) && trees[|calls|] == root.tree
  {
    answers, trees := [], [root.tree];
    while |answers| < |calls|
      invariant |answers| <= |calls| && IsHistory(IsStepOfAny, trees, calls, answers)
      invariant WellFormed(root.tree) && trees[0] == old(root.tree) && trees[|answers|] == root.tree
      invariant forall a | a in accessors :: a.Valid()
    {
      var n := |answers|;
      assert calls[n] in calls;
      var answer := Step(accessors, root, calls[n].0, calls[n].1);
      StepKeepsTopology(trees[n], calls[n].1, answer, root.tree);
      ExtendHistory(IsStepOfAny, trees, calls, answers, answer, root.tree);
      answers, trees := answers + [answer], trees + [root.tree];
    }
  }
}
