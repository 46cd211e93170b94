/** What a write does to a tree: it keeps the topology, and it changes the value of
    exactly the cube of voxels that share the written slot. */
module VdbWrites {
  import opened Coords
  import opened Wrappers
  import opened VdbTree

  /** The slot where a descent ends: what PNanoVDB returns as a value address.
      `level` is 1 or 2, the level of the internal node that holds a tile value. */
  datatype Address =
    | BackgroundAddress
    | TileAddress(tile: nat)
    | EntryAddress(level: Level, node: nat, n: nat)
    | VoxelAddress(leaf: nat, n: nat)

  /** The level PNanoVDB reports along with an address. */
  function AddressLevel(a: Address): nat {
    match a
    case BackgroundAddress => 4
    case TileAddress(_) => 3
    case EntryAddress(level, _, _) => level
    case VoxelAddress(_, _) => 0
  }

  /** *_get_value_address_and_level of an internal node or a leaf. */
  function NodeAddress<V>(t: Tree<V>, level: Level, i: nat, ijk: Coord): Address
    requires WellFormed(t) && i < Count(t, level)
    decreases level
  {
    var n := CoordToOffset(level, ijk);
    if level == 0 then VoxelAddress(i, n)
    else if ChildAt(t, level, i, ijk).Some? then NodeAddress(t, level - 1, ChildAt(t, level, i, ijk).value, ijk)
    else EntryAddress(level, i, n)
  }

  /** pnanovdb_root_get_value_address_and_level. */
  function RootAddress<V>(t: Tree<V>, ijk: Coord): Address
    requires WellFormed(t)
  {
    var tile := ProbeTile(t, ijk);
    if tile.None? then BackgroundAddress
    else
      assert TileOk(t, t.tiles[tile.value]);
      var child := t.tiles[tile.value].child;
      if child.Some? then NodeAddress(t, 2, child.value, ijk) else TileAddress(tile.value)
  }

  lemma {:induction false} AddressFromPath<V>(t: Tree<V>, level: Level, i: nat, ijk: Coord)
    requires WellFormed(t)
    requires NodeAt(t, level, ijk) == Some(i)
    ensures i < Count(t, level)
    ensures RootAddress(t, ijk) == NodeAddress(t, level, i, ijk)
    decreases 2 - level
  {
    if level < 2 {
      var parent := NodeAt(t, level + 1, ijk);
      assert parent.Some?;
      ChildOnPath(t, level + 1, parent.value, ijk);
      AddressFromPath(t, level + 1, parent.value, ijk);
    }
  }

  /** The slot an address names, spelled out along the path of a voxel. */
  lemma AddressOnPath<V>(t: Tree<V>, ijk: Coord)
    requires WellFormed(t)
    ensures RootAddress(t, ijk) ==
            var tile, u, l, f := ProbeTile(t, ijk), UpperAt(t, ijk), LowerAt(t, ijk), LeafAt(t, ijk);
            if tile.None? then BackgroundAddress
            else if u.None? then TileAddress(tile.value)
            else if l.None? then EntryAddress(2, u.value, CoordToOffset(2, ijk))
            else if f.None? then EntryAddress(1, l.value, CoordToOffset(1, ijk))
            else VoxelAddress(f.value, CoordToOffset(0, ijk))
  {
    var u, l, f := UpperAt(t, ijk), LowerAt(t, ijk), LeafAt(t, ijk);
    if u.Some? {
      ChildOnPath(t, 2, u.value, ijk);
      AddressFromPath(t, 2, u.value, ijk);
      if l.Some? {
        ChildOnPath(t, 1, l.value, ijk);
      }
    }
  }

  /** The edge of the cube of voxels that a slot holds the value of. */
  function AddressDim(a: Address): nat {
    match a
    case BackgroundAddress => 0
    case TileAddress(_) => 4096
    case EntryAddress(level, _, _) => ChildDim(level)
    case VoxelAddress(_, _) => 1
  }

  /** a and b lie in the same cube of edge `dim` of the grid of such cubes. */
  predicate InCube(a: Coord, b: Coord, dim: nat) {
    dim > 0 && a.x / dim == b.x / dim && a.y / dim == b.y / dim && a.z / dim == b.z / dim
  }

  lemma CubesAreBlocks(a: Coord, b: Coord)
    ensures InCube(a, b, 1) <==> a == b
    ensures InCube(a, b, 8) <==> SameBlock(a, b, 0)
    ensures InCube(a, b, 128) <==> SameBlock(a, b, 1)
    ensures InCube(a, b, 4096) <==> SameBlock(a, b, 2)
  {
  }

  /** Two voxels share a slot exactly when they lie in the cube of that slot. */
  lemma SlotsAreCubes<V>(t: Tree<V>, a: Coord, b: Coord)
    requires WellFormed(t)
    requires RootAddress(t, a) != BackgroundAddress
    ensures RootAddress(t, a) == RootAddress(t, b) <==> InCube(a, b, AddressDim(RootAddress(t, a)))
  {
    AddressOnPath(t, a);
    AddressOnPath(t, b);
    CubesAreBlocks(a, b);
    SameEntry(0, a, b);
    SameEntry(1, a, b);
    SameEntry(2, a, b);
    if SameBlock(a, b, 2) { PathOfBlock(t, 2, a, b); }
    if SameBlock(a, b, 1) { PathOfBlock(t, 1, a, b); }
    if SameBlock(a, b, 0) { PathOfBlock(t, 0, a, b); }
  }

  /* ---- reading and writing through an address ---- */

  ghost predicate ValidAddress<V>(t: Tree<V>, a: Address) {
    match a
    case BackgroundAddress => true
    case TileAddress(i) => i < |t.tiles|
    case EntryAddress(level, i, n) =>
      && 0 < level && i < Count(t, level) && n < Size(level)
      && InternalOk(InternalAt(t, level, i), level) && !InternalAt(t, level, i).childMask[n]
    case VoxelAddress(i, n) => i < |t.leaves| && n < Size(0)
  }

  function ReadSlot<V>(t: Tree<V>, op: GetOp, a: Address): Reply<V>
    requires WellFormed(t) && ValidAddress(t, a) && OpLevel(op) == 0
  {
    match a
    case BackgroundAddress => GetAtBackground(t, op)
    case TileAddress(i) => GetAtTile(t, i, op)
    case EntryAddress(level, i, n) => GetAtEntry(t, level, i, n, op)
    case VoxelAddress(i, n) => GetAtVoxel(t, i, n, op)
  }

  function WriteSlot<V>(t: Tree<V>, op: SetOp, a: Address, v: V): Tree<V>
    requires WellFormed(t) && ValidAddress(t, a)
  {
    match a
    case BackgroundAddress => t
    case TileAddress(i) => SetAtTile(t, i, op, v)
    case EntryAddress(level, i, n) => SetAtEntry(t, level, i, n, op, v)
    case VoxelAddress(i, n) => SetAtVoxel(t, i, n, v)
  }

  lemma {:induction false} NodeGetsSlot<V>(t: Tree<V>, level: Level, i: nat, getOp: GetOp, ijk: Coord)
    requires WellFormed(t) && i < Count(t, level) && OpLevel(getOp) == 0
    ensures var a := NodeAddress(t, level, i, ijk);
            ValidAddress(t, a) && NodeGet(t, level, i, getOp, ijk) == ReadSlot(t, getOp, a)
    decreases level
  {
    if level > 0 {
      assert level == 2 ==> UpperOk(t, InternalAt(t, level, i));
      assert level == 1 ==> LowerOk(t, InternalAt(t, level, i));
      var child := ChildAt(t, level, i, ijk);
      if child.Some? {
        NodeGetsSlot(t, level - 1, child.value, getOp, ijk);
      }
    }
  }

  lemma {:induction false} NodeSetsSlot<V>(t: Tree<V>, level: Level, i: nat, setOp: SetOp, ijk: Coord, v: V)
    requires WellFormed(t) && i < Count(t, level)
    requires ValidAddress(t, NodeAddress(t, level, i, ijk))
    ensures NodeSet(t, level, i, setOp, ijk, v) == WriteSlot(t, setOp, NodeAddress(t, level, i, ijk), v)
    decreases level
  {
    if level > 0 {
      var child := ChildAt(t, level, i, ijk);
      if child.Some? {
        NodeSetsSlot(t, level - 1, child.value, setOp, ijk, v);
      }
    }
  }

  /** Reading and writing a voxel is reading and writing the slot at its address. */
  lemma RootGoesThroughSlot<V>(t: Tree<V>, getOp: GetOp, setOp: SetOp, ijk: Coord, v: V)
    requires WellFormed(t) && OpLevel(getOp) == 0
    ensures var a := RootAddress(t, ijk);
            && ValidAddress(t, a)
            && RootGet(t, getOp, ijk) == ReadSlot(t, getOp, a)
            && RootSet(t, setOp, ijk, v) == WriteSlot(t, setOp, a, v)
            && RootGet(t, GetDim, ijk) == Edge(AddressDim(a))
  {
    var tile := ProbeTile(t, ijk);
    if tile.Some? {
      assert TileOk(t, t.tiles[tile.value]);
      var child := t.tiles[tile.value].child;
      if child.Some? {
        NodeGetsSlot(t, 2, child.value, getOp, ijk);
        NodeGetsSlot(t, 2, child.value, GetDim, ijk);
        NodeSetsSlot(t, 2, child.value, setOp, ijk, v);
      }
    }
  }

  /* ---- topology ---- */

  /** Same nodes, masks, flags and child entries: all that a cache depends on. */
  ghost predicate SameTopology<V>(t: Tree<V>, t': Tree<V>) {
    && t.background == t'.background
    && |t.tiles| == |t'.tiles| && |t.uppers| == |t'.uppers| && |t.lowers| == |t'.lowers| && |t.leaves| == |t'.leaves|
    && (forall i | 0 <= i < |t.tiles| :: t'.tiles[i] == t.tiles[i].(value := t'.tiles[i].value))
    && (forall i | 0 <= i < |t.uppers| :: SameInternal(t.uppers[i], t'.uppers[i]))
    && (forall i | 0 <= i < |t.lowers| :: SameInternal(t.lowers[i], t'.lowers[i]))
    && (forall i | 0 <= i < |t.leaves| :: t'.leaves[i] == t.leaves[i].(values := t'.leaves[i].values)
                                          && |t'.leaves[i].values| == |t.leaves[i].values|)
  }

  ghost predicate SameInternal<V>(a: Internal<V>, b: Internal<V>) {
    && b == a.(table := b.table)
    && |a.table| == |b.table|
    && forall n | 0 <= n < |a.table| :: (a.table[n].Child? || b.table[n].Child?) ==> a.table[n] == b.table[n]
  }

  lemma WriteKeepsTopology<V>(t: Tree<V>, op: SetOp, a: Address, v: V)
    requires WellFormed(t) && ValidAddress(t, a)
    ensures SameTopology(t, WriteSlot(t, op, a, v))
  {
  }

  lemma TopologyKeepsShape<V>(t: Tree<V>, t': Tree<V>)
    requires WellFormed(t) && SameTopology(t, t')
    ensures WellFormed(t')
  {
    forall i | 0 <= i < |t'.tiles| ensures TileOk(t', t'.tiles[i]) {
      assert TileOk(t, t.tiles[i]);
      assert t.tiles[i].child.Some? ==>
             SameInternal(t.uppers[t.tiles[i].child.value], t'.uppers[t.tiles[i].child.value]);
    }
    forall i | 0 <= i < |t'.uppers| ensures UpperOk(t', t'.uppers[i]) {
      assert UpperOk(t, t.uppers[i]) && SameInternal(t.uppers[i], t'.uppers[i]);
      forall n | 0 <= n < Size(2) && t'.uppers[i].table[n].Child?
        ensures t'.uppers[i].table[n].index < |t'.lowers|
        ensures Block(t'.lowers[t'.uppers[i].table[n].index].bboxMin, 1) == EntryOrigin(t'.uppers[i], 2, n)
      {
        assert t.uppers[i].table[n] == t'.uppers[i].table[n];
        var k := t.uppers[i].table[n].index;
        assert SameInternal(t.lowers[k], t'.lowers[k]);
      }
    }
    forall i | 0 <= i < |t'.lowers| ensures LowerOk(t', t'.lowers[i]) {
      assert LowerOk(t, t.lowers[i]) && SameInternal(t.lowers[i], t'.lowers[i]);
      forall n | 0 <= n < Size(1) && t'.lowers[i].table[n].Child?
        ensures t'.lowers[i].table[n].index < |t'.leaves|
        ensures Block(t'.leaves[t'.lowers[i].table[n].index].bboxMin, 0) == EntryOrigin(t'.lowers[i], 1, n)
      {
        assert t.lowers[i].table[n] == t'.lowers[i].table[n];
      }
    }
  }

  lemma SameKeysSameTile<V>(a: seq<Tile<V>>, b: seq<Tile<V>>, key: Coord)
    requires |a| == |b|
    requires forall i | 0 <= i < |a| :: a[i].key == b[i].key
    ensures FindTile(a, key) == FindTile(b, key)
  {
  }

  /** Trees of one topology send every voxel down the same path, to the same slot. */
  lemma TopologyFixesPaths<V>(t: Tree<V>, t': Tree<V>, ijk: Coord)
    requires WellFormed(t) && WellFormed(t') && SameTopology(t, t')
    ensures forall level: Level :: NodeAt(t', level, ijk) == NodeAt(t, level, ijk)
    ensures RootAddress(t', ijk) == RootAddress(t, ijk)
  {
    SameKeysSameTile(t.tiles, t'.tiles, Block(ijk, 2));
    var u := UpperAt(t, ijk);
    assert UpperAt(t', ijk) == u;
    if u.Some? {
      assert UpperOk(t, t.uppers[u.value]) && SameInternal(t.uppers[u.value], t'.uppers[u.value]);
      var l := LowerAt(t, ijk);
      assert LowerAt(t', ijk) == l;
      if l.Some? {
        assert LowerOk(t, t.lowers[l.value]) && SameInternal(t.lowers[l.value], t'.lowers[l.value]);
        assert LeafAt(t', ijk) == LeafAt(t, ijk);
      }
    }
    AddressOnPath(t, ijk);
    AddressOnPath(t', ijk);
  }

  lemma SetKeepsTopology<V>(t: Tree<V>, op: SetOp, ijk: Coord, v: V)
    requires WellFormed(t)
    ensures WellFormed(RootSet(t, op, ijk, v)) && SameTopology(t, RootSet(t, op, ijk, v))
  {
    RootGoesThroughSlot(t, GetValue, op, ijk, v);
    WriteKeepsTopology(t, op, RootAddress(t, ijk), v);
    TopologyKeepsShape(t, RootSet(t, op, ijk, v));
  }

  /* ---- what a write changes ---- */

  /** The voxels whose value a write at `at` replaces: for SetValue those of the slot's
      cube, for SetVoxel only `at` itself and only if a leaf holds it. */
  predicate Overwrites<V>(t: Tree<V>, op: SetOp, at: Coord, ijk: Coord)
    requires WellFormed(t)
  {
    var dim := AddressDim(RootAddress(t, at));
    if op.SetValue? then InCube(at, ijk, dim) else dim == 1 && at == ijk
  }

  function WithValue<V>(r: Reply<V>, v: V): Reply<V> {
    match r
    case Value(_) => Reply.Value(v)
    case Probe(on, _) => Probe(on, v)
    case _ => r
  }

  /** What slot b reads after a write to slot a. */
  ghost predicate ReadsAfter<V>(t: Tree<V>, setOp: SetOp, a: Address, v: V, getOp: GetOp, b: Address)
    requires WellFormed(t) && ValidAddress(t, a) && ValidAddress(t, b) && OpLevel(getOp) == 0
    requires WellFormed(WriteSlot(t, setOp, a, v)) && ValidAddress(WriteSlot(t, setOp, a, v), b)
  {
    ReadSlot(WriteSlot(t, setOp, a, v), getOp, b) ==
    if a == b && (if setOp.SetValue? then !a.BackgroundAddress? else a.VoxelAddress?)
    then WithValue(ReadSlot(t, getOp, b), v) else ReadSlot(t, getOp, b)
  }

  lemma ReadAfterVoxelWrite<V>(t: Tree<V>, setOp: SetOp, a: Address, v: V, getOp: GetOp, b: Address)
    requires WellFormed(t) && ValidAddress(t, a) && ValidAddress(t, b) && OpLevel(getOp) == 0
    requires WellFormed(WriteSlot(t, setOp, a, v)) && ValidAddress(WriteSlot(t, setOp, a, v), b)
    requires a.VoxelAddress?
    ensures ReadsAfter(t, setOp, a, v, getOp, b)
  {
  }

  lemma ReadAfterEntryWrite<V>(t: Tree<V>, setOp: SetOp, a: Address, v: V, getOp: GetOp, b: Address)
    requires WellFormed(t) && ValidAddress(t, a) && ValidAddress(t, b) && OpLevel(getOp) == 0
    requires WellFormed(WriteSlot(t, setOp, a, v)) && ValidAddress(WriteSlot(t, setOp, a, v), b)
    requires a.EntryAddress?
    ensures ReadsAfter(t, setOp, a, v, getOp, b)
  {
    if b.EntryAddress? && b.level == a.level && b.node == a.node {
      var node, node' := InternalAt(t, a.level, a.node), InternalAt(WriteSlot(t, setOp, a, v), a.level, a.node);
      assert node' == node.(table := node'.table);
    }
  }

  lemma ReadAfterWrite<V>(t: Tree<V>, setOp: SetOp, a: Address, v: V, getOp: GetOp, b: Address)
    requires WellFormed(t) && ValidAddress(t, a) && ValidAddress(t, b) && OpLevel(getOp) == 0
    requires WellFormed(WriteSlot(t, setOp, a, v)) && ValidAddress(WriteSlot(t, setOp, a, v), b)
    ensures ReadsAfter(t, setOp, a, v, getOp, b)
  {
    match a
    case BackgroundAddress =>
    case TileAddress(_) =>
    case EntryAddress(_, _, _) => ReadAfterEntryWrite(t, setOp, a, v, getOp, b);
    case VoxelAddress(_, _) => ReadAfterVoxelWrite(t, setOp, a, v, getOp, b);
  }

  /** After a write, every voxel of the written cube reads the new value, and every
      other voxel, state, edge and node reads as before. */
  lemma GetAfterSet<V>(t: Tree<V>, setOp: SetOp, at: Coord, v: V, getOp: GetOp, ijk: Coord)
    requires WellFormed(t)
    ensures var t' := RootSet(t, setOp, at, v);
            && WellFormed(t')
            && RootGet(t', getOp, ijk) ==
               if Overwrites(t, setOp, at, ijk) then WithValue(RootGet(t, getOp, ijk), v) else RootGet(t, getOp, ijk)
  {
    var t' := RootSet(t, setOp, at, v);
    SetKeepsTopology(t, setOp, at, v);
    TopologyFixesPaths(t, t', ijk);
    if OpLevel(getOp) == 0 {
      GetAfterSlotWrite(t, setOp, at, v, getOp, ijk);
    } else {
      SameKeysSameTile(t.tiles, t'.tiles, Block(ijk, 2));
      NodesAreOnPath(t, ijk);
      NodesAreOnPath(t', ijk);
      assert NodeAt(t', 1, ijk) == NodeAt(t, 1, ijk) && NodeAt(t', 2, ijk) == NodeAt(t, 2, ijk);
    }
  }

  lemma GetAfterSlotWrite<V>(t: Tree<V>, setOp: SetOp, at: Coord, v: V, getOp: GetOp, ijk: Coord)
    requires WellFormed(t) && OpLevel(getOp) == 0
    requires var t' := RootSet(t, setOp, at, v); WellFormed(t') && RootAddress(t', ijk) == RootAddress(t, ijk)
    ensures RootGet(RootSet(t, setOp, at, v), getOp, ijk) ==
            if Overwrites(t, setOp, at, ijk) then WithValue(RootGet(t, getOp, ijk), v) else RootGet(t, getOp, ijk)
  {
    var a, b := RootAddress(t, at), RootAddress(t, ijk);
    RootGoesThroughSlot(t, getOp, setOp, at, v);
    RootGoesThroughSlot(t, getOp, setOp, ijk, v);
    RootGoesThroughSlot(RootSet(t, setOp, at, v), getOp, setOp, ijk, v);
    assert SameTopology(t, RootSet(t, setOp, at, v)) by { WriteKeepsTopology(t, setOp, a, v); }
    assert ValidAddress(RootSet(t, setOp, at, v), b);
    ReadAfterWrite(t, setOp, a, v, getOp, b);
    CubesAreBlocks(at, ijk);
    if a != BackgroundAddress {
      SlotsAreCubes(t, at, ijk);
    }
  }

  /** SetValue, spelled out along the path: the voxels that read the new value are the one voxel if
      a leaf holds it, else those of the entry of the lowest node, else those of the tile. */
  lemma SetValueOnPath<V>(t: Tree<V>, at: Coord, v: V, ijk: Coord)
    requires WellFormed(t)
    ensures WellFormed(RootSet(t, SetValue, at, v))
    ensures var hit :=
              if LeafAt(t, at).Some? then ijk == at
              else if LowerAt(t, at).Some? then SameBlock(ijk, at, 0)
              else if UpperAt(t, at).Some? then SameBlock(ijk, at, 1)
              else ProbeTile(t, at).Some? && SameBlock(ijk, at, 2);
            RootGet(RootSet(t, SetValue, at, v), GetValue, ijk) ==
            if hit then Reply.Value(v) else RootGet(t, GetValue, ijk)
    ensures RootGet(RootSet(t, SetValue, at, v), GetState, ijk) == RootGet(t, GetState, ijk)
  {
    GetAfterSet(t, SetValue, at, v, GetValue, ijk);
    GetAfterSet(t, SetValue, at, v, GetState, ijk);
    ReadsOnPath(t, ijk);
    AddressOnPath(t, at);
    CubesAreBlocks(at, ijk);
  }

  /** SetVoxel changes the value of that one voxel, and nothing at all outside the leaves. */
  lemma SetVoxelWritesOneVoxel<V>(t: Tree<V>, at: Coord, v: V, ijk: Coord)
    requires WellFormed(t)
    ensures WellFormed(RootSet(t, SetVoxel, at, v))
    ensures RootGet(RootSet(t, SetVoxel, at, v), GetValue, ijk) ==
            if at == ijk && LeafAt(t, at).Some? then Reply.Value(v) else RootGet(t, GetValue, ijk)
    ensures LeafAt(t, at).None? ==> RootSet(t, SetVoxel, at, v) == t
  {
    GetAfterSet(t, SetVoxel, at, v, GetValue, ijk);
    AddressOnPath(t, at);
    RootGoesThroughSlot(t, GetValue, SetVoxel, at, v);
  }
}
