/** The four-level sparse tree: a root table of tiles over 32^3, 16^3 and 8^3
    nodes, and the operations that descend it from the root without a cache.

    Nodes live in one sequence per level and refer to each other by index, as the
    byte offsets of the source do.  Values are opaque. */
module VdbTree {
  import opened Coords
  import opened Wrappers

  /** InternalData::Tile, a union: a tile value or the offset of a child node. */
  datatype Entry<V> = Value(value: V) | Child(index: nat)

  /** RootData::Tile: `child` is None where the source stores offset zero. */
  datatype Tile<V> = Tile(key: Coord, child: Option<nat>, state: bool, value: V)

  /** Bit 0 of mFlags is `skip`. */
  datatype Internal<V> =
    Internal(bboxMin: Coord, skip: bool, valueMask: seq<bool>, childMask: seq<bool>, table: seq<Entry<V>>)

  datatype Leaf<V> = Leaf(bboxMin: Coord, skip: bool, valueMask: seq<bool>, values: seq<V>)

  datatype Tree<V> =
    Tree(background: V, tiles: seq<Tile<V>>, uppers: seq<Internal<V>>, lowers: seq<Internal<V>>, leaves: seq<Leaf<V>>)

  /* ---- well-formed trees ---- */

  ghost predicate InternalOk<V>(node: Internal<V>, level: Level) {
    && |node.valueMask| == |node.childMask| == |node.table| == Size(level)
    && forall n | 0 <= n < Size(level) :: node.childMask[n] == node.table[n].Child?
  }

  ghost predicate TileOk<V>(t: Tree<V>, tile: Tile<V>) {
    && Aligned(tile.key, 2)
    && (tile.child.Some? ==> tile.child.value < |t.uppers| && Block(t.uppers[tile.child.value].bboxMin, 2) == tile.key)
  }

  ghost predicate UpperOk<V>(t: Tree<V>, node: Internal<V>) {
    && InternalOk(node, 2)
    && forall n | 0 <= n < Size(2) && node.table[n].Child? ::
         && node.table[n].index < |t.lowers|
         && Block(t.lowers[node.table[n].index].bboxMin, 1) == EntryOrigin(node, 2, n)
  }

  ghost predicate LowerOk<V>(t: Tree<V>, node: Internal<V>) {
    && InternalOk(node, 1)
    && forall n | 0 <= n < Size(1) && node.table[n].Child? ::
         && node.table[n].index < |t.leaves|
         && Block(t.leaves[node.table[n].index].bboxMin, 0) == EntryOrigin(node, 1, n)
  }

  function EntryOrigin<V>(node: Internal<V>, level: Level, n: nat): Coord
    requires n < Size(level)
  {
    BlockIsAligned(node.bboxMin, level);
    OffsetToGlobalCoord(level, Block(node.bboxMin, level), n)
  }

  /** What a valid grid buffer guarantees: one tile per key, a child entry exactly
      where the child mask is on, and every child placed where its entry says. */
  ghost predicate WellFormed<V>(t: Tree<V>) {
    && (forall i | 0 <= i < |t.tiles| :: TileOk(t, t.tiles[i]))
    && (forall i, j | 0 <= i < j < |t.tiles| :: t.tiles[i].key != t.tiles[j].key)
    && (forall i | 0 <= i < |t.uppers| :: UpperOk(t, t.uppers[i]))
    && (forall i | 0 <= i < |t.lowers| :: LowerOk(t, t.lowers[i]))
    && (forall i | 0 <= i < |t.leaves| :: |t.leaves[i].valueMask| == |t.leaves[i].values| == Size(0))
  }

  /* ---- the path of a coordinate ---- */

  /** The first tile with a key, which is where probe stops. */
  function FindTile<V>(tiles: seq<Tile<V>>, key: Coord): (r: Option<nat>)
    ensures r.Some? ==> r.value < |tiles| && tiles[r.value].key == key
    ensures forall j | 0 <= j < (if r.Some? then r.value else |tiles|) :: tiles[j].key != key
  {
    if tiles == [] then None
    else if tiles[0].key == key then Some(0)
    else
      match FindTile(tiles[1..], key)
      case None => assert forall j | 1 <= j < |tiles| :: tiles[j] == tiles[1..][j - 1]; None
      case Some(i) => assert forall j | 1 <= j < i + 1 :: tiles[j] == tiles[1..][j - 1]; Some(i + 1)
  }

  function ProbeTile<V>(t: Tree<V>, ijk: Coord): (r: Option<nat>)
    ensures r.Some? ==> r.value < |t.tiles|
  {
    FindTile(t.tiles, Block(ijk, 2))
  }

  ghost function UpperAt<V>(t: Tree<V>, ijk: Coord): (r: Option<nat>)
    requires WellFormed(t)
    ensures r.Some? ==> r.value < |t.uppers| && Block(t.uppers[r.value].bboxMin, 2) == Block(ijk, 2)
  {
    var tile := ProbeTile(t, ijk);
    if tile.None? then None else assert TileOk(t, t.tiles[tile.value]); t.tiles[tile.value].child
  }

  ghost function LowerAt<V>(t: Tree<V>, ijk: Coord): (r: Option<nat>)
    requires WellFormed(t)
    ensures r.Some? ==> r.value < |t.lowers| && Block(t.lowers[r.value].bboxMin, 1) == Block(ijk, 1)
  {
    var u := UpperAt(t, ijk);
    if u.None? then None
    else
      var node := t.uppers[u.value];
      assert UpperOk(t, node);
      var n := CoordToOffset(2, ijk);
      OffsetThenCoord(2, ijk);
      if node.childMask[n] then Some(node.table[n].index) else None
  }

  ghost function LeafAt<V>(t: Tree<V>, ijk: Coord): (r: Option<nat>)
    requires WellFormed(t)
    ensures r.Some? ==> r.value < |t.leaves| && Block(t.leaves[r.value].bboxMin, 0) == Block(ijk, 0)
  {
    var l := LowerAt(t, ijk);
    if l.None? then None
    else
      var node := t.lowers[l.value];
      assert LowerOk(t, node);
      var n := CoordToOffset(1, ijk);
      OffsetThenCoord(1, ijk);
      if node.childMask[n] then Some(node.table[n].index) else None
  }

  /** The node of a level on the path from the root to a voxel. */
  ghost function NodeAt<V>(t: Tree<V>, level: Level, ijk: Coord): Option<nat>
    requires WellFormed(t)
  {
    if level == 0 then LeafAt(t, ijk) else if level == 1 then LowerAt(t, ijk) else UpperAt(t, ijk)
  }

  /** All the voxels of a block share their path down to that block's level. */
  lemma {:induction false} PathOfBlock<V>(t: Tree<V>, level: Level, a: Coord, b: Coord)
    requires WellFormed(t)
    requires SameBlock(a, b, level)
    ensures NodeAt(t, level, a) == NodeAt(t, level, b)
    decreases 2 - level
  {
    if level < 2 {
      SameEntry(level + 1, a, b);
      PathOfBlock(t, level + 1, a, b);
    }
  }

  /* ---- nodes by level ---- */

  function Count<V>(t: Tree<V>, level: Level): nat {
    if level == 0 then |t.leaves| else if level == 1 then |t.lowers| else |t.uppers|
  }

  function InternalAt<V>(t: Tree<V>, level: Level, i: nat): Internal<V>
    requires level > 0 && i < Count(t, level)
  {
    if level == 1 then t.lowers[i] else t.uppers[i]
  }

  /** isChild(n) followed by getChild(n). */
  function ChildAt<V>(t: Tree<V>, level: Level, i: nat, ijk: Coord): (r: Option<nat>)
    requires WellFormed(t) && level > 0 && i < Count(t, level)
    ensures r.Some? ==> r.value < Count(t, level - 1)
  {
    var node := InternalAt(t, level, i);
    var n := CoordToOffset(level, ijk);
    assert level == 2 ==> UpperOk(t, node);
    assert level == 1 ==> LowerOk(t, node);
    if node.childMask[n] then Some(node.table[n].index) else None
  }

  lemma ChildOnPath<V>(t: Tree<V>, level: Level, i: nat, ijk: Coord)
    requires WellFormed(t) && level > 0
    requires NodeAt(t, level, ijk) == Some(i)
    ensures i < Count(t, level)
    ensures NodeAt(t, level - 1, ijk) == ChildAt(t, level, i, ijk)
  {
  }

  /* ---- random access: get ---- */

  datatype GetOp = GetValue | GetState | ProbeValue | GetDim | GetLeaf | GetLower | GetUpper | GetTile

  /** OpT::LEVEL: the level at which the descent stops. */
  function OpLevel(op: GetOp): nat {
    match op
    case GetLower => 1
    case GetUpper => 2
    case GetTile => 3
    case _ => 0
  }

  datatype Reply<V> =
    | Value(v: V)
    | State(on: bool)
    | Probe(on: bool, v: V)
    | Edge(dim: nat)
    | Node(node: Option<nat>)

  /** OpT::get(root). */
  function GetAtBackground<V>(t: Tree<V>, op: GetOp): Reply<V> {
    match op
    case GetValue => Reply.Value(t.background)
    case GetState => State(false)
    case ProbeValue => Probe(false, t.background)
    case GetDim => Edge(0)
    case _ => Node(None)
  }

  /** OpT::get(tile). */
  function GetAtTile<V>(t: Tree<V>, i: nat, op: GetOp): Reply<V>
    requires i < |t.tiles|
  {
    var tile := t.tiles[i];
    match op
    case GetValue => Reply.Value(tile.value)
    case GetState => State(tile.state)
    case ProbeValue => Probe(tile.state, tile.value)
    case GetDim => Edge(4096)
    case GetTile => Node(Some(i))
    case _ => Node(None)
  }

  /** OpT::get(node, n) of an internal node; a level-0 operation only sees tile entries. */
  function GetAtEntry<V>(t: Tree<V>, level: Level, i: nat, n: nat, op: GetOp): Reply<V>
    requires WellFormed(t) && 0 < level && i < Count(t, level) && n < Size(level)
    requires OpLevel(op) <= level
    requires OpLevel(op) < level ==> !InternalAt(t, level, i).childMask[n]
  {
    var node := InternalAt(t, level, i);
    match op
    case GetValue => Reply.Value(node.table[n].value)
    case GetState => State(node.valueMask[n])
    case ProbeValue => Probe(node.valueMask[n], node.table[n].value)
    case GetDim => Edge(ChildDim(level))
    case GetLeaf => Node(None)
    case GetLower => Node(if level == 1 then Some(i) else None)
    case GetUpper => Node(Some(i))
  }

  /** OpT::get(leaf, n). */
  function GetAtVoxel<V>(t: Tree<V>, i: nat, n: nat, op: GetOp): Reply<V>
    requires WellFormed(t) && i < |t.leaves| && n < Size(0) && OpLevel(op) == 0
  {
    var leaf := t.leaves[i];
    match op
    case GetValue => Reply.Value(leaf.values[n])
    case GetState => State(leaf.valueMask[n])
    case ProbeValue => Probe(leaf.valueMask[n], leaf.values[n])
    case GetDim => Edge(1)
    case GetLeaf => Node(Some(i))
  }

  /** `get` of an internal node or a leaf. */
  function NodeGet<V>(t: Tree<V>, level: Level, i: nat, op: GetOp, ijk: Coord): Reply<V>
    requires WellFormed(t) && i < Count(t, level) && OpLevel(op) <= level
    decreases level
  {
    var n := CoordToOffset(level, ijk);
    if level == 0 then GetAtVoxel(t, i, n, op)
    else if OpLevel(op) < level && ChildAt(t, level, i, ijk).Some? then
      NodeGet(t, level - 1, ChildAt(t, level, i, ijk).value, op, ijk)
    else
      GetAtEntry(t, level, i, n, op)
  }

  /** RootNode::get: the top-down descent that every accessor must agree with. */
  function RootGet<V>(t: Tree<V>, op: GetOp, ijk: Coord): Reply<V>
    requires WellFormed(t)
  {
    var tile := ProbeTile(t, ijk);
    if tile.None? then GetAtBackground(t, op)
    else
      assert TileOk(t, t.tiles[tile.value]);
      var child := t.tiles[tile.value].child;
      if OpLevel(op) < 3 && child.Some? then NodeGet(t, 2, child.value, op, ijk)
      else GetAtTile(t, tile.value, op)
  }

  /** Starting from any node on the path gives what starting from the root gives. */
  lemma {:induction false} GetFromPath<V>(t: Tree<V>, level: Level, i: nat, op: GetOp, ijk: Coord)
    requires WellFormed(t) && OpLevel(op) <= level
    requires NodeAt(t, level, ijk) == Some(i)
    ensures i < Count(t, level)
    ensures RootGet(t, op, ijk) == NodeGet(t, level, i, op, ijk)
    decreases 2 - level
  {
    if level < 2 {
      var parent := NodeAt(t, level + 1, ijk);
      assert parent.Some?;
      ChildOnPath(t, level + 1, parent.value, ijk);
      GetFromPath(t, level + 1, parent.value, op, ijk);
    }
  }

  /** What the four level-0 reads of a voxel report. */
  ghost predicate ReadsAs<V>(t: Tree<V>, ijk: Coord, on: bool, v: V, dim: nat)
    requires WellFormed(t)
  {
    && RootGet(t, GetValue, ijk) == Reply.Value(v) && RootGet(t, GetState, ijk) == State(on)
    && RootGet(t, ProbeValue, ijk) == Probe(on, v) && RootGet(t, GetDim, ijk) == Edge(dim)
  }

  /** What a leaf reports: the voxel's own state and value. */
  lemma LeafReads<V>(t: Tree<V>, i: nat, ijk: Coord)
    requires WellFormed(t) && i < |t.leaves|
    ensures var on, v := t.leaves[i].valueMask[CoordToOffset(0, ijk)], t.leaves[i].values[CoordToOffset(0, ijk)];
            && NodeGet(t, 0, i, GetValue, ijk) == Reply.Value(v) && NodeGet(t, 0, i, GetState, ijk) == State(on)
            && NodeGet(t, 0, i, ProbeValue, ijk) == Probe(on, v) && NodeGet(t, 0, i, GetDim, ijk) == Edge(1)
  {
  }

  /** Every read, spelled out along the path: the voxel's own state and value if a leaf holds
      it, else those of the entry of the lowest node, else those of the tile, else the background. */
  lemma ReadsOnPath<V>(t: Tree<V>, ijk: Coord)
    requires WellFormed(t)
    ensures var f, n := LeafAt(t, ijk), CoordToOffset(0, ijk);
            f.Some? ==> ReadsAs(t, ijk, t.leaves[f.value].valueMask[n], t.leaves[f.value].values[n], 1)
    ensures var l, n := LowerAt(t, ijk), CoordToOffset(1, ijk);
            l.Some? && LeafAt(t, ijk).None? ==>
              var node := t.lowers[l.value];
              |node.valueMask| == |node.table| == Size(1) && node.table[n].Value? &&
              ReadsAs(t, ijk, node.valueMask[n], node.table[n].value, 8)
    ensures var u, n := UpperAt(t, ijk), CoordToOffset(2, ijk);
            u.Some? && LowerAt(t, ijk).None? ==>
              var node := t.uppers[u.value];
              |node.valueMask| == |node.table| == Size(2) && node.table[n].Value? &&
              ReadsAs(t, ijk, node.valueMask[n], node.table[n].value, 128)
    ensures var tile := ProbeTile(t, ijk);
            tile.Some? && UpperAt(t, ijk).None? ==>
              ReadsAs(t, ijk, t.tiles[tile.value].state, t.tiles[tile.value].value, 4096)
    ensures ProbeTile(t, ijk).None? ==> ReadsAs(t, ijk, false, t.background, 0)
  {
    var u, l, f := UpperAt(t, ijk), LowerAt(t, ijk), LeafAt(t, ijk);
    if u.Some? {
      assert UpperOk(t, t.uppers[u.value]);
      ChildOnPath(t, 2, u.value, ijk);
    }
    if l.Some? {
      assert LowerOk(t, t.lowers[l.value]);
      ChildOnPath(t, 1, l.value, ijk);
    }
    if f.Some? {
      LeafReads(t, f.value, ijk);
    }
    forall op: GetOp | op.GetValue? || op.GetState? || op.ProbeValue? || op.GetDim?
      ensures f.Some? ==> RootGet(t, op, ijk) == NodeGet(t, 0, f.value, op, ijk)
      ensures l.Some? ==> RootGet(t, op, ijk) == NodeGet(t, 1, l.value, op, ijk)
    {
      if l.Some? {
        GetFromPath(t, 1, l.value, op, ijk);
      }
      if f.Some? {
        GetFromPath(t, 0, f.value, op, ijk);
      }
    }
  }

  /* ---- random access: set ---- */

  datatype SetOp = SetValue | SetVoxel

  /** OpT::set(tile, v). */
  function SetAtTile<V>(t: Tree<V>, i: nat, op: SetOp, v: V): Tree<V>
    requires i < |t.tiles|
  {
    match op
    case SetValue => t.(tiles := t.tiles[i := t.tiles[i].(value := v)])
    case SetVoxel => t
  }

  /** OpT::set(node, n, v) of an internal node: the union is overwritten unseen. */
  function SetAtEntry<V>(t: Tree<V>, level: Level, i: nat, n: nat, op: SetOp, v: V): Tree<V>
    requires WellFormed(t) && 0 < level && i < Count(t, level) && n < Size(level)
  {
    var node := InternalAt(t, level, i);
    assert level == 2 ==> UpperOk(t, node);
    assert level == 1 ==> LowerOk(t, node);
    var node' := node.(table := node.table[n := Entry.Value(v)]);
    match op
    case SetValue => if level == 1 then t.(lowers := t.lowers[i := node']) else t.(uppers := t.uppers[i := node'])
    case SetVoxel => t
  }

  /** OpT::set(leaf, n, v): the value changes and the active state does not. */
  function SetAtVoxel<V>(t: Tree<V>, i: nat, n: nat, v: V): Tree<V>
    requires WellFormed(t) && i < |t.leaves| && n < Size(0)
  {
    t.(leaves := t.leaves[i := t.leaves[i].(values := t.leaves[i].values[n := v])])
  }

  /** `set` of an internal node or a leaf. */
  function NodeSet<V>(t: Tree<V>, level: Level, i: nat, op: SetOp, ijk: Coord, v: V): Tree<V>
    requires WellFormed(t) && i < Count(t, level)
    decreases level
  {
    var n := CoordToOffset(level, ijk);
    if level == 0 then SetAtVoxel(t, i, n, v)
    else if ChildAt(t, level, i, ijk).Some? then
      NodeSet(t, level - 1, ChildAt(t, level, i, ijk).value, op, ijk, v)
    else
      SetAtEntry(t, level, i, n, op, v)
  }

  /** RootNode::set; setting the background does nothing. */
  function RootSet<V>(t: Tree<V>, op: SetOp, ijk: Coord, v: V): Tree<V>
    requires WellFormed(t)
  {
    var tile := ProbeTile(t, ijk);
    if tile.None? then t
    else
      assert TileOk(t, t.tiles[tile.value]);
      var child := t.tiles[tile.value].child;
      if child.Some? then NodeSet(t, 2, child.value, op, ijk, v)
      else SetAtTile(t, tile.value, op, v)
  }

  lemma {:induction false} SetFromPath<V>(t: Tree<V>, level: Level, i: nat, op: SetOp, ijk: Coord, v: V)
    requires WellFormed(t)
    requires NodeAt(t, level, ijk) == Some(i)
    ensures i < Count(t, level)
    ensures RootSet(t, op, ijk, v) == NodeSet(t, level, i, op, ijk, v)
    decreases 2 - level
  {
    if level < 2 {
      var parent := NodeAt(t, level + 1, ijk);
      assert parent.Some?;
      ChildOnPath(t, level + 1, parent.value, ijk);
      SetFromPath(t, level + 1, parent.value, op, ijk, v);
    }
  }

  lemma GetLeafOnPath<V>(t: Tree<V>, ijk: Coord)
    requires WellFormed(t)
    ensures RootGet(t, GetLeaf, ijk) == Node(LeafAt(t, ijk))
  {
    var u, l := UpperAt(t, ijk), LowerAt(t, ijk);
    if l.Some? {
      ChildOnPath(t, 1, l.value, ijk);
      GetFromPath(t, 1, l.value, GetLeaf, ijk);
    } else if u.Some? {
      ChildOnPath(t, 2, u.value, ijk);
      GetFromPath(t, 2, u.value, GetLeaf, ijk);
    }
  }

  lemma GetLowerOnPath<V>(t: Tree<V>, ijk: Coord)
    requires WellFormed(t)
    ensures RootGet(t, GetLower, ijk) == Node(LowerAt(t, ijk))
  {
    var u := UpperAt(t, ijk);
    if u.Some? {
      ChildOnPath(t, 2, u.value, ijk);
      GetFromPath(t, 2, u.value, GetLower, ijk);
    }
  }

  /** GetLeaf, GetLower, GetUpper and GetTile return what lies on the voxel's path. */
  lemma NodesAreOnPath<V>(t: Tree<V>, ijk: Coord)
    requires WellFormed(t)
    ensures RootGet(t, GetLeaf, ijk) == Node(LeafAt(t, ijk))
    ensures RootGet(t, GetLower, ijk) == Node(LowerAt(t, ijk))
    ensures RootGet(t, GetUpper, ijk) == Node(UpperAt(t, ijk))
    ensures RootGet(t, GetTile, ijk) == Node(ProbeTile(t, ijk))
  {
    GetLeafOnPath(t, ijk);
    GetLowerOnPath(t, ijk);
  }
}
