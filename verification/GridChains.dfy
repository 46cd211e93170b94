/** Chains of grids back to back in one buffer: the parser and the layout check of
    GridHandle.h. */
module GridChains {
  import opened Bytes
  import opened GridHeaders
  import opened Sequences
  import opened Wrappers

  datatype Meta = Meta(offset: nat, size: nat, gridType: word32)

  datatype Error =
    Truncated | InvalidHeader | NoGrids | Inconsistent | BadSize | BadLayout | NoSuchGrid | NotAGridBuffer

  /** All elements of all sequences, in order. */
  function Flatten<T>(ss: seq<seq<T>>): seq<T> {
    if ss == [] then [] else Flatten(ss[..|ss| - 1]) + ss[|ss| - 1]
  }

  lemma FlattenAppend<T>(ss: seq<seq<T>>, s: seq<T>)
    ensures Flatten(ss + [s]) == Flatten(ss) + s
  {
    assert (ss + [s])[..|ss|] == ss;
  }

  lemma {:induction false} FlattenSplit<T>(ss: seq<seq<T>>, i: nat)
    requires i <= |ss|
    ensures Flatten(ss) == Flatten(ss[..i]) + Flatten(ss[i..])
    decreases |ss|
  {
    if i == |ss| {
      assert ss[..i] == ss && ss[i..] == [];
    } else {
      var front, last := ss[..|ss| - 1], ss[|ss| - 1];
      FlattenSplit(front, i);
      assert front[..i] == ss[..i] && ss[i..] == front[i..] + [last];
      FlattenAppend(front[i..], last);
    }
  }

  /** Where element i lies. */
  lemma FlattenAt<T>(ss: seq<seq<T>>, i: nat)
    requires i < |ss|
    ensures var at := |Flatten(ss[..i])|;
            && at + |ss[i]| == |Flatten(ss[..i + 1])| <= |Flatten(ss)|
            && Flatten(ss)[at..at + |ss[i]|] == ss[i] && Flatten(ss)[..at] == Flatten(ss[..i])
  {
    FlattenSplit(ss, i);
    FlattenSplit(ss, i + 1);
    assert ss[..i + 1] == ss[..i] + [ss[i]];
    FlattenAppend(ss[..i], ss[i]);
    var at := |Flatten(ss[..i])|;
    assert Flatten(ss) == Flatten(ss[..i]) + ss[i] + Flatten(ss[i + 1..]);
  }

  lemma {:induction false} FlattenLength(gs: seq<seq<byte>>)
    requires forall i | 0 <= i < |gs| :: |gs[i]| >= HEADER_SIZE
    ensures |Flatten(gs)| >= HEADER_SIZE * |gs|
  {
    if gs != [] {
      FlattenLength(gs[..|gs| - 1]);
    }
  }

  predicate StartsWith(buffer: seq<byte>, bytes: seq<byte>) {
    |bytes| <= |buffer| && buffer[..|bytes|] == bytes
  }

  /** How to read a header from its bytes: `GridHeaders.ReadHeader`, or any other. */
  type Reader = seq<byte> -> Header

  function HeaderOf(rd: Reader, g: seq<byte>): Header {
    if |g| < HEADER_SIZE then rd(g) else rd(g[..HEADER_SIZE])
  }

  /** The metadata of grids laid out back to back from offset zero. */
  ghost function LayoutOf(rd: Reader, gs: seq<seq<byte>>): seq<Meta> {
    if gs == [] then []
    else
      var front, g := gs[..|gs| - 1], gs[|gs| - 1];
      LayoutOf(rd, front) + [Meta(|Flatten(front)|, |g|, HeaderOf(rd, g).gridType)]
  }

  lemma {:induction false} LayoutAt(rd: Reader, gs: seq<seq<byte>>, i: nat)
    requires i < |gs|
    ensures |LayoutOf(rd, gs)| == |gs|
    ensures LayoutOf(rd, gs)[i] == Meta(|Flatten(gs[..i])|, |gs[i]|, HeaderOf(rd, gs[i]).gridType)
  {
    var front := gs[..|gs| - 1];
    if front != [] {
      LayoutAt(rd, front, if i < |front| then i else 0);
      assert i < |front| ==> front[..i] == gs[..i];
    }
  }

  ghost predicate IsMember(rd: Reader, g: seq<byte>, i: int, count: int) {
    var h := HeaderOf(rd, g);
    |g| >= HEADER_SIZE && h.valid && h.index == i && h.count == count && h.size == |g|
  }

  /** Valid grids that carry their index, their number and their size. */
  ghost predicate IsChain(rd: Reader, gs: seq<seq<byte>>) {
    gs != [] && forall i | 0 <= i < |gs| :: IsMember(rd, gs[i], i, |gs|)
  }

  ghost predicate HoldsChain(rd: Reader, buffer: seq<byte>, gs: seq<seq<byte>>) {
    IsChain(rd, gs) && StartsWith(buffer, Flatten(gs))
  }

  /** What a buffer that holds a chain shows at the start of each grid. */
  lemma ChainAt(rd: Reader, buffer: seq<byte>, gs: seq<seq<byte>>, i: nat)
    requires HoldsChain(rd, buffer, gs) && i < |gs|
    ensures var at := |Flatten(gs[..i])|;
            && at + HEADER_SIZE <= at + |gs[i]| <= |buffer| && buffer[at..at + |gs[i]|] == gs[i]
            && rd(buffer[at..at + HEADER_SIZE]) == HeaderOf(rd, gs[i])
  {
    FlattenAt(gs, i);
    assert IsMember(rd, gs[i], i, |gs|);
    PrefixAt(buffer, Flatten(gs), |Flatten(gs[..i])|, |gs[i]|);
    HeaderSlice(rd, buffer, |Flatten(gs[..i])|, |gs[i]|);
  }

  lemma PrefixAt(buffer: seq<byte>, bytes: seq<byte>, at: nat, size: nat)
    requires StartsWith(buffer, bytes) && at + size <= |bytes|
    ensures buffer[at..at + size] == bytes[at..at + size]
  {
    var b := buffer[..|bytes|];
    assert b[at..at + size] == buffer[at..at + size];
  }

  lemma HeaderSlice(rd: Reader, buffer: seq<byte>, at: nat, size: nat)
    requires at + size <= |buffer| && HEADER_SIZE <= size
    ensures HeaderOf(rd, buffer[at..at + size]) == rd(buffer[at..at + HEADER_SIZE])
  {
    assert buffer[at..at + size][..HEADER_SIZE] == buffer[at..at + HEADER_SIZE];
  }

  lemma LayoutAppend(rd: Reader, gs: seq<seq<byte>>, g: seq<byte>)
    ensures LayoutOf(rd, gs + [g]) == LayoutOf(rd, gs) + [Meta(|Flatten(gs)|, |g|, HeaderOf(rd, g).gridType)]
  {
    assert (gs + [g])[..|gs|] == gs;
  }

  /** Metadata of grids that lie behind other bytes. */
  function MovedUp(meta: seq<Meta>, distance: nat): seq<Meta> {
    seq(|meta|, i requires 0 <= i < |meta| => meta[i].(offset := distance + meta[i].offset))
  }

  lemma {:induction false} LayoutConcat(rd: Reader, a: seq<seq<byte>>, b: seq<seq<byte>>)
    ensures LayoutOf(rd, a + b) == LayoutOf(rd, a) + MovedUp(LayoutOf(rd, b), |Flatten(a)|)
    ensures |Flatten(a + b)| == |Flatten(a)| + |Flatten(b)|
    decreases |b|
  {
    if b == [] {
      assert a + b == a;
    } else {
      var front, g := b[..|b| - 1], b[|b| - 1];
      LayoutConcat(rd, a, front);
      assert a + b == a + front + [g] && b == front + [g];
      LayoutAppend(rd, a + front, g);
      FlattenAppend(a + front, g);
      LayoutAppend(rd, front, g);
      MovedUpAppend(LayoutOf(rd, front), Meta(|Flatten(front)|, |g|, HeaderOf(rd, g).gridType), |Flatten(a)|);
      Regroup(LayoutOf(rd, a), MovedUp(LayoutOf(rd, front), |Flatten(a)|),
              [Meta(|Flatten(a + front)|, |g|, HeaderOf(rd, g).gridType)]);
    }
  }

  lemma MovedUpAppend(meta: seq<Meta>, m: Meta, distance: nat)
    ensures MovedUp(meta + [m], distance) == MovedUp(meta, distance) + [m.(offset := distance + m.offset)]
  {
  }

  /** The grid that the parser has just accepted extends the chain so far. */
  lemma FlattenNext(buffer: seq<byte>, gs: seq<seq<byte>>, at: nat, size: nat)
    requires StartsWith(buffer, Flatten(gs)) && at == |Flatten(gs)| && at + size <= |buffer|
    ensures StartsWith(buffer, Flatten(gs + [buffer[at..at + size]]))
    ensures |Flatten(gs + [buffer[at..at + size]])| == at + size
  {
    var g := buffer[at..at + size];
    assert buffer[..at] + g == buffer[..at + size];
    FlattenAppend(gs, g);
  }

  ghost predicate AreMembers(rd: Reader, gs: seq<seq<byte>>, count: nat) {
    forall k | 0 <= k < |gs| :: IsMember(rd, gs[k], k, count)
  }

  /** Any chain in the buffer starts with `gs`. */
  ghost predicate Forced(rd: Reader, buffer: seq<byte>, count: nat, gs: seq<seq<byte>>) {
    forall other | HoldsChain(rd, buffer, other) :: |other| == count && |gs| <= count && other[..|gs|] == gs
  }

  /** The parser has found these grids, with this metadata, up to this offset. */
  ghost predicate Found(rd: Reader, buffer: seq<byte>, gs: seq<seq<byte>>, meta: seq<Meta>, offset: nat) {
    StartsWith(buffer, Flatten(gs)) && offset == |Flatten(gs)| && meta == LayoutOf(rd, gs)
  }

  /** The tests the parser makes at a grid. */
  predicate Passes(rd: Reader, buffer: seq<byte>, count: nat, i: nat, offset: nat) {
    && offset + HEADER_SIZE <= |buffer|
    && var h := rd(buffer[offset..offset + HEADER_SIZE]);
    && h.valid && h.index == i && h.count == count && HEADER_SIZE <= h.size <= |buffer| - offset
  }

  lemma ChainStart(rd: Reader, buffer: seq<byte>)
    ensures forall other | HoldsChain(rd, buffer, other) :: |buffer| >= HEADER_SIZE * |other| && |other| > 0
    ensures |buffer| >= HEADER_SIZE ==>
              forall other | HoldsChain(rd, buffer, other) ::
                rd(buffer[..HEADER_SIZE]).valid && rd(buffer[..HEADER_SIZE]).count == |other|
    ensures |buffer| >= HEADER_SIZE ==> Forced(rd, buffer, rd(buffer[..HEADER_SIZE]).count, [])
  {
    forall other | HoldsChain(rd, buffer, other)
      ensures |buffer| >= HEADER_SIZE * |other|
      ensures rd(buffer[..HEADER_SIZE]).valid && rd(buffer[..HEADER_SIZE]).count == |other|
    {
      assert forall i | 0 <= i < |other| :: IsMember(rd, other[i], i, |other|);
      FlattenLength(other);
      ChainAt(rd, buffer, other, 0);
      assert buffer[0..0 + HEADER_SIZE] == buffer[..HEADER_SIZE];
      assert IsMember(rd, other[0], 0, |other|);
    }
  }

  /** Any chain in the buffer makes the next grid pass, and contains it. */
  lemma ChainPasses(rd: Reader, buffer: seq<byte>, count: nat, i: nat, offset: nat, other: seq<seq<byte>>)
    requires HoldsChain(rd, buffer, other) && |other| == count && i < count && offset == |Flatten(other[..i])|
    ensures Passes(rd, buffer, count, i, offset)
    ensures other[i] == buffer[offset..offset + rd(buffer[offset..offset + HEADER_SIZE]).size]
  {
    ChainAt(rd, buffer, other, i);
    assert IsMember(rd, other[i], i, count);
  }

  lemma MembersAppend(rd: Reader, gs: seq<seq<byte>>, g: seq<byte>, count: nat)
    requires AreMembers(rd, gs, count) && IsMember(rd, g, |gs|, count)
    ensures AreMembers(rd, gs + [g], count)
  {
  }

  lemma ForcedAppend(rd: Reader, buffer: seq<byte>, count: nat, gs: seq<seq<byte>>, offset: nat, g: seq<byte>)
    requires Forced(rd, buffer, count, gs) && |gs| < count && offset == |Flatten(gs)| &&
             Passes(rd, buffer, count, |gs|, offset)
    requires g == buffer[offset..offset + rd(buffer[offset..offset + HEADER_SIZE]).size]
    ensures Forced(rd, buffer, count, gs + [g])
  {
    forall other | HoldsChain(rd, buffer, other) ensures other[..|gs| + 1] == gs + [g] {
      ChainPasses(rd, buffer, count, |gs|, offset, other);
      TakeOneMore(other, |gs|);
    }
  }

  lemma FoundNext(rd: Reader, buffer: seq<byte>, gs: seq<seq<byte>>, meta: seq<Meta>, offset: nat, h: Header,
                  g: seq<byte>)
    requires Found(rd, buffer, gs, meta, offset) && offset + HEADER_SIZE <= offset + h.size <= |buffer|
    requires h == rd(buffer[offset..offset + HEADER_SIZE]) && g == buffer[offset..offset + h.size]
    ensures Found(rd, buffer, gs + [g], meta + [Meta(offset, h.size, h.gridType)], offset + h.size)
    ensures HeaderOf(rd, g) == h
  {
    HeaderSlice(rd, buffer, offset, h.size);
    FlattenNext(buffer, gs, offset, h.size);
    LayoutAppend(rd, gs, g);
  }

  lemma Accept(rd: Reader, buffer: seq<byte>, count: nat, gs: seq<seq<byte>>, meta: seq<Meta>, offset: nat, h: Header,
               g: seq<byte>)
    requires Found(rd, buffer, gs, meta, offset) && AreMembers(rd, gs, count) && Forced(rd, buffer, count, gs)
    requires |gs| < count && Passes(rd, buffer, count, |gs|, offset)
    requires h == rd(buffer[offset..offset + HEADER_SIZE]) && g == buffer[offset..offset + h.size]
    ensures Found(rd, buffer, gs + [g], meta + [Meta(offset, h.size, h.gridType)], offset + h.size)
    ensures AreMembers(rd, gs + [g], count) && Forced(rd, buffer, count, gs + [g])
  {
    FoundNext(rd, buffer, gs, meta, offset, h, g);
    MembersAppend(rd, gs, g, count);
    ForcedAppend(rd, buffer, count, gs, offset, g);
  }

  lemma Stuck(rd: Reader, buffer: seq<byte>, count: nat, gs: seq<seq<byte>>, offset: nat)
    requires Forced(rd, buffer, count, gs) && |gs| < count && offset == |Flatten(gs)|
    requires !Passes(rd, buffer, count, |gs|, offset)
    ensures forall other :: !HoldsChain(rd, buffer, other)
  {
    forall other ensures !HoldsChain(rd, buffer, other) {
      if HoldsChain(rd, buffer, other) {
        ChainPasses(rd, buffer, count, |gs|, offset, other);
      }
    }
  }

  /** What is wrong behind the first grids of a buffer. */
  ghost function Fault(rd: Reader, buffer: seq<byte>, gs: seq<seq<byte>>): Error {
    var at := |Flatten(gs)|;
    if at + HEADER_SIZE > |buffer| then Truncated
    else
      var h := rd(buffer[at..at + HEADER_SIZE]);
      if !h.valid then InvalidHeader
      else if gs == [] && h.count == 0 then NoGrids
      else if gs == [] && h.count > |buffer| / HEADER_SIZE then Truncated
      else if h.index != |gs| || h.count != rd(buffer[..HEADER_SIZE]).count then Inconsistent
      else BadSize
  }

  /** The buffer starts with these grids, which carry their indices, and has this fault behind them. */
  ghost predicate StopsAt(rd: Reader, buffer: seq<byte>, gs: seq<seq<byte>>, error: Error) {
    && StartsWith(buffer, Flatten(gs)) && error == Fault(rd, buffer, gs)
    && (|buffer| >= HEADER_SIZE ==> AreMembers(rd, gs, rd(buffer[..HEADER_SIZE]).count))
  }

  /** The first test that fails at a grid. */
  ghost function Failure(rd: Reader, buffer: seq<byte>, count: nat, i: nat, offset: nat): Error {
    if offset + HEADER_SIZE > |buffer| then Truncated
    else
      var h := rd(buffer[offset..offset + HEADER_SIZE]);
      if !h.valid then InvalidHeader else if h.index != i || h.count != count then Inconsistent else BadSize
  }

  lemma StopsHere(rd: Reader, buffer: seq<byte>, gs: seq<seq<byte>>, meta: seq<Meta>, offset: nat, count: nat)
    requires |buffer| >= HEADER_SIZE && rd(buffer[..HEADER_SIZE]).count == count
    requires 0 < count <= |buffer| / HEADER_SIZE
    requires Found(rd, buffer, gs, meta, offset) && AreMembers(rd, gs, count)
    ensures StopsAt(rd, buffer, gs, Failure(rd, buffer, count, |gs|, offset))
  {
    assert buffer[0..0 + HEADER_SIZE] == buffer[..HEADER_SIZE];
  }

  lemma StopsAtOnce(rd: Reader, buffer: seq<byte>)
    ensures StopsAt(rd, buffer, [], Fault(rd, buffer, []))
    ensures |buffer| < HEADER_SIZE ==> Fault(rd, buffer, []) == Truncated
    ensures |buffer| >= HEADER_SIZE ==>
              var h := rd(buffer[..HEADER_SIZE]);
              && (!h.valid ==> Fault(rd, buffer, []) == InvalidHeader)
              && (h.valid && h.count == 0 ==> Fault(rd, buffer, []) == NoGrids)
              && (h.valid && h.count > |buffer| / HEADER_SIZE ==> Fault(rd, buffer, []) == Truncated)
  {
    assert |buffer| >= HEADER_SIZE ==> buffer[0..0 + HEADER_SIZE] == buffer[..HEADER_SIZE];
    assert buffer[..0] == [];
  }

  /** The tests at a grid, in order. */
  method TestGrid(rd: Reader, buffer: seq<byte>, count: nat, i: nat, offset: nat) returns (r: Result<Header, Error>)
    ensures r.Ok? <==> Passes(rd, buffer, count, i, offset)
    ensures r.Ok? ==> r.value == rd(buffer[offset..offset + HEADER_SIZE])
    ensures r.Err? ==> r.error == Failure(rd, buffer, count, i, offset)
  {
    if offset + HEADER_SIZE > |buffer| {
      return Err(Truncated);
    }
    var data := rd(buffer[offset..offset + HEADER_SIZE]);
    if !data.valid {
      return Err(InvalidHeader);
    }
    if data.index != i || data.count != count {
      return Err(Inconsistent);
    }
    if data.size < HEADER_SIZE || data.size > |buffer| - offset {
      return Err(BadSize);
    }
    return Ok(data);
  }

  /** What the loop of parseHostGridChain keeps. */
  ghost predicate Parsing(rd: Reader, buffer: seq<byte>, count: nat, gs: seq<seq<byte>>, meta: seq<Meta>, offset: nat) {
    Found(rd, buffer, gs, meta, offset) && AreMembers(rd, gs, count) && Forced(rd, buffer, count, gs)
  }

  /** A buffer for the loop: its first header says how many grids there are. */
  ghost predicate Counted(rd: Reader, buffer: seq<byte>, count: nat) {
    && |buffer| >= HEADER_SIZE && rd(buffer[..HEADER_SIZE]).count == count
    && 0 < count <= |buffer| / HEADER_SIZE
  }

  ghost predicate NoChain(rd: Reader, buffer: seq<byte>) {
    forall other :: !HoldsChain(rd, buffer, other)
  }

  /** One turn of the loop. */
  method ParseNext(rd: Reader, buffer: seq<byte>, count: nat, i: nat, offset: nat, ghost gs: seq<seq<byte>>,
                   ghost meta: seq<Meta>)
    returns (r: Result<Meta, Error>, ghost g: seq<byte>)
    requires Counted(rd, buffer, count) && Parsing(rd, buffer, count, gs, meta, offset) && i == |gs| < count
    ensures r.Ok? ==> Parsing(rd, buffer, count, gs + [g], meta + [r.value], offset + r.value.size)
    ensures r.Err? ==> NoChain(rd, buffer)
    ensures r.Err? ==> StopsAt(rd, buffer, gs, r.error)
  {
    g := [];
    var test := TestGrid(rd, buffer, count, i, offset);
    if test.Err? {
      Stuck(rd, buffer, count, gs, offset);
      StopsHere(rd, buffer, gs, meta, offset, count);
      return Err(test.error), g;
    }
    var data := test.value;
    g := buffer[offset..offset + data.size];
    Accept(rd, buffer, count, gs, meta, offset, data, g);
    return Ok(Meta(offset, data.size, data.gridType)), g;
  }

  /** The loop of parseHostGridChain. */
  method ParseGrids(rd: Reader, buffer: seq<byte>, count: nat)
    returns (r: Result<seq<Meta>, Error>, ghost gs: seq<seq<byte>>)
    requires Counted(rd, buffer, count) && Parsing(rd, buffer, count, [], [], 0)
    ensures r.Ok? ==> |gs| == count && Parsing(rd, buffer, count, gs, r.value, |Flatten(gs)|)
    ensures r.Err? ==> NoChain(rd, buffer)
    ensures r.Err? ==> StopsAt(rd, buffer, gs, r.error)
  {
    gs := [];
    var meta: seq<Meta> := [];
    var offset: nat := 0;
    for i := 0 to count
      invariant |gs| == i && Parsing(rd, buffer, count, gs, meta, offset)
    {
      var next;
      ghost var g;
      next, g := ParseNext(rd, buffer, count, i, offset, gs, meta);
      if next.Err? {
        return Err(next.error), gs;
      }
      gs := gs + [g];
      meta := meta + [next.value];
      offset := offset + next.value.size;
    }
    return Ok(meta), gs;
  }

  /** What the loop finds is the only chain. */
  lemma ChainIsFound(rd: Reader, buffer: seq<byte>, count: nat, r: Result<seq<Meta>, Error>, gs: seq<seq<byte>>)
    requires count > 0 && (r.Err? ==> NoChain(rd, buffer))
    requires r.Ok? ==> |gs| == count && Parsing(rd, buffer, count, gs, r.value, |Flatten(gs)|)
    ensures r.Ok? ==> HoldsChain(rd, buffer, gs) && r.value == LayoutOf(rd, gs)
    ensures forall other | HoldsChain(rd, buffer, other) :: other == gs
  {
    if r.Ok? {
      forall other | HoldsChain(rd, buffer, other) ensures other == gs {
        assert other[..|gs|] == other;
      }
    }
  }

  /** parseHostGridChain accepts exactly the buffers that start with a chain (padding may
      follow it), and finds its layout. */
  method ParseHostGridChain(rd: Reader, buffer: seq<byte>)
    returns (r: Result<seq<Meta>, Error>, ghost gs: seq<seq<byte>>)
    ensures r.Ok? ==> HoldsChain(rd, buffer, gs) && r.value == LayoutOf(rd, gs)
    ensures r.Err? ==> NoChain(rd, buffer)
    ensures r.Err? ==> StopsAt(rd, buffer, gs, r.error)
    ensures forall other | HoldsChain(rd, buffer, other) :: other == gs
  {
    gs := [];
    StopsAtOnce(rd, buffer);
    ChainStart(rd, buffer);
    if |buffer| < HEADER_SIZE {
      return Err(Truncated), gs;
    }
    var head := rd(buffer[..HEADER_SIZE]);
    if !head.valid {
      return Err(InvalidHeader), gs;
    }
    var count := head.count;
    if count == 0 {
      return Err(NoGrids), gs;
    }
    if count > |buffer| / HEADER_SIZE {
      return Err(Truncated), gs;
    }
    r, gs := ParseGrids(rd, buffer, count);
    ChainIsFound(rd, buffer, count, r, gs);
  }
}
