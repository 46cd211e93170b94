/** The operations of GridHandle.h on whole handles: splitting, merging, writing, reading,
    copying, adopting.

    They are stated for any format of headers that can be stamped with an index and a count;
    `NanoFormats` shows that the format of NanoVDB is one. */
module GridHandles {
  import opened Bytes
  import opened GridChains
  import opened GridHeaders
  import opened Sequences
  import opened Wrappers

  /** How to read the header of a grid and how tools::updateGridCount changes a grid. */
  datatype Format = Format(read: Reader, stamp: (seq<byte>, word32, word32) -> seq<byte>) {
    /** A stamp sets index and count; whether the header is valid afterwards does not depend
        on which, as long as the index is one. */
    ghost predicate Lawful() {
      forall g: seq<byte>, i: word32, n: word32 | |g| >= HEADER_SIZE :: Stamps(g, stamp(g, i, n), i, n)
    }

    ghost predicate Stamps(g: seq<byte>, s: seq<byte>, i: word32, n: word32) {
      && |s| == |g|
      && HeaderOf(read, s) == HeaderOf(read, g).(valid := HeaderOf(read, s).valid, index := i, count := n)
      && (i < n ==> HeaderOf(read, s).valid == HeaderOf(read, stamp(g, 0, 1)).valid)
    }

    ghost predicate SizeOk(g: seq<byte>) {
      |g| >= HEADER_SIZE && HeaderOf(read, g).size == |g|
    }

    /** Fit to be a grid of a chain, once stamped. */
    ghost predicate Fit(g: seq<byte>) {
      SizeOk(g) && HeaderOf(read, stamp(g, 0, 1)).valid
    }
  }

  /** The buffer of an empty handle is empty and its data() is null. */
  datatype GridHandle = GridHandle(mMetaData: seq<Meta>, mBuffer: seq<byte>)

  /** The handle describes these grids, whatever their headers say. */
  ghost predicate Holds(h: GridHandle, gs: seq<seq<byte>>) {
    && |h.mMetaData| == |gs| && StartsWith(h.mBuffer, Flatten(gs))
    && forall i | 0 <= i < |gs| :: HoldsAt(h.mMetaData[i], gs, i)
  }

  ghost predicate HoldsAt(m: Meta, gs: seq<seq<byte>>, i: nat)
    requires i < |gs|
  {
    m.offset == |Flatten(gs[..i])| && m.size == |gs[i]| >= HEADER_SIZE
  }

  lemma GridData(h: GridHandle, gs: seq<seq<byte>>, n: nat)
    requires Holds(h, gs) && n < |gs|
    ensures var m := h.mMetaData[n];
            m.offset + m.size <= |h.mBuffer| && HEADER_SIZE <= m.size && h.mBuffer[m.offset..m.offset + m.size] == gs[n]
  {
    assert HoldsAt(h.mMetaData[n], gs, n);
    FlattenAt(gs, n);
    PrefixAt(h.mBuffer, Flatten(gs), |Flatten(gs[..n])|, |gs[n]|);
  }

  /** The handle on exactly these grids, with nothing after them. */
  ghost function HandleOf(f: Format, gs: seq<seq<byte>>): GridHandle {
    GridHandle(LayoutOf(f.read, gs), Flatten(gs))
  }

  /** A handle that the parser made. */
  ghost predicate IsHandle(f: Format, h: GridHandle, gs: seq<seq<byte>>) {
    HoldsChain(f.read, h.mBuffer, gs) && h.mMetaData == LayoutOf(f.read, gs)
  }

  lemma HandleHolds(f: Format, h: GridHandle, gs: seq<seq<byte>>)
    requires IsHandle(f, h, gs)
    ensures Holds(h, gs)
  {
    LayoutAt(f.read, gs, 0);
    forall i | 0 <= i < |gs| ensures HoldsAt(h.mMetaData[i], gs, i) {
      LayoutAt(f.read, gs, i);
      assert IsMember(f.read, gs[i], i, |gs|);
    }
  }

  lemma ExactHandle(f: Format, gs: seq<seq<byte>>)
    requires IsChain(f.read, gs)
    ensures IsHandle(f, HandleOf(f, gs), gs)
  {
    assert Flatten(gs)[..|Flatten(gs)|] == Flatten(gs);
  }

  /** GridHandle(BufferT&&), of a buffer whose data() is not null. */
  method MakeHandle(f: Format, buffer: seq<byte>) returns (r: Result<GridHandle, Error>, ghost gs: seq<seq<byte>>)
    ensures r.Ok? ==> IsHandle(f, r.value, gs) && r.value.mBuffer == buffer
    ensures r.Err? ==> NoChain(f.read, buffer)
    ensures r.Err? ==> StopsAt(f.read, buffer, gs, r.error)
    ensures forall other | HoldsChain(f.read, buffer, other) :: other == gs
  {
    var parsed;
    parsed, gs := ParseHostGridChain(f.read, buffer);
    r := if parsed.Ok? then Ok(GridHandle(parsed.value, buffer)) else Err(parsed.error);
  }

  /** A stamped grid alone is a chain exactly when it is fit. */
  lemma SingleChain(f: Format, g: seq<byte>)
    requires f.Lawful() && f.SizeOk(g)
    ensures var s := f.stamp(g, 0, 1);
            && (f.Fit(g) ==> HoldsChain(f.read, s, [s]) && IsChain(f.read, [s]) && Flatten([s]) == s)
            && (!f.Fit(g) ==> forall other :: !HoldsChain(f.read, s, other))
  {
    var s := f.stamp(g, 0, 1);
    assert f.Stamps(g, s, 0, 1);
    FlattenAppend([], s);
    assert [] + [s] == [s] && s[..|s|] == s;
    assert Flatten([s]) == s;
    forall other | HoldsChain(f.read, s, other) ensures f.Fit(g) {
      ChainAt(f.read, s, other, 0);
      assert IsMember(f.read, other[0], 0, |other|);
      assert s[0..0 + HEADER_SIZE] == s[..HEADER_SIZE];
    }
  }

  /** The parser stops at the header of a grid that is not fit. */
  lemma SingleFault(f: Format, g: seq<byte>, gs: seq<seq<byte>>, error: Error)
    requires f.Lawful() && f.SizeOk(g) && !f.Fit(g) && StopsAt(f.read, f.stamp(g, 0, 1), gs, error)
    ensures error == InvalidHeader
  {
    var s := f.stamp(g, 0, 1);
    assert f.Stamps(g, s, 0, 1);
    if gs == [] {
      assert s[0..0 + HEADER_SIZE] == s[..HEADER_SIZE];
    } else {
      FirstIsValid(f.read, s, gs);
    }
  }

  lemma FirstIsValid(rd: Reader, buffer: seq<byte>, gs: seq<seq<byte>>)
    requires gs != [] && StartsWith(buffer, Flatten(gs)) && |buffer| >= HEADER_SIZE
    requires AreMembers(rd, gs, rd(buffer[..HEADER_SIZE]).count)
    ensures rd(buffer[..HEADER_SIZE]).valid
  {
    var count := rd(buffer[..HEADER_SIZE]).count;
    assert IsMember(rd, gs[0], 0, count);
    FlattenAt(gs, 0);
    assert gs[..0] == [];
    PrefixAt(buffer, Flatten(gs), 0, |gs[0]|);
    HeaderSlice(rd, buffer, 0, |gs[0]|);
    assert buffer[0..0 + HEADER_SIZE] == buffer[..HEADER_SIZE];
  }

  /** Why splitting fails: at the first grid that is not fit. */
  ghost predicate SplitStopsAt(f: Format, gs: seq<seq<byte>>, error: Error) {
    exists n | 0 <= n < |gs| :: IsFirstUnfit(f, gs, n) && error == if f.SizeOk(gs[n]) then InvalidHeader else BadSize
  }

  ghost predicate IsFirstUnfit(f: Format, gs: seq<seq<byte>>, n: nat) {
    n < |gs| && !f.Fit(gs[n]) && forall k | 0 <= k < n :: f.Fit(gs[k])
  }

  /** splitGrids: one handle a grid, stamped as grid 0 of 1.  It fails exactly when some
      header disagrees with the metadata about the size, or is not valid; neither happens to
      a handle that the parser made. */
  method SplitGrids(f: Format, h: GridHandle, ghost gs: seq<seq<byte>>) returns (r: Result<seq<GridHandle>, Error>)
    requires f.Lawful() && Holds(h, gs)
    ensures r.Ok? <==> forall n | 0 <= n < |gs| :: f.Fit(gs[n])
    ensures r.Err? ==> SplitStopsAt(f, gs, r.error)
    ensures r.Ok? ==> |r.value| == |gs| && forall n | 0 <= n < |gs| :: r.value[n] == HandleOf(f, [f.stamp(gs[n], 0, 1)])
  {
    var handles: seq<GridHandle> := [];
    for n := 0 to |h.mMetaData|
      invariant |handles| == n
      invariant forall k | 0 <= k < n :: f.Fit(gs[k]) && handles[k] == HandleOf(f, [f.stamp(gs[k], 0, 1)])
    {
      GridData(h, gs, n);
      var m := h.mMetaData[n];
      var src := h.mBuffer[m.offset..m.offset + m.size];
      if f.read(src[..HEADER_SIZE]).size != m.size {
        assert IsFirstUnfit(f, gs, n);
        return Err(BadSize);
      }
      SingleChain(f, src);
      var handle, found := MakeHandle(f, f.stamp(src, 0, 1));
      if handle.Err? {
        SingleFault(f, src, found, handle.error);
        assert IsFirstUnfit(f, gs, n);
        return Err(handle.error);
      }
      handles := handles + [handle.value];
    }
    return Ok(handles);
  }

  /** A number of grids as a uint32_t. */
  function Wrap32(n: nat): (r: word32)
    ensures r <= n
  {
    n % 0x1_0000_0000
  }

  /** It wraps. */
  lemma WrapIsCongruent(n: nat)
    ensures (n - Wrap32(n)) % 0x1_0000_0000 == 0
  {
  }

  lemma WrapSum(a: nat, b: nat)
    ensures Wrap32(Wrap32(a) + b) == Wrap32(a + b)
  {
  }

  /** Grids stamped with consecutive indices, on 32 bits, and a common count. */
  ghost function Restamped(f: Format, gs: seq<seq<byte>>, count: word32): seq<seq<byte>> {
    if gs == [] then []
    else Restamped(f, gs[..|gs| - 1], count) + [f.stamp(gs[|gs| - 1], Wrap32(|gs| - 1), count)]
  }

  lemma {:induction false} RestampedAt(f: Format, gs: seq<seq<byte>>, count: word32, i: nat)
    requires i < |gs|
    ensures |Restamped(f, gs, count)| == |gs| && Restamped(f, gs, count)[i] == f.stamp(gs[i], Wrap32(i), count)
  {
    var front := gs[..|gs| - 1];
    if front != [] {
      RestampedAt(f, front, count, if i < |front| then i else 0);
    }
  }

  lemma RestampedAppend(f: Format, gs: seq<seq<byte>>, g: seq<byte>, count: word32)
    ensures Restamped(f, gs + [g], count) == Restamped(f, gs, count) + [f.stamp(g, Wrap32(|gs|), count)]
  {
    assert (gs + [g])[..|gs|] == gs;
  }

  lemma {:induction false} RestampedLength(f: Format, gs: seq<seq<byte>>, count: word32)
    requires f.Lawful() && forall i | 0 <= i < |gs| :: |gs[i]| >= HEADER_SIZE
    ensures |Flatten(Restamped(f, gs, count))| == |Flatten(gs)|
  {
    if gs != [] {
      var front, g := gs[..|gs| - 1], gs[|gs| - 1];
      RestampedLength(f, front, count);
      var i := Wrap32(|gs| - 1);
      assert f.Stamps(g, f.stamp(g, i, count), i, count);
      FlattenAppend(Restamped(f, front, count), f.stamp(g, i, count));
    }
  }

  lemma RestampedMember(f: Format, gs: seq<seq<byte>>, count: word32, i: nat)
    requires f.Lawful() && i < |gs| && f.SizeOk(gs[i])
    ensures |Restamped(f, gs, count)| == |gs| && |Restamped(f, gs, count)[i]| == |gs[i]|
    ensures HeaderOf(f.read, Restamped(f, gs, count)[i]).size == |gs[i]| &&
            HeaderOf(f.read, Restamped(f, gs, count)[i]).count == count
    ensures i < count ==> (IsMember(f.read, Restamped(f, gs, count)[i], i, count) <==> f.Fit(gs[i]))
  {
    RestampedAt(f, gs, count, i);
    assert f.Stamps(gs[i], f.stamp(gs[i], Wrap32(i), count), Wrap32(i), count);
  }

  /** The grids that a restamped buffer describes: as many as the wrapped count says. */
  ghost function Described(f: Format, gs: seq<seq<byte>>): (r: seq<seq<byte>>)
    ensures |r| == Wrap32(|gs|)
  {
    if gs != [] then RestampedAt(f, gs, Wrap32(|gs|), 0); Restamped(f, gs, Wrap32(|gs|))[..Wrap32(|gs|)]
    else []
  }

  /** Restamped with their own number, the described grids form a chain exactly when they are
      fit and there are any. */
  lemma {:induction false} RestampedChain(f: Format, gs: seq<seq<byte>>)
    requires f.Lawful() && forall i | 0 <= i < |gs| :: f.SizeOk(gs[i])
    ensures IsChain(f.read, Described(f, gs)) <==> Wrap32(|gs|) > 0 && forall i | 0 <= i < Wrap32(|gs|) :: f.Fit(gs[i])
  {
    var n := Wrap32(|gs|);
    if n > 0 {
      var rs := Described(f, gs);
      forall i | 0 <= i < n ensures IsMember(f.read, rs[i], i, |rs|) <==> f.Fit(gs[i]) {
        RestampedMember(f, gs, n, i);
      }
    }
  }

  /** The first loop of mergeGrids, for one handle. */
  method Measure(f: Format, h: GridHandle, ghost gs: seq<seq<byte>>) returns (ok: bool, size: nat)
    requires Holds(h, gs)
    ensures ok <==> forall n | 0 <= n < |gs| :: f.SizeOk(gs[n])
    ensures ok ==> size == |Flatten(gs)|
  {
    size := 0;
    assert gs[..0] == [];
    for n := 0 to |h.mMetaData|
      invariant forall k | 0 <= k < n :: f.SizeOk(gs[k])
      invariant size == |Flatten(gs[..n])|
    {
      GridData(h, gs, n);
      FlattenAt(gs, n);
      var m := h.mMetaData[n];
      if f.read(h.mBuffer[m.offset..m.offset + m.size][..HEADER_SIZE]).size != m.size {
        return false, 0;
      }
      size := size + m.size;
    }
    assert gs[..|h.mMetaData|] == gs;
    ok := true;
  }

  /** The copies made so far by mergeGrids. */
  ghost predicate Copied(f: Format, dst: seq<byte>, done: seq<seq<byte>>, count: word32, offset: nat) {
    StartsWith(dst, Flatten(Restamped(f, done, count))) && offset == |Flatten(Restamped(f, done, count))|
  }

  lemma CopyNext(f: Format, dst: seq<byte>, done: seq<seq<byte>>, count: word32, offset: nat, g: seq<byte>)
    requires f.Lawful() && Copied(f, dst, done, count, offset)
    requires |g| >= HEADER_SIZE && offset + |g| <= |dst|
    ensures |f.stamp(g, Wrap32(|done|), count)| == |g|
    ensures Copied(f, Splice(dst, offset, f.stamp(g, Wrap32(|done|), count)), done + [g], count, offset + |g|)
  {
    var s := f.stamp(g, Wrap32(|done|), count);
    assert f.Stamps(g, s, Wrap32(|done|), count);
    RestampedAppend(f, done, g, count);
    FlattenAppend(Restamped(f, done, count), s);
    SplicePrefix(dst, offset, s);
  }

  lemma SplicePrefix(dst: seq<byte>, at: nat, s: seq<byte>)
    requires at + |s| <= |dst|
    ensures Splice(dst, at, s)[..at + |s|] == dst[..at] + s
  {
  }

  lemma SpliceTwice(dst: seq<byte>, at: nat, g: seq<byte>, s: seq<byte>)
    requires at + |s| <= |dst| && |g| == |s|
    ensures Splice(Splice(dst, at, g), at, s) == Splice(dst, at, s)
  {
    var d := Splice(dst, at, g);
    assert d[..at] == dst[..at] && d[at + |s|..] == dst[at + |s|..];
  }

  /** memcpy of a grid, then updateGridCount on the copy. */
  method CopyGrid(f: Format, src: seq<byte>, dst0: seq<byte>, offset: nat, counter: word32, count: word32,
                  ghost done: seq<seq<byte>>)
    returns (dst: seq<byte>, next: word32)
    requires f.Lawful() && Copied(f, dst0, done, count, offset) && counter == Wrap32(|done|)
    requires |src| >= HEADER_SIZE && offset + |src| <= |dst0|
    ensures |dst| == |dst0| && Copied(f, dst, done + [src], count, offset + |src|)
    ensures next == Wrap32(|done + [src]|)
  {
    next := Wrap32(counter + 1);
    CopyNext(f, dst0, done, count, offset, src);
    dst := Splice(dst0, offset, src);
    var stamped := f.stamp(dst[offset..offset + |src|], counter, count);
    SpliceTwice(dst0, offset, src, stamped);
    dst := Splice(dst, offset, stamped);
  }

  /** The second loop of mergeGrids, for one handle. */
  method CopyGrids(f: Format, h: GridHandle, ghost gs: seq<seq<byte>>, dst0: seq<byte>, offset0: nat,
                   counter0: word32, count: word32, ghost done: seq<seq<byte>>)
    returns (dst: seq<byte>, offset: nat, counter: word32)
    requires f.Lawful() && Holds(h, gs) && counter0 == Wrap32(|done|)
    requires Copied(f, dst0, done, count, offset0) && offset0 + |Flatten(gs)| <= |dst0|
    ensures |dst| == |dst0| && counter == Wrap32(|done + gs|) && offset == offset0 + |Flatten(gs)|
    ensures Copied(f, dst, done + gs, count, offset)
  {
    dst, offset, counter := dst0, offset0, counter0;
    ghost var copied := done;
    assert gs[..0] == [] && done + [] == done;
    for n := 0 to |h.mMetaData|
      invariant |dst| == |dst0| && counter == Wrap32(|copied|) && copied == done + gs[..n]
      invariant offset == offset0 + |Flatten(gs[..n])| && Copied(f, dst, copied, count, offset)
    {
      GridData(h, gs, n);
      FlattenAt(gs, n);
      TakeOneMore(gs, n);
      var m := h.mMetaData[n];
      var src := h.mBuffer[m.offset..m.offset + m.size];
      dst, counter := CopyGrid(f, src, dst, offset, counter, count, copied);
      copied := copied + [src];
      offset := offset + |src|;
    }
    assert gs[..|h.mMetaData|] == gs;
  }

  lemma FlattenConcat<T>(a: seq<seq<T>>, b: seq<seq<T>>)
    ensures Flatten(a + b) == Flatten(a) + Flatten(b)
  {
    FlattenSplit(a + b, |a|);
    assert (a + b)[..|a|] == a && (a + b)[|a|..] == b;
  }

  lemma FlattenTake<T>(ss: seq<seq<T>>, i: nat)
    requires i < |ss|
    ensures Flatten(ss[..i + 1]) == Flatten(ss[..i]) + ss[i]
  {
    assert ss[..i + 1] == ss[..i] + [ss[i]];
    FlattenAppend(ss[..i], ss[i]);
  }

  /** The grids of one handle among all of them. */
  lemma FlattenElements<T>(ss: seq<seq<T>>, i: nat, n: nat)
    requires i < |ss| && n < |ss[i]|
    ensures |Flatten(ss[..i])| + n < |Flatten(ss)| && Flatten(ss)[|Flatten(ss[..i])| + n] == ss[i][n]
  {
    FlattenAt(ss, i);
    assert Flatten(ss)[|Flatten(ss[..i])|..|Flatten(ss[..i])| + |ss[i]|][n] == ss[i][n];
  }

  /** The first loop of mergeGrids. */
  method MeasureAll(f: Format, handles: seq<GridHandle>, ghost gss: seq<seq<seq<byte>>>)
    returns (ok: bool, size: nat, gridCount: word32)
    requires |handles| == |gss| && forall k | 0 <= k < |gss| :: Holds(handles[k], gss[k])
    ensures ok <==> forall i | 0 <= i < |Flatten(gss)| :: f.SizeOk(Flatten(gss)[i])
    ensures ok ==> size == |Flatten(Flatten(gss))| && gridCount == Wrap32(|Flatten(gss)|)
  {
    ok, size, gridCount := true, 0, 0;
    assert gss[..0] == [];
    for k := 0 to |handles|
      invariant ok && size == |Flatten(Flatten(gss[..k]))| && gridCount == Wrap32(|Flatten(gss[..k])|)
      invariant forall i | 0 <= i < |Flatten(gss[..k])| :: f.SizeOk(Flatten(gss[..k])[i])
    {
      WrapSum(|Flatten(gss[..k])|, |gss[k]|);
      gridCount := Wrap32(gridCount + |handles[k].mMetaData|);
      var fits, n := Measure(f, handles[k], gss[k]);
      if !fits {
        ghost var bad :| 0 <= bad < |gss[k]| && !f.SizeOk(gss[k][bad]);
        FlattenElements(gss, k, bad);
        return false, 0, 0;
      }
      FlattenTake(gss, k);
      FlattenConcat(Flatten(gss[..k]), gss[k]);
      size := size + n;
    }
    assert gss[..|handles|] == gss;
  }

  /** The second loop of mergeGrids. */
  method CopyAll(f: Format, handles: seq<GridHandle>, ghost gss: seq<seq<seq<byte>>>, dst0: seq<byte>,
                 gridCount: word32)
    returns (dst: seq<byte>)
    requires f.Lawful() && |handles| == |gss| && forall k | 0 <= k < |gss| :: Holds(handles[k], gss[k])
    requires |dst0| == |Flatten(Flatten(gss))|
    ensures |dst| == |dst0| && StartsWith(dst, Flatten(Restamped(f, Flatten(gss), gridCount)))
  {
    dst := dst0;
    var offset: nat, counter: word32 := 0, 0;
    assert gss[..0] == [];
    assert StartsWith(dst, []);
    for k := 0 to |handles|
      invariant |dst| == |dst0| && counter == Wrap32(|Flatten(gss[..k])|) && offset == |Flatten(Flatten(gss[..k]))|
      invariant Copied(f, dst, Flatten(gss[..k]), gridCount, offset)
    {
      ghost var done := Flatten(gss[..k]);
      FlattenTake(gss, k);
      FlattenConcat(done, gss[k]);
      FlattenSplit(gss, k + 1);
      FlattenConcat(done + gss[k], Flatten(gss[k + 1..]));
      dst, offset, counter := CopyGrids(f, handles[k], gss[k], dst, offset, counter, gridCount, done);
    }
    assert gss[..|handles|] == gss;
  }

  /** Bytes whose headers give the right sizes and the count n hold no chain but the first n. */
  lemma {:induction false} NoOtherChain(f: Format, rs: seq<seq<byte>>, n: nat, other: seq<seq<byte>>, i: nat)
    requires HoldsChain(f.read, Flatten(rs), other) && i <= n <= |rs| && rs != []
    requires forall k | 0 <= k < |rs| :: |rs[k]| >= HEADER_SIZE && HeaderOf(f.read, rs[k]).size == |rs[k]|
                                         && HeaderOf(f.read, rs[k]).count == n
    ensures |other| == n && other[..i] == rs[..i]
  {
    if i == 0 {
      SameHeaderAt(f, rs, n, other, 0);
    } else {
      NoOtherChain(f, rs, n, other, i - 1);
      SameHeaderAt(f, rs, n, other, i - 1);
      assert other[..i] == other[..i - 1] + [other[i - 1]];
      assert rs[..i] == rs[..i - 1] + [rs[i - 1]];
    }
  }

  lemma EmptyHoldsNothing(f: Format, other: seq<seq<byte>>)
    ensures !HoldsChain(f.read, [], other)
  {
    if HoldsChain(f.read, [], other) {
      ChainAt(f.read, [], other, 0);
    }
  }

  lemma SameHeaderAt(f: Format, rs: seq<seq<byte>>, n: nat, other: seq<seq<byte>>, i: nat)
    requires HoldsChain(f.read, Flatten(rs), other) && i < |rs| && i < |other| && other[..i] == rs[..i]
    requires |rs[i]| >= HEADER_SIZE && HeaderOf(f.read, rs[i]).size == |rs[i]| && HeaderOf(f.read, rs[i]).count == n
    ensures other[i] == rs[i] && |other| == n
  {
    var at, b := |Flatten(rs[..i])|, Flatten(rs);
    assert at + |rs[i]| <= |b| && b[at..at + |rs[i]|] == rs[i] by {
      FlattenAt(rs, i);
    }
    HeaderSlice(f.read, b, at, |rs[i]|);
    ChainAt(f.read, b, other, i);
    assert IsMember(f.read, other[i], i, |other|);
  }

  lemma FirstHolds(f: Format, rs: seq<seq<byte>>, n: nat)
    requires n <= |rs| && IsChain(f.read, rs[..n])
    ensures HoldsChain(f.read, Flatten(rs), rs[..n])
  {
    FlattenSplit(rs, n);
  }

  /** The handle that mergeGrids makes: all the bytes, and the metadata of as many grids as the
      wrapped count says. */
  ghost function MergedHandle(f: Format, all: seq<seq<byte>>): GridHandle {
    GridHandle(LayoutOf(f.read, Described(f, all)), Flatten(Restamped(f, all, Wrap32(|all|))))
  }

  /** Below 2^32 grids, that is the handle on all of them. */
  lemma MergedIsAll(f: Format, all: seq<seq<byte>>)
    requires |all| < 0x1_0000_0000
    ensures Described(f, all) == Restamped(f, all, |all|)
    ensures MergedHandle(f, all) == HandleOf(f, Restamped(f, all, |all|))
  {
    assert Wrap32(|all|) == |all|;
    if all != [] {
      RestampedAt(f, all, |all|, 0);
      var rs := Restamped(f, all, |all|);
      assert rs[..|all|] == rs;
    }
  }

  /** The last step of mergeGrids: the handle on the copies. */
  method HandleOnCopies(f: Format, dst: seq<byte>, ghost all: seq<seq<byte>>) returns (r: Result<GridHandle, Error>)
    requires f.Lawful() && forall i | 0 <= i < |all| :: f.SizeOk(all[i])
    requires |dst| == |Flatten(all)| && StartsWith(dst, Flatten(Restamped(f, all, Wrap32(|all|))))
    ensures r.Ok? <==> Wrap32(|all|) > 0 && forall i | 0 <= i < Wrap32(|all|) :: f.Fit(all[i])
    ensures r.Ok? ==> r.value == MergedHandle(f, all)
  {
    ghost var n := Wrap32(|all|);
    ghost var rs := Restamped(f, all, n);
    RestampedChain(f, all);
    RestampedLength(f, all, n);
    ghost var found;
    r, found := MakeHandle(f, dst);
    assert dst == Flatten(rs) == Flatten(rs)[..|Flatten(rs)|];
    EmptyHoldsNothing(f, found);
    if r.Ok? {
      RestampedHeaders(f, all, n);
      NoOtherChain(f, rs, n, found, n);
      assert found == found[..n] == rs[..n] == Described(f, all);
    } else if IsChain(f.read, Described(f, all)) {
      RestampedAt(f, all, n, 0);
      FirstHolds(f, rs, n);
    }
  }

  lemma RestampedHeaders(f: Format, gs: seq<seq<byte>>, n: word32)
    requires f.Lawful() && forall i | 0 <= i < |gs| :: f.SizeOk(gs[i])
    ensures var rs := Restamped(f, gs, n);
            && |rs| == |gs|
            && forall k | 0 <= k < |rs| :: |rs[k]| >= HEADER_SIZE && HeaderOf(f.read, rs[k]).size == |rs[k]|
                                           && HeaderOf(f.read, rs[k]).count == n
  {
    var rs := Restamped(f, gs, n);
    if gs != [] {
      RestampedAt(f, gs, n, 0);
    }
    forall k | 0 <= k < |gs|
      ensures |rs| == |gs| && |rs[k]| >= HEADER_SIZE && HeaderOf(f.read, rs[k]).size == |rs[k]|
              && HeaderOf(f.read, rs[k]).count == n
    {
      RestampedMember(f, gs, n, k);
    }
  }

  /** The grids agree with their metadata about the sizes, and those that a merged handle would
      describe are fit; there is at least one of them. */
  ghost predicate Mergeable(f: Format, all: seq<seq<byte>>) {
    && Wrap32(|all|) > 0
    && (forall i | 0 <= i < |all| :: f.SizeOk(all[i]))
    && (forall i | 0 <= i < Wrap32(|all|) :: f.Fit(all[i]))
  }

  lemma MergeableIfFit(f: Format, all: seq<seq<byte>>)
    requires forall i | 0 <= i < |all| :: f.Fit(all[i])
    ensures Mergeable(f, all) <==> Wrap32(|all|) > 0
  {
  }

  /** mergeGrids: all grids of all handles back to back, stamped with their positions.  It fails
      exactly when some header disagrees with the metadata about the size, when there is no
      grid, or when some described grid is not valid; so handles that the parser made and that
      hold at least one grid can always be merged.  Positions and count are 32-bit words: of
      more grids than those can count, the handle describes only the first, or it is refused. */
  method MergeGrids(f: Format, handles: seq<GridHandle>, ghost gss: seq<seq<seq<byte>>>)
    returns (r: Result<GridHandle, Error>)
    requires f.Lawful() && |handles| == |gss| && forall k | 0 <= k < |gss| :: Holds(handles[k], gss[k])
    ensures var all := Flatten(gss);
            && (r.Ok? <==> Mergeable(f, all))
            && ((exists i | 0 <= i < |all| :: !f.SizeOk(all[i])) ==> r == Err(BadSize))
            && (r.Ok? ==> r.value == MergedHandle(f, all))
  {
    ghost var all := Flatten(gss);
    var ok, size, gridCount := MeasureAll(f, handles, gss);
    if !ok {
      return Err(BadSize);
    }
    var dst := CopyAll(f, handles, gss, seq(size, i => 0), gridCount);
    r := HandleOnCopies(f, dst, all);
  }
}
