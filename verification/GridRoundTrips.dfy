/** Merging and splitting handles, one after the other, for any regular format of headers. */
module GridRoundTrips {
  import opened Bytes
  import opened GridChains
  import opened GridHandles
  import opened GridHeaders
  import opened Wrappers

  /** Every grid of a chain stays valid when it is stamped. */
  ghost predicate Regular(f: Format) {
    f.Lawful() && forall g: seq<byte>, i: nat, n: nat | IsMember(f.read, g, i, n) :: f.Fit(g)
  }

  /** A handle that the parser made, or an empty one. */
  ghost predicate ParsedOrEmpty(f: Format, h: GridHandle, gs: seq<seq<byte>>) {
    IsHandle(f, h, gs) || (gs == [] && h == GridHandle([], []))
  }

  lemma ParsedHolds(f: Format, h: GridHandle, gs: seq<seq<byte>>)
    requires Regular(f) && ParsedOrEmpty(f, h, gs)
    ensures Holds(h, gs) && h.mMetaData == LayoutOf(f.read, gs) && forall k | 0 <= k < |gs| :: f.Fit(gs[k])
  {
    if gs != [] {
      HandleHolds(f, h, gs);
      forall k | 0 <= k < |gs| ensures f.Fit(gs[k]) {
        assert IsMember(f.read, gs[k], k, |gs|);
      }
    } else {
      assert !IsChain(f.read, gs);
    }
  }

  lemma {:induction false} AllFit(f: Format, gss: seq<seq<seq<byte>>>)
    requires forall k | 0 <= k < |gss| :: forall j | 0 <= j < |gss[k]| :: f.Fit(gss[k][j])
    ensures forall i | 0 <= i < |Flatten(gss)| :: f.Fit(Flatten(gss)[i])
  {
    if gss != [] {
      AllFit(f, gss[..|gss| - 1]);
    }
  }

  /* ---- metadata ---- */

  /** The metadata of several handles, each rebased behind the grids of those before it. */
  ghost function JoinedLayout(rd: Reader, gss: seq<seq<seq<byte>>>): seq<Meta> {
    if gss == [] then []
    else
      var front, last := gss[..|gss| - 1], gss[|gss| - 1];
      JoinedLayout(rd, front) + MovedUp(LayoutOf(rd, last), |Flatten(Flatten(front))|)
  }

  lemma {:induction false} JoinedIsLayout(rd: Reader, gss: seq<seq<seq<byte>>>)
    ensures JoinedLayout(rd, gss) == LayoutOf(rd, Flatten(gss))
  {
    if gss != [] {
      JoinedIsLayout(rd, gss[..|gss| - 1]);
      LayoutConcat(rd, Flatten(gss[..|gss| - 1]), gss[|gss| - 1]);
    }
  }

  /** Stamping moves no grid. */
  lemma {:induction false} RestampedLayout(f: Format, gs: seq<seq<byte>>, count: word32)
    requires f.Lawful() && forall i | 0 <= i < |gs| :: |gs[i]| >= HEADER_SIZE
    ensures LayoutOf(f.read, Restamped(f, gs, count)) == LayoutOf(f.read, gs)
  {
    if gs != [] {
      var front, g, i := gs[..|gs| - 1], gs[|gs| - 1], Wrap32(|gs| - 1);
      RestampedLayout(f, front, count);
      RestampedLength(f, front, count);
      assert f.Stamps(g, f.stamp(g, i, count), i, count);
      LayoutAppend(f.read, Restamped(f, front, count), f.stamp(g, i, count));
    }
  }

  lemma LayoutPrefix(rd: Reader, gs: seq<seq<byte>>, n: nat)
    requires n <= |gs|
    ensures |LayoutOf(rd, gs)| == |gs| && LayoutOf(rd, gs[..n]) == LayoutOf(rd, gs)[..n]
  {
    if gs != [] {
      LayoutAt(rd, gs, 0);
    }
    if n > 0 {
      LayoutAt(rd, gs[..n], 0);
    }
    forall i | 0 <= i < n ensures |LayoutOf(rd, gs[..n])| == n && LayoutOf(rd, gs[..n])[i] == LayoutOf(rd, gs)[i] {
      LayoutAt(rd, gs, i);
      LayoutAt(rd, gs[..n], i);
      assert gs[..n][..i] == gs[..i];
    }
  }

  /** The metadata of the handle is that of the inputs, as far as the count of the merge goes. */
  ghost predicate HasJoinedLayout(f: Format, h: GridHandle, gss: seq<seq<seq<byte>>>) {
    && |JoinedLayout(f.read, gss)| == |Flatten(gss)|
    && h.mMetaData == JoinedLayout(f.read, gss)[..Wrap32(|Flatten(gss)|)]
  }

  /** The metadata of a merged handle is that of the inputs, rebased to contiguous offsets; of
      more than 2^32 grids, that of the described ones. */
  lemma MergedLayout(f: Format, gss: seq<seq<seq<byte>>>)
    requires f.Lawful() && forall i | 0 <= i < |Flatten(gss)| :: |Flatten(gss)[i]| >= HEADER_SIZE
    ensures HasJoinedLayout(f, MergedHandle(f, Flatten(gss)), gss)
  {
    var all, n := Flatten(gss), Wrap32(|Flatten(gss)|);
    JoinedIsLayout(f.read, gss);
    LayoutPrefix(f.read, all, n);
    RestampedLayout(f, all, n);
    if all != [] {
      RestampedAt(f, all, n, 0);
      LayoutPrefix(f.read, Restamped(f, all, n), n);
    }
  }

  /* ---- merging, then splitting ---- */

  lemma AllHold(f: Format, handles: seq<GridHandle>, gss: seq<seq<seq<byte>>>)
    requires Regular(f) && |handles| == |gss| && forall k | 0 <= k < |gss| :: ParsedOrEmpty(f, handles[k], gss[k])
    ensures forall k | 0 <= k < |gss| :: Holds(handles[k], gss[k])
    ensures forall i | 0 <= i < |Flatten(gss)| :: f.Fit(Flatten(gss)[i])
  {
    forall k | 0 <= k < |gss|
      ensures Holds(handles[k], gss[k]) && forall j | 0 <= j < |gss[k]| :: f.Fit(gss[k][j])
    {
      ParsedHolds(f, handles[k], gss[k]);
    }
    AllFit(f, gss);
  }

  /** Merging handles that the parser made always succeeds, as long as the number of grids is
      not zero on 32 bits. */
  method MergeParsed(f: Format, handles: seq<GridHandle>, ghost gss: seq<seq<seq<byte>>>)
    returns (merged: Result<GridHandle, Error>)
    requires Regular(f) && |handles| == |gss| && forall k | 0 <= k < |gss| :: ParsedOrEmpty(f, handles[k], gss[k])
    ensures merged.Ok? <==> Wrap32(|Flatten(gss)|) > 0
    ensures merged.Ok? ==> merged.value == MergedHandle(f, Flatten(gss)) && HasJoinedLayout(f, merged.value, gss)
    ensures forall i | 0 <= i < |Flatten(gss)| :: f.Fit(Flatten(gss)[i])
  {
    AllHold(f, handles, gss);
    MergeableIfFit(f, Flatten(gss));
    merged := MergeGrids(f, handles, gss);
    MergedLayout(f, gss);
  }

  /** The merged handle is one that the parser could have made. */
  lemma MergedIsParsed(f: Format, gs: seq<seq<byte>>)
    requires Regular(f) && Wrap32(|gs|) > 0 && forall k | 0 <= k < |gs| :: f.Fit(gs[k])
    ensures var n, ds := Wrap32(|gs|), Described(f, gs);
            && IsHandle(f, MergedHandle(f, gs), ds) && Holds(MergedHandle(f, gs), ds)
            && forall k | 0 <= k < n :: f.Fit(ds[k]) && ds[k] == f.stamp(gs[k], k, n)
  {
    var n, ds := Wrap32(|gs|), Described(f, gs);
    forall k | 0 <= k < n ensures f.Fit(ds[k]) && ds[k] == f.stamp(gs[k], k, n) {
      RestampedAt(f, gs, n, k);
      RestampedMember(f, gs, n, k);
      assert IsMember(f.read, ds[k], k, n);
    }
    RestampedChain(f, gs);
    RestampedAt(f, gs, n, 0);
    FirstHolds(f, Restamped(f, gs, n), n);
    HandleHolds(f, MergedHandle(f, gs), ds);
  }

  /** One handle a grid, in order, as far as the count of the merge goes. */
  ghost predicate AreParts(f: Format, parts: seq<GridHandle>, all: seq<seq<byte>>) {
    && |parts| == Wrap32(|all|)
    && forall i | 0 <= i < |parts| :: parts[i] == HandleOf(f, [Detour(f, all[i], i, |parts|)])
  }

  method SplitMerged(f: Format, merged: GridHandle, ghost all: seq<seq<byte>>)
    returns (parts: Result<seq<GridHandle>, Error>)
    requires Regular(f) && Wrap32(|all|) > 0 && forall i | 0 <= i < |all| :: f.Fit(all[i])
    requires merged == MergedHandle(f, all)
    ensures parts.Ok? && AreParts(f, parts.value, all)
  {
    MergedIsParsed(f, all);
    parts := SplitGrids(f, merged, Described(f, all));
  }

  /** A grid stamped as grid i of n by a merge, and then split off. */
  ghost function Detour(f: Format, g: seq<byte>, i: word32, n: word32): seq<byte> {
    f.stamp(f.stamp(g, i, n), 0, 1)
  }

  /** Merging any handles that the parser made and splitting the result: all their grids, in
      order, each stamped twice.  Of more than 2^32 grids, only the first come back. */
  method MergeAndSplit(f: Format, handles: seq<GridHandle>, ghost gss: seq<seq<seq<byte>>>)
    returns (parts: Result<seq<GridHandle>, Error>)
    requires Regular(f) && |handles| == |gss| && forall k | 0 <= k < |gss| :: ParsedOrEmpty(f, handles[k], gss[k])
    ensures parts.Ok? <==> Wrap32(|Flatten(gss)|) > 0
    ensures parts.Ok? ==> AreParts(f, parts.value, Flatten(gss))
    ensures forall i | 0 <= i < |Flatten(gss)| :: |Flatten(gss)[i]| >= HEADER_SIZE
  {
    var merged := MergeParsed(f, handles, gss);
    assert forall i | 0 <= i < |Flatten(gss)| :: f.Fit(Flatten(gss)[i]);
    if merged.Err? {
      return Err(merged.error);
    }
    parts := SplitMerged(f, merged.value, Flatten(gss));
  }

  /* ---- splitting, then merging ---- */

  /** The grids of a handle, split off. */
  ghost function Singles(f: Format, gs: seq<seq<byte>>): seq<seq<byte>> {
    seq(|gs|, k requires 0 <= k < |gs| => f.stamp(gs[k], 0, 1))
  }

  lemma SingleFits(f: Format, g: seq<byte>)
    requires Regular(f) && f.Fit(g)
    ensures f.Fit(f.stamp(g, 0, 1)) && Holds(HandleOf(f, [f.stamp(g, 0, 1)]), [f.stamp(g, 0, 1)])
  {
    SingleChain(f, g);
    var s := f.stamp(g, 0, 1);
    assert IsMember(f.read, [s][0], 0, 1);
    ExactHandle(f, [s]);
    HandleHolds(f, HandleOf(f, [s]), [s]);
  }

  lemma {:induction false} SinglesFlatten(gs: seq<seq<byte>>, gss: seq<seq<seq<byte>>>)
    requires |gss| == |gs| && forall k | 0 <= k < |gs| :: gss[k] == [gs[k]]
    ensures Flatten(gss) == gs
  {
    if gs != [] {
      SinglesFlatten(gs[..|gs| - 1], gss[..|gs| - 1]);
    }
  }

  lemma {:induction false} SinglesLayout(f: Format, gs: seq<seq<byte>>)
    requires f.Lawful() && forall i | 0 <= i < |gs| :: |gs[i]| >= HEADER_SIZE
    ensures LayoutOf(f.read, Singles(f, gs)) == LayoutOf(f.read, gs) && |Flatten(Singles(f, gs))| == |Flatten(gs)|
    ensures forall i | 0 <= i < |gs| :: |Singles(f, gs)[i]| >= HEADER_SIZE
  {
    if gs != [] {
      var front, g := gs[..|gs| - 1], gs[|gs| - 1];
      SinglesLayout(f, front);
      assert f.Stamps(g, f.stamp(g, 0, 1), 0, 1);
      assert Singles(f, gs)[..|gs| - 1] == Singles(f, front);
    }
  }

  /** Splitting a handle and merging the parts: the same metadata, the same grids stamped twice,
      and no padding. */
  method SplitAndMerge(f: Format, h: GridHandle, ghost gs: seq<seq<byte>>)
    returns (merged: Result<GridHandle, Error>, ghost backs: seq<seq<byte>>)
    requires Regular(f) && IsHandle(f, h, gs)
    ensures merged.Ok? && |backs| == |gs| && merged.value == HandleOf(f, backs) && merged.value.mMetaData == h.mMetaData
    ensures forall k | 0 <= k < |gs| ::
              k < 0x1_0000_0000 && |gs| < 0x1_0000_0000 && backs[k] == f.stamp(f.stamp(gs[k], 0, 1), k, |gs|)
  {
    assert IsMember(f.read, gs[0], 0, |gs|);
    ParsedHolds(f, h, gs);
    var parts := SplitGrids(f, h, gs);
    forall k | 0 <= k < |gs| ensures Holds(parts.value[k], [Singles(f, gs)[k]]) && f.Fit(Singles(f, gs)[k]) {
      SingleFits(f, gs[k]);
    }
    merged, backs := MergeSingles(f, parts.value, Singles(f, gs));
    SinglesLayout(f, gs);
  }

  method MergeSingles(f: Format, parts: seq<GridHandle>, ghost singles: seq<seq<byte>>)
    returns (merged: Result<GridHandle, Error>, ghost backs: seq<seq<byte>>)
    requires Regular(f) && 0 < |parts| == |singles| < 0x1_0000_0000
    requires forall k | 0 <= k < |singles| :: Holds(parts[k], [singles[k]]) && f.Fit(singles[k])
    ensures merged.Ok? && |backs| == |singles| && merged.value == HandleOf(f, backs)
    ensures merged.value.mMetaData == LayoutOf(f.read, singles)
    ensures forall k | 0 <= k < |singles| :: backs[k] == f.stamp(singles[k], k, |singles|)
  {
    ghost var gss := seq(|singles|, k requires 0 <= k < |singles| => [singles[k]]);
    SinglesFlatten(singles, gss);
    MergeableIfFit(f, singles);
    merged := MergeGrids(f, parts, gss);
    backs := Restamped(f, singles, |singles|);
    MergedIsAll(f, singles);
    MergedIsParsed(f, singles);
    RestampedLayout(f, singles, |singles|);
  }
}
