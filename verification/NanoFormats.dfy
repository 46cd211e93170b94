/** The format of NanoVDB's own headers, and what merging and splitting do to the bytes of
    the grids in it. */
module NanoFormats {
  import opened Bytes
  import opened GridChains
  import opened GridHandles
  import opened GridHeaders
  import opened GridRoundTrips
  import opened Wrappers

  type Crc = seq<byte> -> word32

  function NanoFormat(crc: Crc): Format {
    Format(ReadHeader, (g: seq<byte>, i, n) => if |g| < HEADER_SIZE then g else Stamped(crc, g, i, n))
  }

  /** tools::updateGridCount, in place on the grid of `size` bytes at `at`. */
  method UpdateGridCount(crc: Crc, data: array<byte>, at: nat, size: nat, index: word32, count: word32)
    requires at + size <= data.Length && HEADER_SIZE <= size
    modifies data
    ensures data[..] == Splice(old(data[..]), at, Stamped(crc, old(data[at..at + size]), index, count))
  {
    ghost var bytes, g := data[..], data[at..at + size];
    if Word32At(data[at..at + size], GRID_INDEX) != index || Word32At(data[at..at + size], GRID_COUNT) != count {
      Store(data, at, size, GRID_INDEX, index, bytes);
      ghost var g1 := Put32(g, GRID_INDEX, index);
      Store(data, at, size, GRID_COUNT, count, bytes);
      ghost var g2 := Put32(g1, GRID_COUNT, count);
      assert data[at..at + size] == g2;
      if !NoChecksum(data[at..at + size]) {
        Store(data, at, size, CHECKSUM_HEAD, crc(data[at..at + size][16..]), bytes);
      }
    } else {
      assert bytes == Splice(bytes, at, g);
    }
  }

  /** A store to a 32-bit field of the grid at `at`. */
  method Store(data: array<byte>, at: nat, size: nat, field: nat, x: word32, ghost bytes: seq<byte>)
    requires at + size <= data.Length && field + 4 <= size && |bytes| == data.Length
    requires data[..] == Splice(bytes, at, data[at..at + size])
    modifies data
    ensures data[at..at + size] == Put32(old(data[at..at + size]), field, x)
    ensures data[..] == Splice(bytes, at, data[at..at + size])
  {
    var b := Bytes32(x);
    ghost var before := data[..];
    data[at + field], data[at + field + 1], data[at + field + 2], data[at + field + 3] := b[0], b[1], b[2], b[3];
    assert forall k | 0 <= k < data.Length && !(at + field <= k < at + field + 4) :: data[k] == before[k];
    StoredGrid(before, data[..], at, size, field, x);
    SpliceSame(bytes, before, data[..], at, size);
  }

  lemma StoredGrid(before: seq<byte>, after: seq<byte>, at: nat, size: nat, field: nat, x: word32)
    requires at + size <= |before| == |after| && field + 4 <= size
    requires forall k | 0 <= k < |before| && !(at + field <= k < at + field + 4) :: after[k] == before[k]
    requires var f := at + field;
             && after[f] == Bytes32(x)[0] && after[f + 1] == Bytes32(x)[1]
             && after[f + 2] == Bytes32(x)[2] && after[f + 3] == Bytes32(x)[3]
    ensures after[at..at + size] == Put32(before[at..at + size], field, x)
  {
    var r := Put32(before[at..at + size], field, x);
    assert r[field..field + 4] == Bytes32(x);
    assert r[field] == Bytes32(x)[0] && r[field + 1] == Bytes32(x)[1] && r[field + 2] == Bytes32(x)[2] &&
           r[field + 3] == Bytes32(x)[3];
  }

  lemma SpliceSame(bytes: seq<byte>, before: seq<byte>, after: seq<byte>, at: nat, size: nat)
    requires at + size <= |before| == |after| == |bytes|
    requires before == Splice(bytes, at, before[at..at + size])
    requires forall k | 0 <= k < |before| && !(at <= k < at + size) :: after[k] == before[k]
    ensures after == Splice(bytes, at, after[at..at + size])
  {
    var r := Splice(bytes, at, before[at..at + size]);
    assert forall k | 0 <= k < |bytes| && !(at <= k < at + size) :: r[k] == bytes[k];
  }

  /* ---- the format is lawful ---- */

  lemma StampLaw(crc: Crc, g: Grid, i: word32, n: word32)
    ensures NanoFormat(crc).stamp(g, i, n) == Stamped(crc, g, i, n)
    ensures HeaderOf(ReadHeader, Stamped(crc, g, i, n))
            == Header(IsValid(Stamped(crc, g, i, n)), i, n, Size(g), Type(g))
    ensures i < n ==> IsValid(Stamped(crc, g, i, n)) == Acceptable(g)
    ensures HeaderOf(ReadHeader, g) == Header(IsValid(g), Index(g), Count(g), Size(g), Type(g))
  {
    StampedFields(crc, g, i, n);
    SameApartFields(g, Stamped(crc, g, i, n));
    HeaderOfPrefix(Stamped(crc, g, i, n));
    HeaderOfPrefix(g);
  }

  lemma NanoFormatIsLawful(crc: Crc)
    ensures NanoFormat(crc).Lawful()
  {
    var f := NanoFormat(crc);
    forall g: seq<byte>, i: word32, n: word32 | |g| >= HEADER_SIZE ensures f.Stamps(g, f.stamp(g, i, n), i, n) {
      StampLaw(crc, g, i, n);
      StampLaw(crc, g, 0, 1);
    }
  }

  /** Every grid of a chain is fit, so splitting and merging handles that the parser made
      cannot fail. */
  lemma MembersAreFit(crc: Crc, g: seq<byte>, i: nat, n: nat)
    requires IsMember(ReadHeader, g, i, n)
    ensures NanoFormat(crc).Fit(g)
  {
    StampLaw(crc, g, 0, 1);
  }

  /* ---- round trips ---- */

  /** What comes back of a grid that was stamped as grid i of n on the way: its bytes, up to
      the checksum of the head, and exactly its bytes under the given condition. */
  ghost predicate ComesBack(crc: Crc, g: seq<byte>, back: seq<byte>, i: word32, n: word32)
    requires |g| >= HEADER_SIZE
  {
    && |back| == |g| && SameApart(g, back) && Index(back) == Index(g) && Count(back) == Count(g)
    && (back == g <==> || (i == Index(g) && n == Count(g))
                       || NoChecksum(g)
                       || (Head(g) == crc(g[16..]) && !NoChecksum(Stamped(crc, g, i, n))))
  }

  lemma StampAndBack(crc: Crc, g: seq<byte>, i: word32, n: word32)
    requires |g| >= HEADER_SIZE && i < n && Index(g) < Count(g)
    ensures var f := NanoFormat(crc);
            ComesBack(crc, g, f.stamp(f.stamp(g, i, n), Index(g), Count(g)), i, n)
  {
    StampedBack(crc, g, i, n);
    StampLaw(crc, g, i, n);
    StampLaw(crc, Stamped(crc, g, i, n), Index(g), Count(g));
  }

  /** A grid that was grid i of n on the way is split off with the head checksum that it has when it
      is split off directly: it was that grid already or has no checksum; or, if splitting it off
      directly changes nothing, its checksum is right and does not become the empty pattern on the
      way; or, if that refreshes it too, it does not become the empty pattern on the way, or it is
      the empty pattern in the end. */
  ghost predicate HeadSurvives(crc: Crc, g: Grid, i: word32, n: word32) {
    || (i == 0 && n == 1) || (i == Index(g) && n == Count(g)) || NoChecksum(g)
    || if Index(g) == 0 && Count(g) == 1 then Head(g) == crc(g[16..]) && !NoChecksum(Stamped(crc, g, i, n))
       else !NoChecksum(Stamped(crc, g, i, n)) || crc(Stamped(crc, g, 0, 1)[16..]) == EMPTY32
  }

  /** What the detour through a merge makes of a grid: its bytes, as grid 0 of 1, up to the
      checksum of the head; and exactly what splitting it off without the detour makes of it
      under the given condition. */
  ghost predicate SplitsOff(crc: Crc, g: seq<byte>, part: seq<byte>, i: word32, n: word32)
    requires |g| >= HEADER_SIZE
  {
    && |part| == |g| && SameApart(g, part) && Index(part) == 0 && Count(part) == 1
    && (part == Stamped(crc, g, 0, 1) <==> HeadSurvives(crc, g, i, n))
  }

  lemma StampTwice(crc: Crc, g: Grid, i: word32, n: word32)
    requires i < n
    ensures SplitsOff(crc, g, Detour(NanoFormat(crc), g, i, n), i, n)
  {
    var away, split := Stamped(crc, g, i, n), Stamped(crc, g, 0, 1);
    var part := Stamped(crc, away, 0, 1);
    StampLaw(crc, g, i, n);
    StampLaw(crc, away, 0, 1);
    PartFields(crc, g, away, split, part, i, n);
    if i == 0 && n == 1 {
      StampedFields(crc, g, 0, 1);
    } else if i != Index(g) || n != Count(g) {
      PartHead(crc, g, away, split, part, i, n);
      if !NoChecksum(g) {
        HeadsAgree(crc, g, i, n);
      }
    }
  }

  /** The part differs from the grid split off directly in the checksum of the head only. */
  lemma PartFields(crc: Crc, g: Grid, away: Grid, split: Grid, part: Grid, i: word32, n: word32)
    requires away == Stamped(crc, g, i, n) && split == Stamped(crc, g, 0, 1) && part == Stamped(crc, away, 0, 1)
    ensures SameApart(g, part) && Index(part) == 0 && Count(part) == 1
    ensures part[16..] == split[16..] && (part == split <==> Head(split) == Head(part))
  {
    StampedFields(crc, g, i, n);
    StampedFields(crc, g, 0, 1);
    StampedFields(crc, away, 0, 1);
    SameApartTransitive(g, away, part);
    SameApartTransitive(g, split, split);
    SameApartTransitive(split, g, part);
    OnlyHeadDiffers(split, part);
  }

  lemma PartHead(crc: Crc, g: Grid, away: Grid, split: Grid, part: Grid, i: word32, n: word32)
    requires away == Stamped(crc, g, i, n) && split == Stamped(crc, g, 0, 1) && part == Stamped(crc, away, 0, 1)
    requires part[16..] == split[16..] && (i != 0 || n != 1) && (i != Index(g) || n != Count(g))
    ensures if NoChecksum(g) then Head(part) == Head(split)
            else Head(part) == if NoChecksum(away) then EMPTY32 else crc(split[16..])
  {
    StampedFields(crc, g, i, n);
    SameApartFields(g, away);
    StampedHead(crc, g, i, n);
    StampedHead(crc, away, 0, 1);
    if Index(g) != 0 || Count(g) != 1 {
      StampedHead(crc, g, 0, 1);
    }
  }

  /** What the head of the part says about the condition. */
  lemma HeadsAgree(crc: Crc, g: Grid, i: word32, n: word32)
    requires i < n && !NoChecksum(g) && (i != Index(g) || n != Count(g))
    ensures var away, split := Stamped(crc, g, i, n), Stamped(crc, g, 0, 1);
            Head(split) == (if NoChecksum(away) then EMPTY32 else crc(split[16..])) <==>
            if Index(g) == 0 && Count(g) == 1 then Head(g) == crc(g[16..]) && !NoChecksum(away)
            else !NoChecksum(away) || crc(split[16..]) == EMPTY32
  {
    StampedFields(crc, g, i, n);
    SameApartFields(g, Stamped(crc, g, i, n));
    if Index(g) != 0 || Count(g) != 1 {
      StampedHead(crc, g, 0, 1);
    }
  }

  lemma NanoFormatIsRegular(crc: Crc)
    ensures Regular(NanoFormat(crc))
  {
    NanoFormatIsLawful(crc);
    forall g: seq<byte>, i: nat, n: nat | IsMember(ReadHeader, g, i, n) ensures NanoFormat(crc).Fit(g) {
      MembersAreFit(crc, g, i, n);
    }
  }

  /** All grids of a merge split off again. */
  ghost predicate AllSplitOff(crc: Crc, all: seq<seq<byte>>) {
    forall i | 0 <= i < Wrap32(|all|) ::
      |all[i]| >= HEADER_SIZE &&
          SplitsOff(crc, all[i], Detour(NanoFormat(crc), all[i], i, Wrap32(|all|)), i, Wrap32(|all|))
  }

  lemma DetoursSplitOff(crc: Crc, all: seq<seq<byte>>)
    requires forall i | 0 <= i < |all| :: |all[i]| >= HEADER_SIZE
    ensures AllSplitOff(crc, all)
  {
    forall i | 0 <= i < Wrap32(|all|)
      ensures SplitsOff(crc, all[i], Detour(NanoFormat(crc), all[i], i, Wrap32(|all|)), i, Wrap32(|all|))
    {
      StampTwice(crc, all[i], i, Wrap32(|all|));
    }
  }

  /** Merging any handles that the parser made and splitting the result gives back all their
      grids in order, each as splitting its own handle would, up to the checksum of the head. */
  method MergeThenSplit(crc: Crc, handles: seq<GridHandle>, ghost gss: seq<seq<seq<byte>>>)
    returns (parts: Result<seq<GridHandle>, Error>)
    requires |handles| == |gss| && forall k | 0 <= k < |gss| :: ParsedOrEmpty(NanoFormat(crc), handles[k], gss[k])
    ensures parts.Ok? <==> Wrap32(|Flatten(gss)|) > 0
    ensures parts.Ok? ==> AreParts(NanoFormat(crc), parts.value, Flatten(gss)) && AllSplitOff(crc, Flatten(gss))
  {
    NanoFormatIsRegular(crc);
    parts := MergeAndSplit(NanoFormat(crc), handles, gss);
    DetoursSplitOff(crc, Flatten(gss));
  }

  /** Splitting a handle and merging the parts gives back a handle with the same metadata and
      the same grids, up to the checksum of the head, and without the padding. */
  method SplitThenMerge(crc: Crc, h: GridHandle, ghost gs: seq<seq<byte>>)
    returns (merged: Result<GridHandle, Error>, ghost backs: seq<seq<byte>>)
    requires IsHandle(NanoFormat(crc), h, gs)
    ensures merged.Ok? && |backs| == |gs| && merged.value == HandleOf(NanoFormat(crc), backs)
    ensures forall k | 0 <= k < |gs| :: |gs[k]| >= HEADER_SIZE && ComesBack(crc, gs[k], backs[k], 0, 1)
    ensures merged.value.mMetaData == h.mMetaData
  {
    NanoFormatIsRegular(crc);
    merged, backs := SplitAndMerge(NanoFormat(crc), h, gs);
    forall k | 0 <= k < |gs| ensures |gs[k]| >= HEADER_SIZE && ComesBack(crc, gs[k], backs[k], 0, 1) {
      MemberComesBack(crc, gs[k], k, |gs|);
    }
  }

  lemma MemberComesBack(crc: Crc, g: seq<byte>, k: nat, n: nat)
    requires IsMember(ReadHeader, g, k, n) && k < n
    ensures |g| >= HEADER_SIZE && n < 0x1_0000_0000
    ensures ComesBack(crc, g, NanoFormat(crc).stamp(NanoFormat(crc).stamp(g, 0, 1), k, n), 0, 1)
  {
    StampLaw(crc, g, 0, 1);
    StampAndBack(crc, g, 0, 1);
  }
}
