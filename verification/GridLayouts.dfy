/** The layout check of GridHandle::adopt, copies of handles, and the accounting of sizes. */
module GridLayouts {
  import opened Bytes
  import opened GridChains
  import opened GridHandles
  import opened GridHeaders
  import opened Sequences
  import opened Wrappers

  function TotalSize(meta: seq<Meta>): nat {
    if meta == [] then 0 else TotalSize(meta[..|meta| - 1]) + meta[|meta| - 1].size
  }

  lemma TotalSizeNext(meta: seq<Meta>, i: nat)
    requires i < |meta|
    ensures TotalSize(meta[..i + 1]) == TotalSize(meta[..i]) + meta[i].size
  {
    assert meta[..i + 1][..i] == meta[..i];
  }

  ghost predicate GoodEntry(meta: seq<Meta>, i: nat, bytes: nat)
    requires i < |meta|
  {
    && meta[i].offset == TotalSize(meta[..i]) && meta[i].offset % DATA_ALIGNMENT == 0
    && HEADER_SIZE <= meta[i].size && meta[i].offset + meta[i].size <= bytes && meta[i].gridType < TYPE_END
  }

  /** Grids back to back from offset zero, aligned, inside the buffer; or nothing at all. */
  ghost predicate IsLayout(meta: seq<Meta>, bytes: nat) {
    && (meta == [] ==> bytes == 0)
    && forall i | 0 <= i < |meta| :: GoodEntry(meta, i, bytes)
  }

  /** validateGridLayout. */
  method ValidateGridLayout(meta: seq<Meta>, bytes: nat) returns (r: Result<(), Error>)
    ensures r.Ok? <==> IsLayout(meta, bytes)
  {
    if meta == [] {
      return if bytes == 0 then Ok(()) else Err(BadLayout);
    }
    var offset: nat := 0;
    for i := 0 to |meta|
      invariant offset == TotalSize(meta[..i]) <= bytes
      invariant forall k | 0 <= k < i :: GoodEntry(meta, k, bytes)
    {
      TotalSizeNext(meta, i);
      if meta[i].offset != offset || offset % DATA_ALIGNMENT != 0 || meta[i].size < HEADER_SIZE
         || meta[i].size > bytes - offset || !(meta[i].gridType < TYPE_END) {
        assert !GoodEntry(meta, i, bytes);
        return Err(BadLayout);
      }
      offset := offset + meta[i].size;
    }
    return Ok(());
  }

  /** The grids that accepted metadata describes. */
  function GridsAt(meta: seq<Meta>, buffer: seq<byte>): seq<seq<byte>>
    requires forall i | 0 <= i < |meta| :: meta[i].offset + meta[i].size <= |buffer|
  {
    seq(|meta|, i requires 0 <= i < |meta| => buffer[meta[i].offset..meta[i].offset + meta[i].size])
  }

  lemma {:induction false} AdoptedPrefix(meta: seq<Meta>, buffer: seq<byte>, gs: seq<seq<byte>>, i: nat)
    requires i <= |meta| == |gs|
    requires forall k | 0 <= k < |meta| ::
               GoodEntry(meta, k, |buffer|) && gs[k] == buffer[meta[k].offset..meta[k].offset + meta[k].size]
    ensures |Flatten(gs[..i])| == TotalSize(meta[..i]) && StartsWith(buffer, Flatten(gs[..i]))
  {
    if i == 0 {
      assert gs[..0] == [] && buffer[..0] == [];
    } else {
      AdoptedPrefix(meta, buffer, gs, i - 1);
      assert GoodEntry(meta, i - 1, |buffer|);
      FlattenNext(buffer, gs[..i - 1], meta[i - 1].offset, meta[i - 1].size);
      TakeOneMore(gs, i - 1);
      TotalSizeNext(meta, i - 1);
    }
  }

  /** An adopted handle describes grids, whatever their headers say. */
  lemma AdoptedHolds(meta: seq<Meta>, buffer: seq<byte>)
    requires IsLayout(meta, |buffer|)
    ensures forall i | 0 <= i < |meta| :: meta[i].offset + meta[i].size <= |buffer|
    ensures Holds(GridHandle(meta, buffer), GridsAt(meta, buffer))
  {
    forall i | 0 <= i < |meta| ensures meta[i].offset + meta[i].size <= |buffer| {
      assert GoodEntry(meta, i, |buffer|);
    }
    var gs := GridsAt(meta, buffer);
    AdoptedPrefix(meta, buffer, gs, |meta|);
    assert gs[..|meta|] == gs;
    forall i | 0 <= i < |gs| ensures HoldsAt(meta[i], gs, i) {
      AdoptedPrefix(meta, buffer, gs, i);
    }
  }

  /** adopt: no header is read. */
  method Adopt(buffer: seq<byte>, meta: seq<Meta>) returns (r: Result<GridHandle, Error>)
    ensures r.Ok? <==> IsLayout(meta, |buffer|)
    ensures r.Ok? ==> r.value == GridHandle(meta, buffer)
  {
    var valid := ValidateGridLayout(meta, |buffer|);
    r := if valid.Ok? then Ok(GridHandle(meta, buffer)) else Err(valid.error);
  }

  /** The parser's metadata passes the layout check exactly when all grids are aligned and
      their types are known: the parser itself does not ask for either. */
  lemma ParsedIsLayout(f: Format, h: GridHandle, gs: seq<seq<byte>>)
    requires IsHandle(f, h, gs)
    ensures IsLayout(h.mMetaData, |h.mBuffer|) <==>
            forall i | 0 <= i < |h.mMetaData| ::
              h.mMetaData[i].offset % DATA_ALIGNMENT == 0 && h.mMetaData[i].gridType < TYPE_END
  {
    var meta, bytes := h.mMetaData, |h.mBuffer|;
    HandleHolds(f, h, gs);
    forall i | 0 <= i < |meta|
      ensures GoodEntry(meta, i, bytes) <==> meta[i].offset % DATA_ALIGNMENT == 0 && meta[i].gridType < TYPE_END
    {
      HoldsTotal(h, gs, i);
      GridData(h, gs, i);
      assert HoldsAt(meta[i], gs, i);
    }
    if IsLayout(meta, bytes) {
      forall i | 0 <= i < |meta| ensures meta[i].offset % DATA_ALIGNMENT == 0 && meta[i].gridType < TYPE_END {
        assert GoodEntry(meta, i, bytes);
      }
    }
  }

  lemma {:induction false} HoldsTotal(h: GridHandle, gs: seq<seq<byte>>, i: nat)
    requires Holds(h, gs) && i <= |gs|
    ensures TotalSize(h.mMetaData[..i]) == |Flatten(gs[..i])|
  {
    if i == 0 {
      assert gs[..0] == [];
    } else {
      HoldsTotal(h, gs, i - 1);
      TotalSizeNext(h.mMetaData, i - 1);
      FlattenTake(gs, i - 1);
      assert HoldsAt(h.mMetaData[i - 1], gs, i - 1);
    }
  }

  /** totalGridSize. */
  method TotalGridSize(h: GridHandle) returns (sum: nat)
    ensures sum == TotalSize(h.mMetaData)
  {
    sum := 0;
    for i := 0 to |h.mMetaData|
      invariant sum == TotalSize(h.mMetaData[..i])
    {
      TotalSizeNext(h.mMetaData, i);
      sum := sum + h.mMetaData[i].size;
    }
    assert h.mMetaData[..|h.mMetaData|] == h.mMetaData;
  }

  /** isPadded looks at the last grid only. */
  predicate IsPadded(h: GridHandle) {
    h.mMetaData != [] &&
    h.mMetaData[|h.mMetaData| - 1].offset + h.mMetaData[|h.mMetaData| - 1].size != |h.mBuffer|
  }

  /** The sizes add up: the assertion of totalGridSize holds, freeSize is not negative, and a
      handle with grids is padded exactly when it is not full, that is when its buffer is
      more than its grids. */
  lemma SizesAddUp(h: GridHandle, gs: seq<seq<byte>>)
    requires Holds(h, gs)
    ensures TotalSize(h.mMetaData) == |Flatten(gs)| <= |h.mBuffer|
    ensures h.mMetaData != [] ==> (IsPadded(h) <==> TotalSize(h.mMetaData) != |h.mBuffer|)
    ensures TotalSize(h.mMetaData) == |h.mBuffer| <==> h.mBuffer == Flatten(gs)
  {
    HoldsTotal(h, gs, |gs|);
    assert gs[..|gs|] == gs && h.mMetaData[..|gs|] == h.mMetaData;
    if gs != [] {
      assert HoldsAt(h.mMetaData[|gs| - 1], gs, |gs| - 1);
    }
    assert h.mBuffer[..|h.mBuffer|] == h.mBuffer;
  }

  /** copy: the bytes are parsed again.  A handle that the parser made is copied exactly. */
  method Copy(f: Format, h: GridHandle) returns (r: Result<GridHandle, Error>, ghost gs: seq<seq<byte>>)
    ensures h.mBuffer == [] ==> r == Ok(GridHandle([], []))
    ensures h.mBuffer != [] && r.Ok? ==> IsHandle(f, r.value, gs) && r.value.mBuffer == h.mBuffer
    ensures forall other | IsHandle(f, h, other) :: r == Ok(h)
  {
    if |h.mBuffer| == 0 {
      gs := [];
      forall other ensures !HoldsChain(f.read, h.mBuffer, other) {
        EmptyHoldsNothing(f, other);
      }
      return Ok(GridHandle([], [])), gs;
    }
    r, gs := MakeHandle(f, h.mBuffer);
  }
}
