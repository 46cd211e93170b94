/** Writing handles to streams and reading grids back. */
module GridStreams {
  import opened Bytes
  import opened GridChains
  import opened GridHandles
  import opened GridHeaders
  import opened Streams
  import opened Wrappers

  /** write(os, n). */
  method Write(f: Format, os: Stream, h: GridHandle, n: nat, ghost gs: seq<seq<byte>>) returns (r: Result<(), Error>)
    requires IsHandle(f, h, gs)
    modifies os
    ensures r == if n < |gs| then Ok(()) else Err(NoSuchGrid)
    ensures os.bytes == old(os.bytes) + (if n < |gs| then gs[n] else []) && os.pos == old(os.pos)
  {
    HandleHolds(f, h, gs);
    if n >= |h.mMetaData| {
      return Err(NoSuchGrid);
    }
    GridData(h, gs, n);
    var m := h.mMetaData[n];
    assert IsMember(f.read, gs[n], n, |gs|);
    HeaderSlice(f.read, h.mBuffer, m.offset, m.size);
    var size := f.read(h.mBuffer[m.offset..m.offset + HEADER_SIZE]).size;
    os.Write(h.mBuffer[m.offset..m.offset + size]);
    return Ok(());
  }

  /** write(os): the grids one after the other, without the padding. */
  method WriteAll(f: Format, os: Stream, h: GridHandle, ghost gs: seq<seq<byte>>)
    requires IsHandle(f, h, gs)
    modifies os
    ensures os.bytes == old(os.bytes) + Flatten(gs) && os.pos == old(os.pos)
  {
    HandleHolds(f, h, gs);
    assert gs[..0] == [];
    for n := 0 to |h.mMetaData|
      invariant os.bytes == old(os.bytes) + Flatten(gs[..n]) && os.pos == old(os.pos)
    {
      FlattenTake(gs, n);
      var _ := Write(f, os, h, n, gs);
    }
    assert gs[..|h.mMetaData|] == gs;
  }

  lemma SliceOfRest(bytes: seq<byte>, start: nat, at: nat, n: nat)
    requires start + at + n <= |bytes|
    ensures bytes[start..][at..at + n] == bytes[start + at..start + at + n]
  {
  }

  lemma {:induction false} AheadAt(f: Format, bytes: seq<byte>, start: nat, gs: seq<seq<byte>>, i: nat)
    requires start <= |bytes| && HoldsChain(f.read, bytes[start..], gs) && i < |gs|
    ensures var at := start + |Flatten(gs[..i])|;
            && at + HEADER_SIZE <= at + |gs[i]| <= |bytes| && bytes[at..at + |gs[i]|] == gs[i]
            && f.read(bytes[at..at + HEADER_SIZE]) == HeaderOf(f.read, gs[i])
            && IsMember(f.read, gs[i], i, |gs|)
    ensures |Flatten(gs[..i + 1])| == |Flatten(gs[..i])| + |gs[i]|
  {
    ChainAt(f.read, bytes[start..], gs, i);
    assert IsMember(f.read, gs[i], i, |gs|);
    FlattenTake(gs, i);
    var at := |Flatten(gs[..i])|;
    SliceOfRest(bytes, start, at, |gs[i]|);
    SliceOfRest(bytes, start, at, HEADER_SIZE);
  }

  lemma ReadIsExact(bytes: seq<byte>, start: nat, s: seq<byte>)
    requires start <= |bytes| && StartsWith(bytes[start..], s)
    ensures start + |s| <= |bytes| && bytes[start..start + |s|] == s
  {
    var rest := bytes[start..];
    assert rest[..|s|] == bytes[start..start + |s|];
  }

  /* ---- from header to header ---- */

  function HeaderAt(f: Format, bytes: seq<byte>, at: nat): Header
    requires at + HEADER_SIZE <= |bytes|
  {
    f.read(bytes[at..at + HEADER_SIZE])
  }

  /** read(is, n) looks for an index, and read(is) for a header after which its guard
      `index + 1 < count` does not hold, in 32 bits. */
  datatype Search = ForIndex(n: nat) | ForLast {
    predicate Stops(h: Header) {
      match this
      case ForIndex(n) => h.index == n
      case ForLast => Wrap32(h.index + 1) >= h.count
    }
  }

  /** Each header says how far it is to the next; the first that stops the search is found after
      k grids, and all headers up to there lie in the stream. */
  ghost predicate Leads(f: Format, bytes: seq<byte>, at: nat, search: Search, k: nat)
    decreases k
  {
    && at + HEADER_SIZE <= |bytes|
    && var h := HeaderAt(f, bytes, at);
       if k == 0 then search.Stops(h) else !search.Stops(h) && Leads(f, bytes, at + h.size, search, k - 1)
  }

  /** Where it is found. */
  ghost function FoundAt(f: Format, bytes: seq<byte>, at: nat, search: Search, k: nat): (end: nat)
    requires Leads(f, bytes, at, search, k)
    ensures at <= end && end + HEADER_SIZE <= |bytes| && search.Stops(HeaderAt(f, bytes, end))
    decreases k
  {
    if k == 0 then at else FoundAt(f, bytes, at + HeaderAt(f, bytes, at).size, search, k - 1)
  }

  /** The search comes down to that from the next header. */
  lemma {:induction false} LeadsOn(f: Format, bytes: seq<byte>, at: nat, search: Search, k: nat)
    requires at + HEADER_SIZE <= |bytes| && !search.Stops(HeaderAt(f, bytes, at))
    ensures Leads(f, bytes, at, search, k) <==>
              k > 0 && Leads(f, bytes, at + HeaderAt(f, bytes, at).size, search, k - 1)
    ensures Leads(f, bytes, at, search, k) ==>
              && FoundAt(f, bytes, at, search, k) == FoundAt(f, bytes, at + HeaderAt(f, bytes, at).size, search, k - 1)
              && at + HeaderAt(f, bytes, at).size + HEADER_SIZE <= |bytes|
  {
  }

  lemma {:induction false} LeadsHere(f: Format, bytes: seq<byte>, at: nat, search: Search, k: nat)
    requires Leads(f, bytes, at, search, k) && search.Stops(HeaderAt(f, bytes, at))
    ensures k == 0 && FoundAt(f, bytes, at, search, k) == at
  {
  }

  /** The grid that the header there announces. */
  ghost predicate HasGrid(f: Format, bytes: seq<byte>, at: nat) {
    at + HEADER_SIZE <= |bytes| && at + HeaderAt(f, bytes, at).size <= |bytes|
  }

  ghost function GridThere(f: Format, bytes: seq<byte>, at: nat): seq<byte>
    requires HasGrid(f, bytes, at)
  {
    bytes[at..at + HeaderAt(f, bytes, at).size]
  }

  /** Everything from a position up to the end of a grid. */
  ghost function BytesUpTo(f: Format, bytes: seq<byte>, start: nat, at: nat): seq<byte>
    requires start <= at && HasGrid(f, bytes, at)
  {
    bytes[start..at + HeaderAt(f, bytes, at).size]
  }

  function GridStart(start: nat, gs: seq<seq<byte>>, i: nat): nat
    requires i <= |gs|
  {
    start + |Flatten(gs[..i])|
  }

  /** Each grid of a chain announces where the next one starts. */
  lemma {:induction false} ChainStep(f: Format, bytes: seq<byte>, start: nat, gs: seq<seq<byte>>, i: nat)
    requires start <= |bytes| && HoldsChain(f.read, bytes[start..], gs) && i < |gs|
    ensures var at := GridStart(start, gs, i);
            && HasGrid(f, bytes, at) && HeaderAt(f, bytes, at) == HeaderOf(f.read, gs[i])
            && at + HeaderAt(f, bytes, at).size == GridStart(start, gs, i + 1)
  {
    AheadAt(f, bytes, start, gs, i);
  }

  /** In a chain the search for a grid finds it. */
  lemma {:induction false} ChainLeads(f: Format, bytes: seq<byte>, start: nat, gs: seq<seq<byte>>, i: nat, m: nat,
                                      search: Search)
    requires start <= |bytes| && HoldsChain(f.read, bytes[start..], gs) && i <= m < |gs|
    requires search.Stops(HeaderOf(f.read, gs[m])) && forall k | i <= k < m :: !search.Stops(HeaderOf(f.read, gs[k]))
    ensures Leads(f, bytes, GridStart(start, gs, i), search, m - i)
    ensures FoundAt(f, bytes, GridStart(start, gs, i), search, m - i) == GridStart(start, gs, m)
    decreases m - i
  {
    ChainStep(f, bytes, start, gs, i);
    if i < m {
      ChainLeads(f, bytes, start, gs, i + 1, m, search);
      LeadsOn(f, bytes, GridStart(start, gs, i), search, m - i);
    }
  }

  lemma {:induction false} ChainHeaders(f: Format, bytes: seq<byte>, start: nat, gs: seq<seq<byte>>)
    requires start <= |bytes| && HoldsChain(f.read, bytes[start..], gs)
    ensures start + HEADER_SIZE <= |bytes| && HeaderAt(f, bytes, start).valid && HeaderAt(f, bytes, start).count == |gs|
    ensures forall k | 0 <= k < |gs| :: HeaderOf(f.read, gs[k]).index == k && HeaderOf(f.read, gs[k]).count == |gs|
  {
    AheadAt(f, bytes, start, gs, 0);
    assert gs[..0] == [];
    forall k | 0 <= k < |gs| ensures HeaderOf(f.read, gs[k]).index == k && HeaderOf(f.read, gs[k]).count == |gs| {
      assert IsMember(f.read, gs[k], k, |gs|);
    }
  }

  /** In a chain read(is, n) finds grid n. */
  lemma {:induction false} ChainHasNth(f: Format, bytes: seq<byte>, start: nat, gs: seq<seq<byte>>, n: nat)
    requires start <= |bytes| && HoldsChain(f.read, bytes[start..], gs) && n < |gs|
    ensures Leads(f, bytes, start, ForIndex(n), n)
    ensures var at := FoundAt(f, bytes, start, ForIndex(n), n);
            HasGrid(f, bytes, at) && GridThere(f, bytes, at) == gs[n] && |gs[n]| >= HEADER_SIZE
  {
    ChainHeaders(f, bytes, start, gs);
    assert gs[..0] == [];
    ChainLeads(f, bytes, start, gs, 0, n, ForIndex(n));
    AheadAt(f, bytes, start, gs, n);
  }

  /** In a chain read(is) finds the last grid. */
  lemma {:induction false} ChainHasLast(f: Format, bytes: seq<byte>, start: nat, gs: seq<seq<byte>>)
    requires start <= |bytes| && HoldsChain(f.read, bytes[start..], gs)
    ensures Leads(f, bytes, start, ForLast, |gs| - 1)
    ensures var at := FoundAt(f, bytes, start, ForLast, |gs| - 1);
            HasGrid(f, bytes, at) && BytesUpTo(f, bytes, start, at) == Flatten(gs)
  {
    var last := |gs| - 1;
    ChainHeaders(f, bytes, start, gs);
    assert gs[..0] == [] && gs[..last + 1] == gs;
    ChainLeads(f, bytes, start, gs, 0, last, ForLast);
    AheadAt(f, bytes, start, gs, last);
    ReadIsExact(bytes, start, Flatten(gs));
  }

  /** Both overloads of read start with the first header, and rewind if it is not valid. */
  method FirstHeader(f: Format, input: Stream) returns (data: Header)
    requires input.pos + HEADER_SIZE <= |input.bytes|
    modifies input`pos
    ensures data == HeaderAt(f, input.bytes, old(input.pos))
    ensures input.pos == if data.valid then old(input.pos) + HEADER_SIZE else old(input.pos)
  {
    var raw := input.Read(HEADER_SIZE);
    data := f.read(raw);
    if !data.valid {
      input.Seek(-HEADER_SIZE);
    }
  }

  /** Both loop by seeking to the next header and reading it. */
  method NextHeader(f: Format, input: Stream, data: Header, ghost at: nat) returns (next: Header)
    requires input.pos == at + HEADER_SIZE && at + data.size + HEADER_SIZE <= |input.bytes|
    modifies input`pos
    ensures input.pos == at + data.size + HEADER_SIZE && next == HeaderAt(f, input.bytes, at + data.size)
  {
    input.Seek(data.size - HEADER_SIZE);
    var raw := input.Read(HEADER_SIZE);
    next := f.read(raw);
  }

  method HandleOnStamped(f: Format, buffer: seq<byte>) returns (r: Result<GridHandle, Error>)
    requires f.Lawful() && f.SizeOk(buffer)
    ensures if f.Fit(buffer) then r == Ok(HandleOf(f, [f.stamp(buffer, 0, 1)])) else r == Err(InvalidHeader)
  {
    SingleChain(f, buffer);
    var made, found := MakeHandle(f, f.stamp(buffer, 0, 1));
    if made.Err? {
      SingleFault(f, buffer, found, made.error);
    }
    r := made;
  }

  /** The loop of read(is, n). */
  method SkipTo(f: Format, input: Stream, first: Header, n: nat, ghost start: nat, ghost steps: nat)
    returns (data: Header)
    requires Leads(f, input.bytes, start, ForIndex(n), steps)
    requires input.pos == start + HEADER_SIZE && first == HeaderAt(f, input.bytes, start)
    modifies input`pos
    ensures var at := FoundAt(f, input.bytes, start, ForIndex(n), steps);
            input.pos == at + HEADER_SIZE && data == HeaderAt(f, input.bytes, at)
  {
    data := first;
    ghost var bytes, search := input.bytes, ForIndex(n);
    ghost var end := FoundAt(f, bytes, start, search, steps);
    ghost var at: nat, left: nat := start, steps;
    while data.index != n
      invariant Leads(f, bytes, at, search, left) && FoundAt(f, bytes, at, search, left) == end
      invariant input.pos == at + HEADER_SIZE && data == HeaderAt(f, bytes, at)
      decreases left
    {
      LeadsOn(f, bytes, at, search, left);
      ghost var next := at + data.size;
      data := NextHeader(f, input, data, at);
      at, left := next, left - 1;
    }
    LeadsHere(f, bytes, at, search, left);
  }

  /** The end of read(is, n): back to the start of the grid, and all of it is read. */
  method ReadGrid(f: Format, input: Stream, data: Header, ghost at: nat) returns (r: Result<GridHandle, Error>)
    requires f.Lawful() && HasGrid(f, input.bytes, at) && data == HeaderAt(f, input.bytes, at)
    requires data.size >= HEADER_SIZE && input.pos == at + HEADER_SIZE
    modifies input`pos
    ensures var g := GridThere(f, input.bytes, at);
            && input.pos == at + |g|
            && if f.Fit(g) then r == Ok(HandleOf(f, [f.stamp(g, 0, 1)])) else r == Err(InvalidHeader)
  {
    input.Seek(-HEADER_SIZE);
    var buffer := input.Read(data.size);
    HeaderSlice(f.read, input.bytes, at, data.size);
    r := HandleOnStamped(f, buffer);
  }

  /** read(is, n): seeks from header to header, and yields the first grid that says it is the n-th,
      alone.  Whatever the bytes are, as long as the search ends inside the stream. */
  method ReadNth(f: Format, input: Stream, n: nat, ghost steps: nat) returns (r: Result<GridHandle, Error>)
    requires f.Lawful() && input.pos + HEADER_SIZE <= |input.bytes|
    requires var h := HeaderAt(f, input.bytes, input.pos);
             h.valid && n < h.count ==>
               && Leads(f, input.bytes, input.pos, ForIndex(n), steps)
               && var at := FoundAt(f, input.bytes, input.pos, ForIndex(n), steps);
                  HasGrid(f, input.bytes, at) && HeaderAt(f, input.bytes, at).size >= HEADER_SIZE
    modifies input`pos
    ensures var h := HeaderAt(f, input.bytes, old(input.pos));
            if !h.valid then r == Err(NotAGridBuffer) && input.pos == old(input.pos)
            else if n >= h.count then r == Err(NoSuchGrid) && input.pos == old(input.pos) + HEADER_SIZE
            else
              var at := FoundAt(f, input.bytes, old(input.pos), ForIndex(n), steps);
              var g := GridThere(f, input.bytes, at);
              && input.pos == at + |g|
              && if f.Fit(g) then r == Ok(HandleOf(f, [f.stamp(g, 0, 1)])) else r == Err(InvalidHeader)
  {
    ghost var start := input.pos;
    var data := FirstHeader(f, input);
    if !data.valid {
      return Err(NotAGridBuffer);
    }
    if n >= data.count {
      return Err(NoSuchGrid);
    }
    data := SkipTo(f, input, data, n, start, steps);
    r := ReadGrid(f, input, data, FoundAt(f, input.bytes, start, ForIndex(n), steps));
  }

  /** The loop of read(is): the sizes of all grids. */
  method SumSizes(f: Format, input: Stream, first: Header, ghost start: nat, ghost steps: nat) returns (total: nat)
    requires Leads(f, input.bytes, start, ForLast, steps)
    requires input.pos == start + HEADER_SIZE && first == HeaderAt(f, input.bytes, start)
    modifies input`pos
    ensures var at := FoundAt(f, input.bytes, start, ForLast, steps);
            start + total == at + HeaderAt(f, input.bytes, at).size
  {
    var data, size, sum: nat := first, first.size, 0;
    ghost var bytes, search := input.bytes, ForLast;
    ghost var end := FoundAt(f, bytes, start, search, steps);
    ghost var at: nat, left: nat := start, steps;
    while Wrap32(data.index + 1) < data.count
      invariant Leads(f, bytes, at, search, left) && FoundAt(f, bytes, at, search, left) == end
      invariant input.pos == at + HEADER_SIZE && data == HeaderAt(f, bytes, at)
      invariant start + size + sum == at + data.size
      decreases left
    {
      LeadsOn(f, bytes, at, search, left);
      ghost var next := at + data.size;
      data := NextHeader(f, input, data, at);
      at, left := next, left - 1;
      sum := sum + data.size;
    }
    LeadsHere(f, bytes, at, search, left);
    total := size + sum;
  }

  /** What read(is) makes of the bytes up to the last grid: it parses them. */
  ghost predicate IsParse(f: Format, buffer: seq<byte>, r: Result<GridHandle, Error>, gs: seq<seq<byte>>) {
    && (r.Ok? ==> IsHandle(f, r.value, gs) && r.value.mBuffer == buffer)
    && (r.Err? ==> StopsAt(f.read, buffer, gs, r.error) && NoChain(f.read, buffer))
    && (forall other | HoldsChain(f.read, buffer, other) :: other == gs)
  }

  /** read(is): everything up to the first header that says it is the last, in one buffer, which
      is then parsed.  Whatever the bytes are, as long as the search ends inside the stream. */
  method ReadAll(f: Format, input: Stream, ghost steps: nat)
    returns (r: Result<GridHandle, Error>, ghost gs: seq<seq<byte>>)
    requires input.pos + HEADER_SIZE <= |input.bytes|
    requires HeaderAt(f, input.bytes, input.pos).valid ==>
               && Leads(f, input.bytes, input.pos, ForLast, steps)
               && HasGrid(f, input.bytes, FoundAt(f, input.bytes, input.pos, ForLast, steps))
    modifies input`pos
    ensures if !HeaderAt(f, input.bytes, old(input.pos)).valid
            then r == Err(NotAGridBuffer) && input.pos == old(input.pos)
            else
              var at := FoundAt(f, input.bytes, old(input.pos), ForLast, steps);
              var buffer := BytesUpTo(f, input.bytes, old(input.pos), at);
              input.pos == old(input.pos) + |buffer| && IsParse(f, buffer, r, gs)
  {
    var start := input.pos;
    var data := FirstHeader(f, input);
    if !data.valid {
      return Err(NotAGridBuffer), [];
    }
    var total := SumSizes(f, input, data, start, steps);
    input.Seek(start - input.pos);
    var buffer := input.Read(total);
    r, gs := MakeHandle(f, buffer);
  }

  /** Reading grid n of a written handle gives the same handle as splitting it off. */
  method WriteThenReadNth(f: Format, h: GridHandle, n: nat, ghost gs: seq<seq<byte>>)
    returns (read: Result<GridHandle, Error>, split: Result<seq<GridHandle>, Error>)
    requires f.Lawful() && IsHandle(f, h, gs)
    requires forall i | 0 <= i < |gs| :: HeaderOf(f.read, f.stamp(gs[i], 0, 1)).valid
    ensures split.Ok? && |split.value| == |gs|
    ensures read == if n < |gs| then Ok(split.value[n]) else Err(NoSuchGrid)
  {
    HandleHolds(f, h, gs);
    forall i | 0 <= i < |gs| ensures f.Fit(gs[i]) {
      assert IsMember(f.read, gs[i], i, |gs|);
    }
    split := SplitGrids(f, h, gs);
    var stream := new Stream();
    WriteAll(f, stream, h, gs);
    WrittenIsAhead(f, stream.bytes, gs);
    ChainHeaders(f, stream.bytes, 0, gs);
    if n < |gs| {
      ChainHasNth(f, stream.bytes, 0, gs, n);
    }
    read := ReadNth(f, stream, n, n);
  }

  lemma WrittenIsAhead(f: Format, bytes: seq<byte>, gs: seq<seq<byte>>)
    requires bytes == [] + Flatten(gs) && IsChain(f.read, gs)
    ensures HoldsChain(f.read, bytes[0..], gs)
  {
    assert bytes[0..] == bytes == Flatten(gs) == Flatten(gs)[..|Flatten(gs)|];
  }

  /** Reading back a whole written handle gives the handle without its padding. */
  method WriteThenReadAll(f: Format, h: GridHandle, ghost gs: seq<seq<byte>>) returns (read: Result<GridHandle, Error>)
    requires IsHandle(f, h, gs)
    ensures read == Ok(GridHandle(h.mMetaData, Flatten(gs)))
    ensures read == Ok(h) <==> h.mBuffer == Flatten(gs)
  {
    var stream := new Stream();
    WriteAll(f, stream, h, gs);
    WrittenIsAhead(f, stream.bytes, gs);
    ChainHeaders(f, stream.bytes, 0, gs);
    ChainHasLast(f, stream.bytes, 0, gs);
    ghost var found;
    read, found := ReadAll(f, stream, |gs| - 1);
    ExactHandle(f, gs);
    assert IsParse(f, Flatten(gs), read, found) && HoldsChain(f.read, Flatten(gs), gs);
  }
}
