/** The metadata map of MetaMap.cc and Metadata.h: insertion, comparison, and reading back
    what was written, under any registry of types. */
module MetaMaps {
  import opened Bytes
  import opened Repetitions
  import opened Sequences
  import opened Streams
  import opened Wrappers

  /** Strings are byte strings. */
  type Name = seq<byte>

  const LIMIT := 0x1_0000_0000

  /** The class of a metadata object: TypedMetadata with a fixed value size, or of a string
      (None); or UnknownMetadata. */
  datatype Kind = Typed(name: Name, fixed: Option<nat>) | Unknown(name: Name)

  datatype Metadata = Metadata(kind: Kind, bytes: seq<byte>) {
    ghost predicate Valid() {
      && |kind.name| < LIMIT && |bytes| < LIMIT
      && (kind.Typed? && kind.fixed.Some? ==> |bytes| == kind.fixed.value)
    }

    /** operator==: sizes, type names and serialized values are compared, classes are not. */
    predicate Same(other: Metadata) {
      |bytes| == |other.bytes| && kind.name == other.kind.name && bytes == other.bytes
    }
  }

  datatype Entry = Entry(name: Name, data: Metadata)

  datatype Error = EmptyName | TypeMismatch | Truncated

  /** The type registry: the class that the factory of each name builds. */
  type Registry = map<Name, Kind>

  /** Factories build the type they are named for. */
  ghost predicate Lawful(registry: Registry) {
    forall t | t in registry :: registry[t].Typed? && registry[t].name == t
  }

  /* ---- the order of names in std::map ---- */

  predicate Less(a: Name, b: Name) {
    b != [] && (a == [] || a[0] < b[0] || (a[0] == b[0] && Less(a[1..], b[1..])))
  }

  lemma {:induction false} LessIsTotal(a: Name, b: Name)
    ensures !Less(a, a) && !(Less(a, b) && Less(b, a)) && (a == b || Less(a, b) || Less(b, a))
    ensures Less(a, b) ==> a != b
  {
    if a != [] && b != [] && a[0] == b[0] {
      LessIsTotal(a[1..], b[1..]);
      assert a == [a[0]] + a[1..] && b == [b[0]] + b[1..];
    } else if a != [] {
      LessIsTotal(a[1..], a[1..]);
    }
    if a != [] {
      LessIsTotal(a[1..], a[1..]);
    }
  }

  lemma {:induction false} LessIsTransitive(a: Name, b: Name, c: Name)
    requires Less(a, b) && Less(b, c)
    ensures Less(a, c)
  {
    if a != [] && a[0] == b[0] && b[0] == c[0] {
      LessIsTransitive(a[1..], b[1..], c[1..]);
    }
  }

  ghost predicate Below(name: Name, m: seq<Entry>) {
    forall k | 0 <= k < |m| :: Less(name, m[k].name)
  }

  /** Entries in the order of their names, each name once. */
  ghost predicate Sorted(m: seq<Entry>) {
    m == [] || (Below(m[0].name, m[1..]) && Sorted(m[1..]))
  }

  /* ---- insertMeta ---- */

  function Insert(m: seq<Entry>, e: Entry): Result<seq<Entry>, Error> {
    if e.name == [] then Err(EmptyName)
    else if m == [] || Less(e.name, m[0].name) then Ok([e] + m)
    else if m[0].name == e.name then
      if m[0].data.kind.name == e.data.kind.name then Ok([e] + m[1..]) else Err(TypeMismatch)
    else
      var rest := Insert(m[1..], e);
      if rest.Ok? then Ok([m[0]] + rest.value) else rest
  }

  /** The map that sorted entries stand for. */
  function AsMap(m: seq<Entry>): map<Name, Metadata> {
    if m == [] then map[] else AsMap(m[1..])[m[0].name := m[0].data]
  }

  lemma {:induction false} KeysAreNames(m: seq<Entry>, k: Name)
    ensures k in AsMap(m) <==> exists i | 0 <= i < |m| :: m[i].name == k
  {
    if m != [] {
      KeysAreNames(m[1..], k);
      if k in AsMap(m[1..]) {
        var i :| 0 <= i < |m[1..]| && m[1..][i].name == k;
        assert m[i + 1].name == k;
      }
      if exists i | 0 <= i < |m| :: m[i].name == k {
        var i :| 0 <= i < |m| && m[i].name == k;
        assert i > 0 ==> m[1..][i - 1].name == k;
      }
    }
  }

  /** Insertion is an update of the map that keeps the order; it fails for an empty name, and
      for a name that has a value of another type. */
  lemma {:induction false} InsertIsUpdate(m: seq<Entry>, e: Entry)
    requires Sorted(m)
    ensures var r := Insert(m, e);
            && (r.Ok? <==> e.name != [] && (e.name in AsMap(m) ==> AsMap(m)[e.name].kind.name == e.data.kind.name))
            && (r.Ok? ==> Sorted(r.value) && AsMap(r.value) == AsMap(m)[e.name := e.data])
            && (r.Err? ==> r.error == if e.name == [] then EmptyName else TypeMismatch)
  {
    if e.name == [] || m == [] {
      assert [e][1..] == [];
    } else if Less(e.name, m[0].name) {
      InsertFirst(m, e);
    } else if m[0].name == e.name {
      InsertSame(m, e);
    } else {
      LessIsTotal(m[0].name, e.name);
      InsertIsUpdate(m[1..], e);
      InsertLater(m, e);
    }
  }

  lemma {:induction false} InsertFirst(m: seq<Entry>, e: Entry)
    requires Sorted(m) && m != [] && Less(e.name, m[0].name)
    ensures Sorted([e] + m) && e.name !in AsMap(m) && AsMap([e] + m) == AsMap(m)[e.name := e.data]
  {
    forall i | 0 <= i < |m| ensures Less(e.name, m[i].name) && m[i].name != e.name {
      if i > 0 {
        LessIsTransitive(e.name, m[0].name, m[i].name);
      }
      LessIsTotal(e.name, m[i].name);
    }
    KeysAreNames(m, e.name);
    assert ([e] + m)[1..] == m;
  }

  lemma {:induction false} InsertSame(m: seq<Entry>, e: Entry)
    requires Sorted(m) && m != [] && m[0].name == e.name
    ensures Sorted([e] + m[1..]) && AsMap([e] + m[1..]) == AsMap(m)[e.name := e.data]
  {
    assert ([e] + m[1..])[1..] == m[1..];
  }

  lemma {:induction false} InsertLater(m: seq<Entry>, e: Entry)
    requires Sorted(m) && m != [] && e.name != [] && Less(m[0].name, e.name)
    requires var r := Insert(m[1..], e);
             r.Ok? ==> Sorted(r.value) && AsMap(r.value) == AsMap(m[1..])[e.name := e.data]
    ensures m[0].name != e.name
    ensures var r := Insert(m[1..], e);
            r.Ok? ==> Sorted([m[0]] + r.value) && AsMap([m[0]] + r.value) == AsMap(m)[e.name := e.data]
  {
    LessIsTotal(m[0].name, e.name);
    var r := Insert(m[1..], e);
    if r.Ok? {
      assert ([m[0]] + r.value)[1..] == r.value;
      forall i | 0 <= i < |r.value| ensures Less(m[0].name, r.value[i].name) {
        var k := r.value[i].name;
        KeysAreNames(r.value, k);
        KeysAreNames(m[1..], k);
        if k != e.name {
          var j :| 0 <= j < |m[1..]| && m[1..][j].name == k;
          assert m[j + 1].name == k;
        }
      }
    }
  }

  /* ---- serialization ---- */

  function EncodeString(s: Name): seq<byte>
    requires |s| < LIMIT
  {
    Bytes32(|s|) + s
  }

  ghost predicate Encodable(e: Entry) {
    |e.name| < LIMIT && e.data.Valid()
  }

  function EncodeEntry(e: Entry): seq<byte>
    requires Encodable(e)
  {
    EncodeString(e.name) + EncodeString(e.data.kind.name) + (Bytes32(|e.data.bytes|) + e.data.bytes)
  }

  function EncodeAll(es: seq<Entry>): seq<byte>
    requires forall i | 0 <= i < |es| :: Encodable(es[i])
  {
    if es == [] then [] else EncodeEntry(es[0]) + EncodeAll(es[1..])
  }

  lemma {:induction false} EncodeAppend(es: seq<Entry>, e: Entry)
    requires Encodable(e) && forall i | 0 <= i < |es| :: Encodable(es[i])
    ensures EncodeAll(es + [e]) == EncodeAll(es) + EncodeEntry(e)
  {
    if es == [] {
      assert [] + [e] == [e] && [e][1..] == [];
      assert EncodeAll([e]) == EncodeEntry(e) + EncodeAll([]);
    } else {
      EncodeAppend(es[1..], e);
      assert (es + [e])[1..] == es[1..] + [e] && (es + [e])[0] == es[0];
      Regroup(EncodeEntry(es[0]), EncodeAll(es[1..]), EncodeEntry(e));
    }
  }

  /* What the reading functions make of any bytes from a position on, and where they end; nothing, if
     the bytes end too early. */

  datatype Parsed<+T> = Cut | Parsed(value: T, pos: nat)

  function TakeBytes(s: seq<byte>, pos: nat, n: nat): Parsed<seq<byte>> {
    if pos + n <= |s| then Parsed(s[pos..pos + n], pos + n) else Cut
  }

  function TakeWord(s: seq<byte>, pos: nat): Parsed<word32> {
    if pos + 4 <= |s| then Parsed(Word32At(s, pos), pos + 4) else Cut
  }

  function TakeString(s: seq<byte>, pos: nat): Parsed<Name> {
    var size := TakeWord(s, pos);
    if size.Cut? then Cut else TakeBytes(s, size.pos, size.value)
  }

  /** A class of fixed size reads that many bytes, whatever the size in the stream. */
  function ValueSize(kind: Kind, numBytes: word32): nat {
    if kind.Typed? && kind.fixed.Some? then kind.fixed.value else numBytes
  }

  function TakeMetadata(kind: Kind, s: seq<byte>, pos: nat): Parsed<Metadata> {
    var size := TakeWord(s, pos);
    if size.Cut? then Cut
    else
      var value := TakeBytes(s, size.pos, ValueSize(kind, size.value));
      if value.Cut? then Cut else Parsed(Metadata(kind, value.value), value.pos)
  }

  /** Names of temporary types start with two underscores. */
  predicate Temporary(typeName: Name) {
    |typeName| >= 2 && typeName[0] == 95 && typeName[1] == 95
  }

  /** The class that readMeta reads a value of a type into. */
  function KindFor(registry: Registry, typeName: Name): Kind {
    if typeName in registry then registry[typeName] else Unknown(typeName)
  }

  /** An entry of an unregistered type with a temporary name is not inserted. */
  predicate Skipped(registry: Registry, typeName: Name) {
    typeName !in registry && Temporary(typeName)
  }

  /** The first part of the loop in readMeta: what to insert, if anything. */
  function TakeEntry(registry: Registry, s: seq<byte>, pos: nat): Parsed<Option<Entry>> {
    var name := TakeString(s, pos);
    if name.Cut? then Cut
    else
      var typeName := TakeString(s, name.pos);
      if typeName.Cut? then Cut
      else
        ToInsert(registry, name.value, typeName.value, TakeMetadata(KindFor(registry, typeName.value), s, typeName.pos))
  }

  function ToInsert(registry: Registry, name: Name, typeName: Name, data: Parsed<Metadata>): Parsed<Option<Entry>> {
    if data.Cut? then Cut
    else Parsed(if Skipped(registry, typeName) then None else Some(Entry(name, data.value)), data.pos)
  }

  /** The entries of a map, and the position in the bytes. */
  datatype Reading = Reading(entries: seq<Entry>, pos: nat)

  /** How entries are read from positions. */
  type Take = nat -> Parsed<Option<Entry>>

  /** A whole turn of the loop. */
  function TakeOne(take: Take, x: Reading): Result<Reading, Error> {
    var e := take(x.pos);
    if e.Cut? then Err(Truncated)
    else if e.value.None? then Ok(Reading(x.entries, e.pos))
    else
      var m := Insert(x.entries, e.value.value);
      if m.Err? then Err(m.error) else Ok(Reading(m.value, e.pos))
  }

  function Turn(take: Take): Reading -> Result<Reading, Error> {
    x => TakeOne(take, x)
  }

  /** Some turns of the loop. */
  function TakeAll(take: Take, count: nat, x: Reading): Result<Reading, Error> {
    Repeat(Turn(take), count, x)
  }

  /** Where the entries are read from. */
  function Taker(registry: Registry, s: seq<byte>): Take {
    (pos: nat) => TakeEntry(registry, s, pos)
  }

  /** What proofs about many turns know of it: its definition, where they mention it. */
  ghost predicate IsTaker(registry: Registry, s: seq<byte>, take: Take) {
    forall pos {:trigger TakeEntry(registry, s, pos)} :: take(pos) == TakeEntry(registry, s, pos)
  }

  /** readMeta of any bytes. */
  function TakeMap(registry: Registry, s: seq<byte>, pos: nat): Result<Reading, Error> {
    var count := TakeWord(s, pos);
    if count.Cut? then Err(Truncated)
    else TakeAll(Taker(registry, s), count.value, Reading([], count.pos))
  }

  function Value<T>(p: Parsed<T>): Option<T> {
    if p.Cut? then None else Some(p.value)
  }

  /** is.read. */
  method ReadBytes(input: Stream, n: nat) returns (r: Option<seq<byte>>)
    modifies input`pos
    ensures var p := TakeBytes(input.bytes, old(input.pos), n);
            r == Value(p) && (p.Parsed? ==> input.pos == p.pos)
  {
    if input.pos + n > |input.bytes| {
      return None;
    }
    var b := input.Read(n);
    return Some(b);
  }

  method ReadWord(input: Stream) returns (r: Option<word32>)
    modifies input`pos
    ensures var p := TakeWord(input.bytes, old(input.pos));
            r == Value(p) && (p.Parsed? ==> input.pos == p.pos)
  {
    var b := ReadBytes(input, 4);
    r := if b.None? then None else Some(Word32At(b.value, 0));
  }

  /** readString. */
  method ReadString(input: Stream) returns (r: Option<Name>)
    modifies input`pos
    ensures var p := TakeString(input.bytes, old(input.pos));
            r == Value(p) && (p.Parsed? ==> input.pos == p.pos)
  {
    var size := ReadWord(input);
    if size.None? {
      return None;
    }
    r := ReadBytes(input, size.value);
  }

  /** Metadata::read into an object of some class. */
  method ReadMetadata(kind: Kind, input: Stream) returns (r: Option<Metadata>)
    modifies input`pos
    ensures var p := TakeMetadata(kind, input.bytes, old(input.pos));
            r == Value(p) && (p.Parsed? ==> input.pos == p.pos)
  {
    var numBytes := ReadWord(input);
    if numBytes.None? {
      return None;
    }
    var b := ReadBytes(input, ValueSize(kind, numBytes.value));
    r := if b.None? then None else Some(Metadata(kind, b.value));
  }

  /** The first part of the loop in readMeta. */
  method ReadEntry(registry: Registry, input: Stream) returns (r: Option<Option<Entry>>)
    modifies input`pos
    ensures var p := TakeEntry(registry, input.bytes, old(input.pos));
            r == Value(p) && (p.Parsed? ==> input.pos == p.pos)
  {
    var name := ReadString(input);
    if name.None? {
      return None;
    }
    var typeName := ReadString(input);
    if typeName.None? {
      return None;
    }
    if typeName.value in registry {
      var data := ReadMetadata(registry[typeName.value], input);
      return if data.None? then None else Some(Some(Entry(name.value, data.value)));
    }
    var data := ReadMetadata(Unknown(typeName.value), input);
    if data.None? {
      return None;
    }
    return Some(if Temporary(typeName.value) then None else Some(Entry(name.value, data.value)));
  }

  /** writeString. */
  method WriteString(output: Stream, s: Name)
    requires |s| < LIMIT
    modifies output`bytes
    ensures output.bytes == old(output.bytes) + EncodeString(s)
  {
    output.Write(Bytes32(|s|));
    output.Write(s);
    assert old(output.bytes) + Bytes32(|s|) + s == old(output.bytes) + (Bytes32(|s|) + s);
  }

  /** What reading makes of a written entry that fits. */
  function Restored(registry: Registry, e: Entry): Option<Entry> {
    var t := e.data.kind.name;
    if Skipped(registry, t) then None else Some(Entry(e.name, Metadata(KindFor(registry, t), e.data.bytes)))
  }

  /** The class registered for the entry's type, if its size is fixed, has the size of the value. */
  predicate Fits(registry: Registry, e: Entry) {
    var kind := KindFor(registry, e.data.kind.name);
    kind.Typed? && kind.fixed.Some? ==> kind.fixed.value == |e.data.bytes|
  }

  class MetaMap {
    var mMeta: seq<Entry>

    constructor ()
      ensures mMeta == []
    {
      mMeta := [];
    }

    /** insertMeta(name, m). */
    method InsertMeta(name: Name, m: Metadata) returns (r: Result<(), Error>)
      requires Sorted(mMeta)
      modifies this
      ensures Sorted(mMeta) && r.Ok? == Insert(old(mMeta), Entry(name, m)).Ok?
      ensures r.Ok? ==> Insert(old(mMeta), Entry(name, m)) == Ok(mMeta)
      ensures r.Err? ==> mMeta == old(mMeta) && Insert(old(mMeta), Entry(name, m)) == Err(r.error)
    {
      InsertIsUpdate(mMeta, Entry(name, m));
      if |name| == 0 {
        return Err(EmptyName);
      }
      var i := FindPlace(mMeta, Entry(name, m));
      PlaceOf(mMeta, i, Entry(name, m));
      if i < |mMeta| && mMeta[i].name == name {
        if mMeta[i].data.kind.name != m.kind.name {
          return Err(TypeMismatch);
        }
        mMeta := mMeta[..i] + ([Entry(name, m)] + mMeta[i + 1..]);
      } else {
        mMeta := mMeta[..i] + ([Entry(name, m)] + mMeta[i..]);
      }
      return Ok(());
    }

    /** writeMeta. */
    method WriteMeta(output: Stream)
      requires |mMeta| < LIMIT && forall i | 0 <= i < |mMeta| :: Encodable(mMeta[i])
      modifies output`bytes
      ensures output.bytes == old(output.bytes) + Bytes32(|mMeta|) + EncodeAll(mMeta)
    {
      output.Write(Bytes32(|mMeta|));
      ghost var start := output.bytes;
      assert mMeta[..0] == [] && start + [] == start;
      for i := 0 to |mMeta|
        invariant output.bytes == start + EncodeAll(mMeta[..i])
      {
        WriteEntry(output, mMeta[i]);
        assert mMeta[..i + 1] == mMeta[..i] + [mMeta[i]];
        EncodeAppend(mMeta[..i], mMeta[i]);
        assert start + EncodeAll(mMeta[..i]) + EncodeEntry(mMeta[i]) ==
               start + (EncodeAll(mMeta[..i]) + EncodeEntry(mMeta[i]));
      }
      assert mMeta[..|mMeta|] == mMeta;
    }

    /** A turn of the loop in readMeta. */
    method ReadNext(registry: Registry, input: Stream, ghost take: Take)
      returns (r: Result<(), Error>)
      requires Sorted(mMeta) && IsTaker(registry, input.bytes, take)
      modifies this, input`pos
      ensures Sorted(mMeta)
      ensures var t := TakeOne(take, Reading(old(mMeta), old(input.pos)));
              if r.Ok? then t == Ok(Reading(mMeta, input.pos)) else t == Err(r.error)
    {
      var e := ReadEntry(registry, input);
      if e.None? {
        return Err(Truncated);
      }
      if e.value.None? {
        return Ok(());
      }
      r := InsertMeta(e.value.value.name, e.value.value.data);
    }

    /** The loop in readMeta. */
    method ReadAll(registry: Registry, input: Stream, count: nat, ghost take: Take)
      returns (r: Result<(), Error>)
      requires Sorted(mMeta) && IsTaker(registry, input.bytes, take)
      modifies this, input`pos
      ensures Sorted(mMeta)
      ensures var t := TakeAll(take, count, Reading(old(mMeta), old(input.pos)));
              if r.Ok? then t == Ok(Reading(mMeta, input.pos)) else t == Err(r.error)
    {
      ghost var left: nat, x := count, Reading(mMeta, input.pos);
      for i := 0 to count
        invariant left == count - i && x == Reading(mMeta, input.pos) && Sorted(mMeta)
        invariant TakeAll(take, count, Reading(old(mMeta), old(input.pos))) == TakeAll(take, left, x)
      {
        r := ReadNext(registry, input, take);
        if r.Err? {
          return;
        }
        left, x := left - 1, Reading(mMeta, input.pos);
      }
      return Ok(());
    }

    /** readMeta: from any bytes, the map that these describe. */
    method ReadMeta(registry: Registry, input: Stream) returns (r: Result<(), Error>)
      modifies this, input`pos
      ensures Sorted(mMeta)
      ensures var t := TakeMap(registry, input.bytes, old(input.pos));
              if r.Ok? then t == Ok(Reading(mMeta, input.pos)) else t == Err(r.error)
    {
      mMeta := [];
      var count := ReadWord(input);
      if count.None? {
        return Err(Truncated);
      }
      r := ReadAll(registry, input, count.value, Taker(registry, input.bytes));
    }

    /** operator==: the two maps in lockstep. */
    method Equals(other: MetaMap) returns (r: bool)
      ensures r <==> SameEntries(mMeta, other.mMeta)
    {
      if |mMeta| != |other.mMeta| {
        return false;
      }
      for i := 0 to |mMeta|
        invariant forall k {:trigger SameAt(mMeta, other.mMeta, k)} | 0 <= k < i :: SameAt(mMeta, other.mMeta, k)
      {
        assert SameEntries(mMeta, other.mMeta) ==> SameAt(mMeta, other.mMeta, i);
        if mMeta[i].name != other.mMeta[i].name || !mMeta[i].data.Same(other.mMeta[i].data) {
          return false;
        }
      }
      return true;
    }
  }

  ghost predicate SameEntries(m: seq<Entry>, m': seq<Entry>) {
    |m| == |m'| && forall i {:trigger SameAt(m, m', i)} | 0 <= i < |m| :: SameAt(m, m', i)
  }

  ghost predicate SameAt(m: seq<Entry>, m': seq<Entry>, i: nat)
    requires i < |m| && i < |m'|
  {
    SameContent(m[i], m'[i])
  }

  /** The same name, type name and bytes, whatever the class. */
  ghost predicate SameContent(a: Entry, b: Entry) {
    a.name == b.name && a.data.kind.name == b.data.kind.name && a.data.bytes == b.data.bytes
  }

  function Prepend(front: seq<Entry>, r: Result<seq<Entry>, Error>): Result<seq<Entry>, Error> {
    if r.Ok? then Ok(front + r.value) else r
  }

  lemma {:induction false} PrependOne(m: seq<Entry>, i: nat, e: Entry)
    requires i < |m| && e.name != [] && !Less(e.name, m[i].name) && m[i].name != e.name
    ensures Prepend(m[..i], Insert(m[i..], e)) == Prepend(m[..i + 1], Insert(m[i + 1..], e))
  {
    assert m[i..][0] == m[i] && m[i..][1..] == m[i + 1..];
    var rest := Insert(m[i + 1..], e);
    if rest.Ok? {
      assert m[..i] + ([m[i]] + rest.value) == m[..i + 1] + rest.value;
    }
  }

  /** mMeta.find: the first place whose name is not smaller. */
  method FindPlace(m: seq<Entry>, e: Entry) returns (i: nat)
    requires e.name != []
    ensures i <= |m| && Insert(m, e) == Prepend(m[..i], Insert(m[i..], e))
    ensures i < |m| ==> !Less(m[i].name, e.name)
  {
    i := 0;
    PrependNothing(m, e);
    while i < |m| && Less(m[i].name, e.name)
      invariant i <= |m| && Insert(m, e) == Prepend(m[..i], Insert(m[i..], e))
    {
      LessIsTotal(m[i].name, e.name);
      PrependOne(m, i, e);
      i := i + 1;
    }
  }

  lemma {:induction false} PrependNothing(m: seq<Entry>, e: Entry)
    ensures Prepend(m[..0], Insert(m[0..], e)) == Insert(m, e)
  {
    assert m[..0] == [] && m[0..] == m;
    var r := Insert(m, e);
    if r.Ok? {
      assert [] + r.value == r.value;
    }
  }

  /** What insertion does at that place. */
  lemma {:induction false} PlaceOf(m: seq<Entry>, i: nat, e: Entry)
    requires i <= |m| && e.name != [] && (i < |m| ==> !Less(m[i].name, e.name))
    ensures Insert(m[i..], e) ==
            if i < |m| && m[i].name == e.name then
              if m[i].data.kind.name == e.data.kind.name then Ok([e] + m[i + 1..]) else Err(TypeMismatch)
            else Ok([e] + m[i..])
  {
    if i < |m| {
      assert m[i..][0] == m[i] && m[i..][1..] == m[i + 1..];
      LessIsTotal(m[i].name, e.name);
    }
  }

  /** The body of the loop in writeMeta. */
  method WriteEntry(output: Stream, e: Entry)
    requires Encodable(e)
    modifies output`bytes
    ensures output.bytes == old(output.bytes) + EncodeEntry(e)
  {
    ghost var start := output.bytes;
    WriteString(output, e.name);
    WriteString(output, e.data.kind.name);
    output.Write(Bytes32(|e.data.bytes|));
    output.Write(e.data.bytes);
    RegroupEntry(start, EncodeString(e.name), EncodeString(e.data.kind.name), Bytes32(|e.data.bytes|), e.data.bytes);
  }

  lemma {:induction false} RegroupEntry(s: seq<byte>, a: seq<byte>, b: seq<byte>, c: seq<byte>, d: seq<byte>)
    ensures s + a + b + c + d == s + (a + b + (c + d))
  {
  }

  /* ---- round trips ---- */

  lemma {:induction false} InsertLast(m: seq<Entry>, e: Entry)
    requires e.name != [] && forall i | 0 <= i < |m| :: Less(m[i].name, e.name)
    ensures Insert(m, e) == Ok(m + [e])
  {
    if m != [] {
      LessIsTotal(m[0].name, e.name);
      InsertLast(m[1..], e);
      assert [m[0]] + (m[1..] + [e]) == m + [e];
    } else {
      assert [e] + m == m + [e];
    }
  }

  /** The bytes from a position on start with these. */
  ghost predicate At(s: seq<byte>, pos: nat, part: seq<byte>) {
    pos + |part| <= |s| && forall i | 0 <= i < |part| :: part[i] == s[pos + i]
  }

  lemma {:induction false} AtSplit(s: seq<byte>, pos: nat, a: seq<byte>, b: seq<byte>)
    requires At(s, pos, a + b)
    ensures At(s, pos, a) && At(s, pos + |a|, b)
  {
    assert forall i | 0 <= i < |a| :: a[i] == (a + b)[i];
    assert forall i | 0 <= i < |b| :: b[i] == (a + b)[|a| + i];
  }

  lemma {:induction false} TakeEncodedWord(s: seq<byte>, pos: nat, x: word32)
    requires At(s, pos, Bytes32(x))
    ensures TakeWord(s, pos) == Parsed(x, pos + 4)
  {
    BytesOfWord(x);
    var b := Bytes32(x);
    assert b[0] == s[pos] && b[1] == s[pos + 1] && b[2] == s[pos + 2] && b[3] == s[pos + 3];
  }

  /** What was written as a string is read as that string. */
  lemma {:induction false} TakeEncodedString(s: seq<byte>, pos: nat, name: Name)
    requires |name| < LIMIT && At(s, pos, EncodeString(name))
    ensures TakeString(s, pos) == Parsed(name, pos + |EncodeString(name)|)
  {
    AtSplit(s, pos, Bytes32(|name|), name);
    TakeEncodedWord(s, pos, |name|);
    assert s[pos + 4..pos + 4 + |name|] == name;
  }

  lemma {:induction false} TakeEncodedValue(kind: Kind, s: seq<byte>, pos: nat, bytes: seq<byte>)
    requires |bytes| < LIMIT && At(s, pos, Bytes32(|bytes|) + bytes)
    ensures var size := ValueSize(kind, |bytes|);
            var r := TakeMetadata(kind, s, pos);
            && (size == |bytes| ==> r == Parsed(Metadata(kind, bytes), pos + 4 + |bytes|))
            && (r.Parsed? ==> r.value.kind == kind && |r.value.bytes| == size)
  {
    AtSplit(s, pos, Bytes32(|bytes|), bytes);
    TakeEncodedWord(s, pos, |bytes|);
    assert s[pos + 4..pos + 4 + |bytes|] == bytes;
  }

  lemma {:induction false} AtParts(s: seq<byte>, pos: nat, e: Entry)
    requires Encodable(e) && At(s, pos, EncodeEntry(e))
    ensures var name, typeName := EncodeString(e.name), EncodeString(e.data.kind.name);
            && At(s, pos, name) && At(s, pos + |name|, typeName)
            && At(s, pos + |name + typeName|, Bytes32(|e.data.bytes|) + e.data.bytes)
  {
    var name, typeName := EncodeString(e.name), EncodeString(e.data.kind.name);
    AtSplit(s, pos, name + typeName, Bytes32(|e.data.bytes|) + e.data.bytes);
    AtSplit(s, pos, name, typeName);
  }

  /** The names of a written entry are read, and its value comes next. */
  lemma {:induction false} TakeEncodedNames(registry: Registry, s: seq<byte>, pos: nat, e: Entry)
    requires Encodable(e) && At(s, pos, EncodeEntry(e))
    ensures var typeName, pos' := e.data.kind.name, pos + |EncodeString(e.name) + EncodeString(e.data.kind.name)|;
            && TakeEntry(registry, s, pos) ==
               ToInsert(registry, e.name, typeName, TakeMetadata(KindFor(registry, typeName), s, pos'))
            && At(s, pos', Bytes32(|e.data.bytes|) + e.data.bytes)
  {
    AtParts(s, pos, e);
    TakeEncodedString(s, pos, e.name);
    TakeEncodedString(s, pos + |EncodeString(e.name)|, e.data.kind.name);
  }

  /** A written entry that fits is restored; one that does not is read with another size. */
  ghost predicate Reads(registry: Registry, r: Parsed<Option<Entry>>, e: Entry, end: nat) {
    && (Fits(registry, e) ==> r.Parsed? && r.value == Restored(registry, e) && r.pos == end)
    && (!Fits(registry, e) && r.Parsed? ==> r.value.Some? && ReadsMisfit(registry, r.value.value, e))
  }

  ghost predicate ReadsMisfit(registry: Registry, r: Entry, e: Entry)
    requires !Fits(registry, e)
  {
    var kind := KindFor(registry, e.data.kind.name);
    r.name == e.name && r.data.kind == kind && |r.data.bytes| == kind.fixed.value
  }

  lemma {:induction false} TakeEncoded(registry: Registry, s: seq<byte>, pos: nat, e: Entry)
    requires Encodable(e) && At(s, pos, EncodeEntry(e))
    ensures Reads(registry, TakeEntry(registry, s, pos), e, pos + |EncodeEntry(e)|)
  {
    TakeEncodedNames(registry, s, pos, e);
    var pos' := pos + |EncodeString(e.name) + EncodeString(e.data.kind.name)|;
    TakeEncodedValue(KindFor(registry, e.data.kind.name), s, pos', e.data.bytes);
  }

  /** Where entry k was written. */
  ghost function Offset(pos: nat, es: seq<Entry>, k: nat): nat
    requires k <= |es| && forall i | 0 <= i < |es| :: Encodable(es[i])
  {
    pos + |EncodeAll(es[..k])|
  }

  /** Where all of them were written, and where they end. */
  ghost function Offsets(pos: nat, es: seq<Entry>): (at: seq<nat>)
    requires forall i | 0 <= i < |es| :: Encodable(es[i])
    ensures |at| == |es| + 1 && forall k | 0 <= k <= |es| :: at[k] == Offset(pos, es, k)
  {
    seq(|es| + 1, k requires 0 <= k <= |es| => Offset(pos, es, k))
  }

  /** Written entries are read one after the other. */
  ghost predicate ReadsAll(registry: Registry, take: Take, at: seq<nat>, es: seq<Entry>) {
    && |at| == |es| + 1
    && forall k {:trigger at[k], es[k]} | 0 <= k < |es| :: Reads(registry, take(at[k]), es[k], at[k + 1])
  }

  lemma {:induction false} AtOffset(s: seq<byte>, pos: nat, es: seq<Entry>, k: nat)
    requires k < |es| && (forall i | 0 <= i < |es| :: Encodable(es[i])) && At(s, pos, EncodeAll(es))
    ensures At(s, Offset(pos, es, k), EncodeEntry(es[k]))
    ensures Offset(pos, es, k + 1) == Offset(pos, es, k) + |EncodeEntry(es[k])|
  {
    TakeOneMore(es, k);
    EncodeAppend(es[..k], es[k]);
    EncodeSplit(es, k + 1);
    AtSplit(s, pos, EncodeAll(es[..k + 1]), EncodeAll(es[k + 1..]));
    AtSplit(s, pos, EncodeAll(es[..k]), EncodeEntry(es[k]));
  }

  lemma {:induction false} EncodeSplit(es: seq<Entry>, k: nat)
    requires k <= |es| && forall i | 0 <= i < |es| :: Encodable(es[i])
    ensures EncodeAll(es) == EncodeAll(es[..k]) + EncodeAll(es[k..])
  {
    if k == 0 {
      assert es[..0] == [] && es[0..] == es;
    } else {
      EncodeSplit(es[1..], k - 1);
      assert es[..k][1..] == es[1..][..k - 1] && es[1..][k - 1..] == es[k..];
      Regroup(EncodeEntry(es[0]), EncodeAll(es[..k][1..]), EncodeAll(es[k..]));
    }
  }

  lemma {:induction false} TakeEncodedAt(registry: Registry, s: seq<byte>, pos: nat, es: seq<Entry>, k: nat)
    requires k < |es| && (forall i | 0 <= i < |es| :: Encodable(es[i])) && At(s, pos, EncodeAll(es))
    ensures Reads(registry, TakeEntry(registry, s, Offset(pos, es, k)), es[k], Offset(pos, es, k + 1))
  {
    AtOffset(s, pos, es, k);
    TakeEncoded(registry, s, Offset(pos, es, k), es[k]);
  }

  lemma {:induction false} TakeEncodedAll(registry: Registry, s: seq<byte>, pos: nat, es: seq<Entry>, take: Take)
    requires IsTaker(registry, s, take)
    requires (forall i | 0 <= i < |es| :: Encodable(es[i])) && At(s, pos, EncodeAll(es))
    ensures ReadsAll(registry, take, Offsets(pos, es), es)
  {
    var at := Offsets(pos, es);
    forall k | 0 <= k < |es| ensures Reads(registry, take(at[k]), es[k], at[k + 1]) {
      TakeEncodedAt(registry, s, pos, es, k);
    }
  }

  ghost predicate AllBelow(m: seq<Entry>, es: seq<Entry>) {
    forall i {:trigger Below(m[i].name, es)} | 0 <= i < |m| :: Below(m[i].name, es)
  }

  /** Entries that may follow those of a map, as they come out of another map. */
  ghost predicate Follow(m: seq<Entry>, es: seq<Entry>) {
    && Sorted(m) && Sorted(es) && AllBelow(m, es)
    && forall i | 0 <= i < |es| :: es[i].name != [] && Encodable(es[i])
  }

  lemma {:induction false} FollowNext(m: seq<Entry>, es: seq<Entry>, e: Entry)
    requires Follow(m, es) && es != [] && e.name == es[0].name
    ensures Insert(m, e) == Ok(m + [e]) && Follow(m + [e], es[1..]) && Follow(m, es[1..])
  {
    forall i | 0 <= i < |m| ensures Less(m[i].name, e.name) && Below(m[i].name, es[1..]) {
      assert Below(m[i].name, es);
    }
    InsertLast(m, e);
    SortedAppend(m, e);
    forall i | 0 <= i < |m + [e]| ensures Below((m + [e])[i].name, es[1..]) {
      assert i < |m| ==> (m + [e])[i] == m[i];
    }
  }

  lemma {:induction false} SortedAppend(m: seq<Entry>, e: Entry)
    requires Sorted(m) && forall i | 0 <= i < |m| :: Less(m[i].name, e.name)
    ensures Sorted(m + [e])
  {
    if m == [] {
      assert (m + [e])[1..] == [];
    } else {
      SortedAppend(m[1..], e);
      assert (m + [e])[1..] == m[1..] + [e];
    }
  }

  /** What one entry adds to the map. */
  function KeptOf(registry: Registry, e: Entry): seq<Entry> {
    var r := Restored(registry, e);
    if r.None? then [] else [r.value]
  }

  /** The entries that come back, in order. */
  function Kept(registry: Registry, es: seq<Entry>): seq<Entry> {
    if es == [] then [] else KeptOf(registry, es[0]) + Kept(registry, es[1..])
  }

  /** After a written entry that fits, the others may follow. */
  lemma {:induction false} OthersFollow(registry: Registry, es: seq<Entry>, m: seq<Entry>)
    requires Follow(m, es) && es != []
    ensures Follow(m + KeptOf(registry, es[0]), es[1..])
    ensures KeptOf(registry, es[0]) != [] ==> Insert(m, KeptOf(registry, es[0])[0]) == Ok(m + KeptOf(registry, es[0]))
  {
    var kept := KeptOf(registry, es[0]);
    FollowNext(m, es, if kept == [] then es[0] else kept[0]);
    assert m + [] == m;
  }

  lemma {:induction false} KeptAppend(registry: Registry, es: seq<Entry>, e: Entry)
    ensures Kept(registry, es + [e]) == Kept(registry, es) + KeptOf(registry, e)
  {
    if es == [] {
      assert ([] + [e])[1..] == [];
    } else {
      KeptAppend(registry, es[1..], e);
      assert (es + [e])[1..] == es[1..] + [e];
    }
  }

  lemma {:induction false} KeptNext(registry: Registry, es: seq<Entry>, k: nat)
    requires k < |es|
    ensures Kept(registry, es[..k + 1]) == Kept(registry, es[..k]) + KeptOf(registry, es[k..][0])
    ensures es[k..][1..] == es[k + 1..]
  {
    KeptAppend(registry, es[..k], es[k]);
    TakeOneMore(es, k);
  }

  /** The others may follow what is kept of the first entries. */
  lemma {:induction false} LaterFollow(registry: Registry, es: seq<Entry>, k: nat)
    requires Follow([], es) && k <= |es|
    ensures Follow(Kept(registry, es[..k]), es[k..])
  {
    if k == 0 {
      assert es[..0] == [] && es[0..] == es;
    } else {
      LaterFollow(registry, es, k - 1);
      OthersFollow(registry, es[k - 1..], Kept(registry, es[..k - 1]));
      KeptNext(registry, es, k - 1);
    }
  }

  /** The map and the position before turn k, if the entries that were read fit. */
  ghost function Midway(registry: Registry, at: seq<nat>, es: seq<Entry>, k: nat): Reading
    requires k <= |es| && k < |at|
  {
    Reading(Kept(registry, es[..k]), at[k])
  }

  lemma {:induction false} MidwayNext(registry: Registry, take: Take, at: seq<nat>, es: seq<Entry>, k: nat)
    requires Follow([], es) && ReadsAll(registry, take, at, es) && k < |es| && Fits(registry, es[k])
    ensures TakeOne(take, Midway(registry, at, es, k)) == Ok(Midway(registry, at, es, k + 1))
  {
    LaterFollow(registry, es, k);
    OthersFollow(registry, es[k..], Kept(registry, es[..k]));
    KeptNext(registry, es, k);
    var x := Midway(registry, at, es, k);
    assert Reads(registry, take(at[k]), es[k], at[k + 1]);
    assert x.entries + [] == x.entries;
  }

  /** Reading the first n entries, if they fit, leaves the last turns. */
  lemma {:induction false} FirstComeBack(registry: Registry, take: Take, at: seq<nat>,
                                         es: seq<Entry>, n: nat)
    requires Follow([], es) && ReadsAll(registry, take, at, es)
    requires n <= |es| && forall i | 0 <= i < n :: Fits(registry, es[i])
    ensures TakeAll(take, |es|, Reading([], at[0])) == TakeAll(take, |es| - n, Midway(registry, at, es, n))
    decreases n
  {
    if n == 0 {
      assert es[..0] == [];
    } else {
      FirstComeBack(registry, take, at, es, n - 1);
      MidwayNext(registry, take, at, es, n - 1);
      RepeatNext(Turn(take), |es| - (n - 1), Midway(registry, at, es, n - 1));
    }
  }

  /** Reading sorted entries that fit keeps them sorted, so none of them replaces another. */
  lemma {:induction false} SortedComeBack(registry: Registry, take: Take, at: seq<nat>, es: seq<Entry>)
    requires Follow([], es) && ReadsAll(registry, take, at, es) && forall i | 0 <= i < |es| :: Fits(registry, es[i])
    ensures TakeAll(take, |es|, Reading([], at[0])) == Ok(Reading(Kept(registry, es), at[|es|]))
  {
    FirstComeBack(registry, take, at, es, |es|);
    assert es[..|es|] == es;
  }

  /** An entry of an unregistered type with a temporary name is dropped. */
  predicate Dropped(registry: Registry, e: Entry) {
    Skipped(registry, e.data.kind.name)
  }

  lemma {:induction false} KeptLength(registry: Registry, es: seq<Entry>)
    ensures |Kept(registry, es)| <= |es|
    ensures |Kept(registry, es)| == |es| <==> forall i | 0 <= i < |es| :: !Dropped(registry, es[i])
  {
    if es != [] {
      KeptLength(registry, es[1..]);
      assert forall i | 1 <= i < |es| :: es[i] == es[1..][i - 1];
    }
  }

  lemma {:induction false} KeptAt(registry: Registry, es: seq<Entry>, i: nat)
    requires i < |es| && forall k | 0 <= k < |es| :: !Dropped(registry, es[k])
    ensures |Kept(registry, es)| == |es| && Some(Kept(registry, es)[i]) == Restored(registry, es[i])
  {
    KeptLength(registry, es);
    if i > 0 {
      KeptAt(registry, es[1..], i - 1);
    }
  }

  ghost predicate AllFit(registry: Registry, es: seq<Entry>) {
    forall i | 0 <= i < |es| :: Fits(registry, es[i])
  }

  /** The entry comes back equal: its type is registered under its own name with the size of the
      value, or it is unregistered and does not start with two underscores. */
  predicate Survives(registry: Registry, e: Entry) {
    var t := e.data.kind.name;
    if t in registry then
      registry[t].name == t &&
      (registry[t].Typed? && registry[t].fixed.Some? ==> |e.data.bytes| == registry[t].fixed.value)
    else !([95, 95] <= t)
  }

  lemma {:induction false} SurvivesIfFit(registry: Registry, e: Entry)
    ensures Survives(registry, e) <==>
            var t := e.data.kind.name;
            Fits(registry, e) && if t in registry then registry[t].name == t else !Temporary(t)
  {
    var t := e.data.kind.name;
    assert Temporary(t) <==> [95, 95] <= t;
  }

  ghost predicate AllSurvive(registry: Registry, es: seq<Entry>) {
    forall i | 0 <= i < |es| :: Survives(registry, es[i])
  }

  /** Entries that fit come back equal exactly when all of them survive. */
  lemma {:induction false} KeptIffAllSurvive(registry: Registry, es: seq<Entry>)
    requires AllFit(registry, es)
    ensures SameEntries(Kept(registry, es), es) <==> AllSurvive(registry, es)
  {
    KeptLength(registry, es);
    if forall i | 0 <= i < |es| :: !Dropped(registry, es[i]) {
      forall i | 0 <= i < |es|
        ensures Survives(registry, es[i]) <==>
                SameAt(Kept(registry, es), es, i)
      {
        KeptAt(registry, es, i);
        SurvivesIfFit(registry, es[i]);
      }
    } else {
      var i :| 0 <= i < |es| && Dropped(registry, es[i]);
      SurvivesIfFit(registry, es[i]);
      assert !Survives(registry, es[i]);
    }
  }

  /** The map holds an entry of that name, type name and bytes. */
  ghost predicate HoldsContent(m: seq<Entry>, e: Entry) {
    exists k | 0 <= k < |m| :: SameContent(m[k], e)
  }

  /** Nothing comes back under a name that was not written. */
  lemma {:induction false} KeptNames(registry: Registry, es: seq<Entry>, name: Name)
    requires Below(name, es)
    ensures Below(name, Kept(registry, es))
  {
    if es != [] {
      KeptNames(registry, es[1..], name);
      assert Less(name, es[0].name);
    }
  }

  lemma {:induction false} KeptContent(registry: Registry, es: seq<Entry>, i: nat)
    requires Sorted(es) && i < |es|
    ensures HoldsContent(Kept(registry, es), es[i]) <==>
            var t := es[i].data.kind.name;
            if t in registry then registry[t].name == t else !([95, 95] <= t)
  {
    var kept, rest := KeptOf(registry, es[0]), Kept(registry, es[1..]);
    KeptNames(registry, es[1..], es[0].name);
    if i == 0 {
      forall k | 0 <= k < |rest| ensures !SameContent(rest[k], es[0]) {
        LessIsTotal(es[0].name, rest[k].name);
      }
      var t := es[0].data.kind.name;
      assert Temporary(t) <==> [95, 95] <= t;
      assert kept != [] ==> (kept + rest)[0] == kept[0];
      assert forall k | |kept| <= k < |kept + rest| :: (kept + rest)[k] == rest[k - |kept|];
    } else {
      KeptContent(registry, es[1..], i - 1);
      assert Less(es[0].name, es[1..][i - 1].name);
      LessIsTotal(es[0].name, es[i].name);
      assert HoldsContent(kept + rest, es[i]) <==> HoldsContent(rest, es[i]) by {
        HoldsInRest(kept, rest, es[i]);
      }
    }
  }

  lemma {:induction false} HoldsInRest(kept: seq<Entry>, rest: seq<Entry>, e: Entry)
    requires forall k | 0 <= k < |kept| :: kept[k].name != e.name
    ensures HoldsContent(kept + rest, e) <==> HoldsContent(rest, e)
  {
    if HoldsContent(rest, e) {
      var k :| 0 <= k < |rest| && SameContent(rest[k], e);
      assert (kept + rest)[|kept| + k] == rest[k];
    }
    if HoldsContent(kept + rest, e) {
      var k :| 0 <= k < |kept + rest| && SameContent((kept + rest)[k], e);
      assert k >= |kept| && rest[k - |kept|] == (kept + rest)[k];
    }
  }

  /* ---- entries that do not fit ---- */

  /** One class for each type name. */
  ghost predicate Coherent(registry: Registry) {
    forall t, u | t in registry && u in registry && registry[t].name == registry[u].name :: registry[t] == registry[u]
  }

  /** The map holds a value under this name that cannot equal one of type t and another size. */
  ghost predicate HoldsMisfit(registry: Registry, m: seq<Entry>, name: Name, t: Name) {
    && t in registry && registry[t].Typed? && registry[t].fixed.Some? && Sorted(m) && name in AsMap(m)
    && var data := AsMap(m)[name];
       && data.kind.name == registry[t].name
       && (registry[t].name == t ==> |data.bytes| == registry[t].fixed.value)
  }

  /** An entry that is read has the size of its class. */
  ghost predicate HasSize(registry: Registry, r: Parsed<Option<Entry>>) {
    r.Parsed? && r.value.Some? ==>
      var kind := r.value.value.data.kind;
      && (exists t :: kind == KindFor(registry, t))
      && (kind.Typed? && kind.fixed.Some? ==> |r.value.value.data.bytes| == kind.fixed.value)
  }

  lemma {:induction false} TakenFits(registry: Registry, s: seq<byte>, pos: nat)
    ensures HasSize(registry, TakeEntry(registry, s, pos))
  {
    if TakeEntry(registry, s, pos).Parsed? {
      var t := TakeString(s, TakeString(s, pos).pos).value;
      assert TakeEntry(registry, s, pos).value.Some? ==>
          TakeEntry(registry, s, pos).value.value.data.kind == KindFor(registry, t);
    }
  }

  /** A turn of the loop keeps it a misfit: insertion never changes a type. */
  lemma {:induction false} MisfitKept(registry: Registry, take: Take, x: Reading, name: Name, t: Name)
    requires Coherent(registry) && HoldsMisfit(registry, x.entries, name, t) && HasSize(registry, take(x.pos))
    ensures var r := TakeOne(take, x);
            r.Ok? ==> HoldsMisfit(registry, r.value.entries, name, t)
  {
    var e := take(x.pos);
    if e.Parsed? && e.value.Some? {
      InsertIsUpdate(x.entries, e.value.value);
    }
  }

  /** Whatever is read afterwards, it stays a misfit. */
  lemma {:induction false} MisfitStays(registry: Registry, take: Take, count: nat, x: Reading, name: Name, t: Name)
    requires Coherent(registry) && forall pos :: HasSize(registry, take(pos))
    ensures var r := TakeAll(take, count, x);
            HoldsMisfit(registry, x.entries, name, t) && r.Ok? ==> HoldsMisfit(registry, r.value.entries, name, t)
  {
    var turn, keeps := Turn(take), (y: Reading) => HoldsMisfit(registry, y.entries, name, t);
    forall y: Reading | keeps(y) && turn(y).Ok? ensures keeps(turn(y).value) {
      MisfitKept(registry, take, y, name, t);
    }
    if keeps(x) {
      RepeatKeeps(turn, count, x, keeps);
    }
  }

  /** The turn of the loop that reads a written misfit. */
  lemma {:induction false} TakeMisfit(registry: Registry, take: Take, es: seq<Entry>, x: Reading, end: nat)
    requires Follow(x.entries, es) && es != [] && !Fits(registry, es[0]) && Reads(registry, take(x.pos), es[0], end)
    ensures var r := TakeOne(take, x);
            r.Ok? ==> HoldsMisfit(registry, r.value.entries, es[0].name, es[0].data.kind.name)
  {
    var e := take(x.pos);
    if e.Parsed? {
      FollowNext(x.entries, es, e.value.value);
      InsertIsUpdate(x.entries, e.value.value);
    }
  }

  lemma {:induction false} AsMapAt(m: seq<Entry>, i: nat)
    requires Sorted(m) && i < |m|
    ensures m[i].name in AsMap(m) && AsMap(m)[m[i].name] == m[i].data
  {
    if i > 0 {
      AsMapAt(m[1..], i - 1);
      assert Below(m[0].name, m[1..]);
      LessIsTotal(m[0].name, m[i].name);
    }
  }

  lemma {:induction false} MisfitIsNoticed(registry: Registry, es: seq<Entry>, i: nat, m: seq<Entry>)
    requires Coherent(registry) && i < |es| && !Fits(registry, es[i])
    ensures HoldsMisfit(registry, m, es[i].name, es[i].data.kind.name) ==> !SameEntries(m, es)
  {
    if HoldsMisfit(registry, m, es[i].name, es[i].data.kind.name) && SameEntries(m, es) {
      assert SameAt(m, es, i);
      AsMapAt(m, i);
    }
  }

  lemma {:induction false} StaysNoticed(registry: Registry, take: Take, es: seq<Entry>, i: nat, count: nat, x: Reading)
    requires Coherent(registry) && (forall p :: HasSize(registry, take(p))) && i < |es| && !Fits(registry, es[i])
    ensures var r := TakeAll(take, count, x);
            HoldsMisfit(registry, x.entries, es[i].name, es[i].data.kind.name) && r.Ok? ==>
              !SameEntries(r.value.entries, es)
  {
    MisfitStays(registry, take, count, x, es[i].name, es[i].data.kind.name);
    var last := TakeAll(take, count, x);
    if last.Ok? {
      MisfitIsNoticed(registry, es, i, last.value.entries);
    }
  }

  /** If the next written entry does not fit, no map that is read from there on is equal. */
  lemma {:induction false} MisfitIsRead(registry: Registry, take: Take, es: seq<Entry>, i: nat,
                     count: nat, x: Reading, end: nat)
    requires Coherent(registry) && (forall p :: HasSize(registry, take(p)))
    requires i < |es| && !Fits(registry, es[i]) && count > 0
    requires Follow(x.entries, es[i..]) && Reads(registry, take(x.pos), es[i], end)
    ensures var r := TakeAll(take, count, x);
            !(r.Ok? && SameEntries(r.value.entries, es))
  {
    TakeMisfit(registry, take, es[i..], x, end);
    RepeatNext(Turn(take), count, x);
    if TakeOne(take, x).Ok? {
      StaysNoticed(registry, take, es, i, count - 1, TakeOne(take, x).value);
    }
  }

  lemma {:induction false} RestIsNoticed(registry: Registry, take: Take, at: seq<nat>,
                                         es: seq<Entry>, i: nat)
    requires Coherent(registry) && Follow([], es) && ReadsAll(registry, take, at, es)
    requires (forall p :: HasSize(registry, take(p))) && i < |es| && !Fits(registry, es[i])
    ensures var r := TakeAll(take, |es| - i, Midway(registry, at, es, i));
            !(r.Ok? && SameEntries(r.value.entries, es))
  {
    var x, end := Midway(registry, at, es, i), at[i + 1];
    assert Follow(x.entries, es[i..]) && Reads(registry, take(x.pos), es[i], end) by {
      LaterFollow(registry, es, i);
    }
    MisfitIsRead(registry, take, es, i, |es| - i, x, end);
  }

  lemma {:induction false} MisfitsAreRead(registry: Registry, take: Take, at: seq<nat>,
                                          es: seq<Entry>)
    requires Coherent(registry) && Follow([], es) && ReadsAll(registry, take, at, es)
    requires (forall p :: HasSize(registry, take(p))) && !AllFit(registry, es)
    ensures var r := TakeAll(take, |es|, Reading([], at[0]));
            !(r.Ok? && SameEntries(r.value.entries, es))
  {
    var i := FirstMisfit(registry, es);
    RestIsNoticed(registry, take, at, es, i);
    FirstComeBack(registry, take, at, es, i);
  }

  /** Reading written entries gives an equal map exactly when all of them survive. */
  lemma {:induction false} EqualIffAllTaken(registry: Registry, take: Take, at: seq<nat>, es: seq<Entry>)
    requires Coherent(registry) && Follow([], es) && ReadsAll(registry, take, at, es)
    requires forall p :: HasSize(registry, take(p))
    ensures var r := TakeAll(take, |es|, Reading([], at[0]));
            && (r.Ok? && SameEntries(r.value.entries, es) <==> AllSurvive(registry, es))
            && (AllFit(registry, es) ==>
                  r.Ok? && r.value.entries == Kept(registry, es) && r.value.pos == at[|es|])
  {
    if AllFit(registry, es) {
      SortedComeBack(registry, take, at, es);
      KeptIffAllSurvive(registry, es);
    } else {
      MisfitsAreRead(registry, take, at, es);
    }
  }

  /** Reading what was written gives an equal map exactly when all entries survive, under any
      registry with one class for each type name. */
  lemma {:induction false} EqualIffAllSurvive(registry: Registry, s: seq<byte>, pos: nat, es: seq<Entry>)
    requires Coherent(registry) && |es| < LIMIT && Follow([], es) && At(s, pos, Bytes32(|es|) + EncodeAll(es))
    ensures var r := TakeMap(registry, s, pos);
            && (r.Ok? && SameEntries(r.value.entries, es) <==> AllSurvive(registry, es))
            && (AllFit(registry, es) ==>
                  r.Ok? && r.value.entries == Kept(registry, es) && r.value.pos == pos + 4 + |EncodeAll(es)|)
  {
    AtSplit(s, pos, Bytes32(|es|), EncodeAll(es));
    TakeEncodedWord(s, pos, |es|);
    var take := Taker(registry, s);
    TakeEncodedAll(registry, s, pos + 4, es, take);
    var at := Offsets(pos + 4, es);
    assert at[0] == pos + 4 && at[|es|] == pos + 4 + |EncodeAll(es)| by {
      assert es[..0] == [] && es[..|es|] == es;
    }
    forall p ensures HasSize(registry, take(p)) {
      TakenFits(registry, s, p);
    }
    EqualIffAllTaken(registry, take, at, es);
  }

  /** Under any registry: an entry of an unregistered type comes back exactly if the type's name
      does not start with two underscores, and one of a registered type exactly if its factory
      builds the type it is named for; as long as all sizes fit. */
  lemma {:induction false} WrittenComesBack(registry: Registry, s: seq<byte>, pos: nat, es: seq<Entry>, i: nat)
    requires |es| < LIMIT && Follow([], es) && AllFit(registry, es)
    requires At(s, pos, Bytes32(|es|) + EncodeAll(es)) && i < |es|
    ensures var r, t := TakeMap(registry, s, pos), es[i].data.kind.name;
            && r.Ok?
            && (HoldsContent(r.value.entries, es[i]) <==>
                  if t in registry then registry[t].name == t else !([95, 95] <= t))
  {
    AllComeBack(registry, s, pos, es);
    KeptContent(registry, es, i);
  }

  /** What is read of entries whose sizes fit. */
  lemma {:induction false} AllComeBack(registry: Registry, s: seq<byte>, pos: nat, es: seq<Entry>)
    requires |es| < LIMIT && Follow([], es) && AllFit(registry, es)
    requires At(s, pos, Bytes32(|es|) + EncodeAll(es))
    ensures var r := TakeMap(registry, s, pos);
            r.Ok? && r.value.entries == Kept(registry, es) && r.value.pos == pos + 4 + |EncodeAll(es)|
  {
    AtSplit(s, pos, Bytes32(|es|), EncodeAll(es));
    TakeEncodedWord(s, pos, |es|);
    var take := Taker(registry, s);
    TakeEncodedAll(registry, s, pos + 4, es, take);
    assert es[..0] == [] && es[..|es|] == es;
    SortedComeBack(registry, take, Offsets(pos + 4, es), es);
  }

  lemma {:induction false} FirstMisfit(registry: Registry, es: seq<Entry>) returns (i: nat)
    requires !AllFit(registry, es)
    ensures i < |es| && !Fits(registry, es[i]) && forall k | 0 <= k < i :: Fits(registry, es[k])
  {
    i := 0;
    while Fits(registry, es[i])
      invariant i < |es| && forall k | 0 <= k < i :: Fits(registry, es[k])
      decreases |es| - i
    {
      i := i + 1;
    }
  }

  /** Registered types come back as the class registered for them, others as raw bytes. */
  lemma {:induction false} KindsComeBack(registry: Registry, es: seq<Entry>)
    requires Lawful(registry)
    ensures forall k | 0 <= k < |Kept(registry, es)| ::
              var kind := Kept(registry, es)[k].data.kind;
              kind == KindFor(registry, kind.name)
  {
    if es != [] {
      KindsComeBack(registry, es[1..]);
    }
  }

  /* ---- maps that do not come back ---- */

  function Ascii(s: string): Name {
    if s == "" then [] else [s[0] as int % 128] + Ascii(s[1..])
  }

  /** The alias of the point index type builds int32 metadata: its value comes back with another
      type name. */
  lemma {:induction false} AliasBreaksRoundTrip()
    ensures var registry: Registry := map[Ascii("ptidx32") := Typed(Ascii("int32"), Some(4))];
            var es := [Entry(Ascii("n"), Metadata(Typed(Ascii("ptidx32"), Some(4)), [1, 2, 3, 4]))];
            && Follow([], es) && Fits(registry, es[0]) && !Dropped(registry, es[0])
            && var r := TakeMap(registry, Bytes32(1) + EncodeAll(es), 0);
               !(r.Ok? && SameEntries(r.value.entries, es))
  {
    var registry: Registry := map[Ascii("ptidx32") := Typed(Ascii("int32"), Some(4))];
    var es := [Entry(Ascii("n"), Metadata(Typed(Ascii("ptidx32"), Some(4)), [1, 2, 3, 4]))];
    assert Ascii("int32")[0] != Ascii("ptidx32")[0];
    assert !Survives(registry, es[0]);
    EqualIffAllSurvive(registry, Bytes32(1) + EncodeAll(es), 0, es);
  }

  /** Raw bytes of a type that is registered meanwhile, of another size. */
  lemma {:induction false} MisfitBreaksRoundTrip()
    ensures var registry: Registry := map[Ascii("int32") := Typed(Ascii("int32"), Some(4))];
            var es := [Entry(Ascii("n"), Metadata(Unknown(Ascii("int32")), [1, 2, 3]))];
            && Lawful(registry) && Follow([], es) && !Fits(registry, es[0]) && !Dropped(registry, es[0])
            && var r := TakeMap(registry, Bytes32(1) + EncodeAll(es), 0);
               !(r.Ok? && SameEntries(r.value.entries, es))
  {
    var registry: Registry := map[Ascii("int32") := Typed(Ascii("int32"), Some(4))];
    var es := [Entry(Ascii("n"), Metadata(Unknown(Ascii("int32")), [1, 2, 3]))];
    assert !Survives(registry, es[0]);
    EqualIffAllSurvive(registry, Bytes32(1) + EncodeAll(es), 0, es);
  }

  /** An entry survives exactly if it fits and is not dropped, when no factory is an alias. */
  lemma {:induction false} LawfulSurvives(registry: Registry, e: Entry)
    requires Lawful(registry)
    ensures Survives(registry, e) <==> Fits(registry, e) && !Dropped(registry, e)
  {
  }

  /** readMeta after writeMeta, for any map whose sizes fit in 32 bits. */
  method WriteThenRead(registry: Registry, source: MetaMap, target: MetaMap) returns (equal: bool)
    requires Coherent(registry) && source != target && |source.mMeta| < LIMIT && Follow([], source.mMeta)
    modifies target
    ensures equal <==> AllSurvive(registry, source.mMeta)
    ensures AllFit(registry, source.mMeta) ==> target.mMeta == Kept(registry, source.mMeta)
    ensures forall i | 0 <= i < |source.mMeta| && AllFit(registry, source.mMeta) ::
              var t := source.mMeta[i].data.kind.name;
              HoldsContent(target.mMeta, source.mMeta[i]) <==>
                if t in registry then registry[t].name == t else !([95, 95] <= t)
    ensures Lawful(registry) ==>
              (equal <==> forall i | 0 <= i < |source.mMeta| ::
                            Fits(registry, source.mMeta[i]) && !Dropped(registry, source.mMeta[i]))
  {
    var stream := new Stream();
    source.WriteMeta(stream);
    ghost var written := Bytes32(|source.mMeta|) + EncodeAll(source.mMeta);
    assert stream.bytes == written;
    EqualIffAllSurvive(registry, written, 0, source.mMeta);
    forall i | 0 <= i < |source.mMeta| && AllFit(registry, source.mMeta)
      ensures HoldsContent(Kept(registry, source.mMeta), source.mMeta[i]) <==>
              var t := source.mMeta[i].data.kind.name;
              if t in registry then registry[t].name == t else !([95, 95] <= t)
    {
      KeptContent(registry, source.mMeta, i);
    }
    var r := target.ReadMeta(registry, stream);
    if r.Err? {
      equal := false;
    } else {
      equal := target.Equals(source);
    }
    if Lawful(registry) {
      forall i | 0 <= i < |source.mMeta|
        ensures Survives(registry, source.mMeta[i]) <==>
                Fits(registry, source.mMeta[i]) && !Dropped(registry, source.mMeta[i])
      {
        LawfulSurvives(registry, source.mMeta[i]);
      }
    }
  }
}
