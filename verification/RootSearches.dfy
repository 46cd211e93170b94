/** The three ways in which CNanoVDB.h searches the root table for the tile of a coordinate. */
module RootSearches {
  import opened CoordBits
  import opened Coords
  import opened Wrappers

  /** The answer that does not depend on the way of searching. */
  ghost predicate IsTileOf(origins: seq<Coord>, ijk: Coord, r: Option<nat>) {
    match r
    case None => forall i | 0 <= i < |origins| :: origins[i] != Block(ijk, 2)
    case Some(i) => i < |origins| && origins[i] == Block(ijk, 2)
  }

  /** Each block has at most one tile. */
  ghost predicate Distinct(origins: seq<Coord>) {
    forall i, j | 0 <= i < j < |origins| :: origins[i] != origins[j]
  }

  lemma AnswerIsUnique(origins: seq<Coord>, ijk: Coord, r: Option<nat>, r': Option<nat>)
    requires Distinct(origins) && IsTileOf(origins, ijk, r) && IsTileOf(origins, ijk, r')
    ensures r == r'
  {
  }

  /** Tiles with packed keys. */
  ghost predicate Keyed(keys: seq<int>, origins: seq<Coord>) {
    |keys| == |origins| &&
    forall i | 0 <= i < |keys| :: keys[i] == CoordToKey(origins[i]) && origins[i] == Block(origins[i], 2)
  }

  lemma KeyMatches(keys: seq<int>, origins: seq<Coord>, ijk: Coord, i: nat)
    requires Keyed(keys, origins) && i < |keys|
    ensures keys[i] == CoordToKey(ijk) <==> origins[i] == Block(ijk, 2)
  {
    KeysIdentifyBlocks(origins[i], ijk);
  }

  /** KEYSEARCH with a single key: the first match. */
  method LinearSearch(keys: seq<int>, ijk: Coord, ghost origins: seq<Coord>) returns (r: Option<nat>)
    requires Keyed(keys, origins)
    ensures IsTileOf(origins, ijk, r)
  {
    var key := CoordToKey(ijk);
    for i := 0 to |keys|
      invariant forall k | 0 <= k < i :: origins[k] != Block(ijk, 2)
    {
      KeyMatches(keys, origins, ijk, i);
      if keys[i] == key {
        return Some(i);
      }
    }
    return None;
  }

  /** KEYSEARCH with CNANOVDB_FULL_ROOT_SEARCH: the last match. */
  method FullSearch(keys: seq<int>, ijk: Coord, ghost origins: seq<Coord>) returns (result: Option<nat>)
    requires Keyed(keys, origins)
    ensures IsTileOf(origins, ijk, result)
  {
    var key := CoordToKey(ijk);
    result := None;
    for idx := 0 to |keys|
      invariant result.None? ==> forall k | 0 <= k < idx :: origins[k] != Block(ijk, 2)
      invariant result.Some? ==> result.value < idx && origins[result.value] == Block(ijk, 2)
    {
      KeyMatches(keys, origins, ijk, idx);
      if keys[idx] == key {
        result := Some(idx);
      }
    }
  }

  /** cnanovdb_coord_compare. */
  function Compare(a: Coord, b: Coord): int {
    if a.x < b.x then -1 else if a.x > b.x then 1
    else if a.y < b.y then -1 else if a.y > b.y then 1
    else if a.z < b.z then -1 else if a.z > b.z then 1
    else 0
  }

  lemma CompareIsTotal(a: Coord, b: Coord, c: Coord)
    ensures Compare(a, b) == 0 <==> a == b
    ensures Compare(a, b) == -Compare(b, a)
    ensures Compare(a, b) < 0 && Compare(b, c) < 0 ==> Compare(a, c) < 0
  {
  }

  ghost predicate Sorted(origins: seq<Coord>) {
    forall i, j | 0 <= i < j < |origins| :: Compare(origins[i], origins[j]) < 0
  }

  /** KEYSEARCH on sorted tiles with coordinates for keys: bisection. */
  method BinarySearch(origins: seq<Coord>, ijk: Coord) returns (r: Option<nat>)
    requires Sorted(origins)
    ensures IsTileOf(origins, ijk, r)
  {
    var key := Block(ijk, 2);
    var low, high := 0, |origins|;
    while low != high
      invariant 0 <= low <= high <= |origins|
      invariant forall i | 0 <= i < low :: Compare(origins[i], key) < 0
      invariant forall i | high <= i < |origins| :: Compare(origins[i], key) > 0
      decreases high - low
    {
      var mid := low + (high - low) / 2;
      var keycmp := Compare(origins[mid], key);
      if keycmp == 0 {
        CompareIsTotal(origins[mid], key, key);
        return Some(mid);
      }
      forall i | 0 <= i < |origins| && i != mid
        ensures i < mid && keycmp < 0 ==> Compare(origins[i], key) < 0
        ensures i > mid && keycmp > 0 ==> Compare(origins[i], key) > 0
      {
        CompareIsTotal(origins[i], origins[mid], key);
        CompareIsTotal(key, origins[mid], origins[i]);
        CompareIsTotal(origins[mid], key, key);
        CompareIsTotal(origins[i], key, key);
      }
      if keycmp < 0 {
        low := mid + 1;
      } else {
        high := mid;
      }
    }
    return None;
  }

  /** All three find the same tile. */
  method SearchThreeWays(keys: seq<int>, origins: seq<Coord>, ijk: Coord)
    returns (linear: Option<nat>, full: Option<nat>, bisected: Option<nat>)
    requires Keyed(keys, origins) && Sorted(origins)
    ensures linear == full == bisected && IsTileOf(origins, ijk, linear)
  {
    linear := LinearSearch(keys, ijk, origins);
    full := FullSearch(keys, ijk, origins);
    bisected := BinarySearch(origins, ijk);
    forall i, j | 0 <= i < j < |origins| ensures origins[i] != origins[j] {
      CompareIsTotal(origins[i], origins[j], origins[j]);
    }
    AnswerIsUnique(origins, ijk, linear, bisected);
    AnswerIsUnique(origins, ijk, full, bisected);
  }
}
