/** The bit mask of NanoVDB.h: searching it, counting in it, iterating over it. */
module Masks {
  import opened Bits
  import opened Words64

  /** Bit i of a sequence of words. */
  predicate BitAt(words: seq<Word>, i: nat)
    requires i < 64 * |words|
  {
    Bit(words[i / 64], i % 64)
  }

  /** The number of set bits below i. */
  function Rank(words: seq<Word>, i: nat): (n: nat)
    requires i <= 64 * |words|
    ensures n <= i
  {
    if i == 0 then 0 else Rank(words, i - 1) + (if BitAt(words, i - 1) then 1 else 0)
  }

  /** The words below, and a part of one word. */
  lemma {:induction false} RankOfPart(words: seq<Word>, n: nat, m: nat)
    requires n < |words| && m <= 64
    ensures Rank(words, 64 * n + m) == Rank(words, 64 * n) + Ones(words[n], m)
  {
    if m > 0 {
      RankOfPart(words, n, m - 1);
      assert (64 * n + m - 1) / 64 == n && (64 * n + m - 1) % 64 == m - 1;
    }
  }

  lemma {:induction false} RankOfNext(words: seq<Word>, n: nat)
    requires n < |words|
    ensures Rank(words, 64 * (n + 1)) == Rank(words, 64 * n) + CountOn(words[n])
  {
    RankOfPart(words, n, 64);
  }

  lemma {:induction false} RankSplit(words: seq<Word>, i: nat)
    requires i < 64 * |words|
    ensures Rank(words, i) == Rank(words, 64 * (i / 64)) + Ones(words[i / 64], i % 64)
  {
    RankOfPart(words, i / 64, i % 64);
  }

  /** `CountOn(w & ((1 << m) - 1))`. */
  method CountLow(w: Word, m: nat) returns (sum: nat)
    requires m < 64
    ensures sum == Ones(w, m)
  {
    CountBelow(w, m);
    sum := CountOn(And64(w, Shl64(1, m) - 1));
  }

  class Mask {
    const mWords: array<Word>

    constructor (wordCount: nat)
      requires wordCount > 0
      ensures fresh(mWords) && mWords.Length == wordCount && forall n | 0 <= n < wordCount :: mWords[n] == 0
    {
      mWords := new Word[wordCount](n => 0);
    }

    function Size(): nat {
      64 * mWords.Length
    }

    predicate IsOn(n: nat)
      requires n < Size()
      reads mWords
    {
      BitAt(mWords[..], n)
    }

    /** A word as the search for set or unset bits sees it. */
    function Seen(on: bool, n: nat): Word
      requires n < mWords.Length
      reads mWords
    {
      if on then mWords[n] else Not64(mWords[n])
    }

    lemma SeenBit(on: bool, n: nat, m: nat)
      requires n < mWords.Length && m < 64
      ensures Bit(Seen(on, n), m) <==> IsOn(64 * n + m) == on
    {
      assert (64 * n + m) / 64 == n && (64 * n + m) % 64 == m;
      if !on {
        BitOfNot64(mWords[n], m);
      }
    }

    /** Nothing between two positions matches. */
    ghost predicate NoneIn(on: bool, lo: nat, hi: nat)
      requires hi <= Size()
      reads mWords
    {
      forall k | lo <= k < hi :: IsOn(k) != on
    }

    lemma NoneInWord(on: bool, n: nat, lo: nat, hi: nat)
      requires n < mWords.Length && lo <= hi <= 64
      requires forall m | lo <= m < hi :: !Bit(Seen(on, n), m)
      ensures NoneIn(on, 64 * n + lo, 64 * n + hi)
    {
      forall k | 64 * n + lo <= k < 64 * n + hi ensures IsOn(k) != on {
        SeenBit(on, n, k - 64 * n);
      }
    }

    lemma ZeroWord(on: bool, n: nat)
      requires n < mWords.Length && Seen(on, n) == 0
      ensures NoneIn(on, 64 * n, 64 * n + 64)
    {
      forall m: nat | 0 <= m < 64 ensures !Bit(Seen(on, n), m) {
        ZeroHasNoBits(m);
      }
      NoneInWord(on, n, 0, 64);
    }

    /** findFirst. */
    method FindFirst(on: bool) returns (r: nat)
      ensures r <= Size() && (r < Size() ==> IsOn(r) == on) && NoneIn(on, 0, r)
    {
      var n := 0;
      while n < mWords.Length && Seen(on, n) == 0
        invariant n <= mWords.Length && NoneIn(on, 0, 64 * n)
      {
        ZeroWord(on, n);
        n := n + 1;
      }
      if n == mWords.Length {
        return Size();
      }
      r := FoundLowest(on, n, Seen(on, n), 0);
    }

    /** The lowest bit of a word that lost its bits below m. */
    method FoundLowest(on: bool, n: nat, b: Word, ghost m: nat) returns (r: nat)
      requires n < mWords.Length && b != 0 && m < 64
      requires forall i: nat | i < 64 :: Bit(b, i) == (i >= m && Bit(Seen(on, n), i))
      ensures 64 * n + m <= r < Size() && IsOn(r) == on && NoneIn(on, 64 * n + m, r)
    {
      var low := FindLowest(b);
      SeenBit(on, n, low);
      NoneInWord(on, n, m, low);
      r := 64 * n + low;
    }

    /** findNext: the first matching position from `start` on. */
    method FindNext(on: bool, start: nat) returns (r: nat)
      ensures start >= Size() ==> r == Size()
      ensures start < Size() ==> start <= r <= Size() && (r < Size() ==> IsOn(r) == on) && NoneIn(on, start, r)
    {
      var n: nat := start / 64;
      if n >= mWords.Length {
        return Size();
      }
      var m: nat := start % 64;
      var b := Seen(on, n);
      BitTest(b, m);
      SeenBit(on, n, m);
      if And64(b, Shl64(1, m)) != 0 {
        return start;
      }
      b := And64(b, Shl64(ALL, m));
      forall i: nat | i < 64 ensures Bit(b, i) == (i >= m && Bit(Seen(on, n), i)) {
        BitOfAnd(Seen(on, n), Shl64(ALL, m), i);
        BitOfShl64(ALL, m, i);
        if i >= m {
          BitOfAll(i - m);
        }
      }
      ghost var low: nat := m;
      while b == 0 && n + 1 < mWords.Length
        invariant n < mWords.Length && low < 64 && start <= 64 * n + low && NoneIn(on, start, 64 * n + low)
        invariant forall i: nat | i < 64 :: Bit(b, i) == (i >= low && Bit(Seen(on, n), i))
        decreases mWords.Length - n
      {
        RestIsEmpty(on, n, b, low);
        n := n + 1;
        b := Seen(on, n);
        low := 0;
      }
      if b == 0 {
        RestIsEmpty(on, n, b, low);
        return Size();
      }
      r := FoundLowest(on, n, b, low);
    }

    lemma RestIsEmpty(on: bool, n: nat, b: Word, m: nat)
      requires n < mWords.Length && b == 0 && m < 64
      requires forall i: nat | i < 64 :: Bit(b, i) == (i >= m && Bit(Seen(on, n), i))
      ensures NoneIn(on, 64 * n + m, 64 * n + 64)
    {
      forall i: nat | m <= i < 64 ensures !Bit(Seen(on, n), i) {
        ZeroHasNoBits(i);
        assert !Bit(b, i);
      }
      NoneInWord(on, n, m, 64);
    }

    /** findPrev: the last matching position up to `start`. */
    method FindPrev(on: bool, start: nat) returns (r: nat)
      ensures start >= Size() ==> r == Size()
      ensures start < Size() ==>
                if r == Size() then NoneIn(on, 0, start + 1)
                else r <= start && IsOn(r) == on && NoneIn(on, r + 1, start + 1)
    {
      var n: nat := start / 64;
      if n >= mWords.Length {
        return Size();
      }
      var m: nat := start % 64;
      var b := Seen(on, n);
      BitTest(b, m);
      SeenBit(on, n, m);
      if And64(b, Shl64(1, m)) != 0 {
        return start;
      }
      UnitIsPow2(m);
      b := And64(b, Shl64(1, m) - 1);
      forall i: nat | i < 64 ensures Bit(b, i) == (i < m && Bit(Seen(on, n), i)) {
        BitOfAnd(Seen(on, n), Pow2(m) - 1, i);
        BitOfPow2Minus1(m, i);
      }
      ghost var high: nat := m;
      while b == 0 && n > 0
        invariant n < mWords.Length && high <= 64 && 64 * n + high <= start + 1 && NoneIn(on, 64 * n + high, start + 1)
        invariant forall i: nat | i < 64 :: Bit(b, i) == (i < high && Bit(Seen(on, n), i))
        decreases n
      {
        StartIsEmpty(on, n, b, high);
        n := n - 1;
        b := Seen(on, n);
        high := 64;
      }
      if b == 0 {
        StartIsEmpty(on, n, b, high);
        return Size();
      }
      var top := FindHighest(b);
      SeenBit(on, n, top);
      NoneInWord(on, n, top + 1, high);
      r := 64 * n + top;
    }

    lemma StartIsEmpty(on: bool, n: nat, b: Word, m: nat)
      requires n < mWords.Length && b == 0 && m <= 64
      requires forall i: nat | i < 64 :: Bit(b, i) == (i < m && Bit(Seen(on, n), i))
      ensures NoneIn(on, 64 * n, 64 * n + m)
    {
      forall i: nat | 0 <= i < m ensures !Bit(Seen(on, n), i) {
        ZeroHasNoBits(i);
        assert !Bit(b, i);
      }
      NoneInWord(on, n, 0, m);
    }

    /** countOn(): the number of set bits. */
    method CountAll() returns (sum: nat)
      ensures sum == Rank(mWords[..], Size())
    {
      sum := 0;
      for n := 0 to mWords.Length
        invariant sum == Rank(mWords[..], 64 * n)
      {
        RankOfNext(mWords[..], n);
        sum := sum + CountOn(mWords[n]);
      }
    }

    /** countOn(i): the number of set bits below i. */
    method CountBelowBit(i: nat) returns (sum: nat)
      requires i < Size()
      ensures sum == Rank(mWords[..], i)
    {
      var n := i / 64;
      sum := CountLow(mWords[n], i % 64);
      ghost var part := sum;
      for k := 0 to n
        invariant sum == part + Rank(mWords[..], 64 * k)
      {
        RankOfNext(mWords[..], k);
        sum := sum + CountOn(mWords[k]);
      }
      RankSplit(mWords[..], i);
    }

    /** set(n, on): two operations on the word, no branch. */
    method SetBit(n: nat, on: bool)
      requires n < Size()
      modifies mWords
      ensures forall k | 0 <= k < Size() :: IsOn(k) == if k == n then on else old(IsOn(k))
    {
      var w, m := n / 64, n % 64;
      ghost var before := mWords[..];
      mWords[w] := And64(mWords[w], Not64(Shl64(1, m)));
      mWords[w] := Or64(mWords[w], Shl64(if on then 1 else 0, m));
      forall i: nat | i < 64 ensures Bit(mWords[w], i) == if i == m then on else Bit(before[w], i) {
        ghost var cleared := And64(before[w], Not64(Shl64(1, m)));
        BitOfAnd(before[w], Not64(Shl64(1, m)), i);
        BitOfNot64(Shl64(1, m), i);
        BitOfUnit(m, i);
        BitOfOr(cleared, Shl64(if on then 1 else 0, m), i);
        BitOfShl64(0, m, i);
        if i >= m {
          ZeroHasNoBits(i - m);
        }
      }
      forall k | 0 <= k < Size() ensures IsOn(k) == if k == n then on else old(IsOn(k)) {
        assert k / 64 == w && k % 64 == m ==> k == n;
      }
    }

    /** The positions that match, in increasing order, each once. */
    ghost predicate Lists(on: bool, visited: seq<nat>, hi: nat)
      requires hi <= Size()
      reads mWords
    {
      && (forall j, k | 0 <= j < k < |visited| :: visited[j] < visited[k])
      && (forall k | 0 <= k < hi :: k in visited <==> IsOn(k) == on)
      && (forall k | k in visited :: k < hi)
    }

    lemma ListsNext(on: bool, visited: seq<nat>, p: nat, q: nat)
      requires p < q <= Size() && Lists(on, visited, p) && IsOn(p) == on && NoneIn(on, p + 1, q)
      ensures Lists(on, visited + [p], q)
    {
      var visited' := visited + [p];
      assert forall j | 0 <= j < |visited| :: visited[j] in visited;
      forall k | 0 <= k < q ensures k in visited' <==> IsOn(k) == on {
        assert k in visited' <==> k in visited || k == p;
      }
      forall k | k in visited' ensures k < q {
        assert k in visited || k == p;
      }
    }

    /** A loop over an On or Off iterator: begin, then `++` until it tests false. */
    method VisitAll(on: bool) returns (visited: seq<nat>)
      ensures Lists(on, visited, Size())
      ensures on ==> |visited| == Rank(mWords[..], Size())
    {
      visited := [];
      var mPos := FindFirst(on);
      RankOfNone(on, 0, mPos);
      while mPos != Size()
        invariant mPos <= Size() && (mPos < Size() ==> IsOn(mPos) == on)
        invariant Lists(on, visited, mPos) && (on ==> |visited| == Rank(mWords[..], mPos))
        decreases Size() - mPos
      {
        ghost var p := mPos;
        ghost var before := visited;
        visited := visited + [mPos];
        mPos := FindNext(on, mPos + 1);
        ListsNext(on, before, p, mPos);
        RankOfNone(on, p + 1, mPos);
      }
    }

    lemma {:induction false} RankOfNone(on: bool, lo: nat, hi: nat)
      requires lo <= hi <= Size() && NoneIn(on, lo, hi)
      ensures on ==> Rank(mWords[..], hi) == Rank(mWords[..], lo)
      decreases hi
    {
      if lo < hi {
        RankOfNone(on, lo, hi - 1);
        assert IsOn(hi - 1) != on;
      }
    }
  }
}
