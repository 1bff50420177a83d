/** The letter multiset: a count per mapped character index plus a tracked total
    (src/dfh/anagrams/CharCount.java). */
module CharCounts {
  import opened Optional

  /** Sum of a sequence of counts. */
  function Sum(s: seq<int>): int
  {
    if s == [] then 0 else s[0] + Sum(s[1..])
  }

  /** Replacing one entry changes the sum by the difference. */
  lemma {:induction false} SumUpdate(s: seq<int>, i: nat, v: int)
    requires i < |s|
    ensures Sum(s[i := v]) == Sum(s) - s[i] + v
  {
    if i > 0 {
      assert s[i := v][1..] == s[1..][i - 1 := v];
      SumUpdate(s[1..], i - 1, v);
    } else {
      assert s[i := v][1..] == s[1..];
    }
  }

  /** A sum of non-negative counts is zero exactly when every count is zero. */
  lemma {:induction false} SumZeroIffAllZero(s: seq<int>)
    requires forall i | 0 <= i < |s| :: s[i] >= 0
    ensures Sum(s) >= 0
    ensures Sum(s) == 0 <==> forall i | 0 <= i < |s| :: s[i] == 0
  {
    if s != [] {
      SumZeroIffAllZero(s[1..]);
      assert forall i | 1 <= i < |s| :: s[i] == s[1..][i - 1];
    }
  }

  /** The value of a CharCount: its counts and its total. Two CharCounts are
      equal under `equals` exactly when their values are equal. */
  datatype Bag = Bag(counts: seq<int>, total: int) {

    /** Counts are never negative and the total is their sum. */
    ghost predicate Valid()
    {
      (forall i | 0 <= i < |counts| :: counts[i] >= 0) && total == Sum(counts)
    }

    /** `done()`: nothing is left. */
    predicate Done()
    {
      total == 0
    }

    /** `hasAny(i)`. */
    predicate HasAny(i: nat)
      requires i < |counts|
    {
      counts[i] > 0
    }
  }

  /** The empty multiset over `size` character indices. */
  function Empty(size: nat): Bag
  {
    Bag(seq(size, _ => 0), 0)
  }

  lemma EmptyValid(size: nat)
    ensures Empty(size).Valid() && Empty(size).Done()
  {
    SumZeroIffAllZero(Empty(size).counts);
  }

  /** A valid multiset is done exactly when every count is zero. */
  lemma DoneIffNoneLeft(b: Bag)
    requires b.Valid()
    ensures b.Done() <==> forall i | 0 <= i < |b.counts| :: b.counts[i] == 0
  {
    SumZeroIffAllZero(b.counts);
  }

  /** One more of character `i` (the successful branch of `inc`). */
  function Increase(b: Bag, i: nat): Bag
    requires i < |b.counts|
  {
    Bag(b.counts[i := b.counts[i] + 1], b.total + 1)
  }

  /** One fewer of character `i` (the successful branch of `dec`). */
  function Decrease(b: Bag, i: nat): Bag
    requires i < |b.counts|
  {
    Bag(b.counts[i := b.counts[i] - 1], b.total - 1)
  }

  /** `inc` keeps the multiset valid and raises exactly the one count. */
  lemma IncreaseValid(b: Bag, i: nat)
    requires b.Valid() && i < |b.counts|
    ensures Increase(b, i).Valid()
    ensures Increase(b, i).total == b.total + 1
  {
    SumUpdate(b.counts, i, b.counts[i] + 1);
  }

  /** `dec` of a present character keeps the multiset valid. */
  lemma DecreaseValid(b: Bag, i: nat)
    requires b.Valid() && i < |b.counts| && b.counts[i] > 0
    ensures Decrease(b, i).Valid()
    ensures Decrease(b, i).total == b.total - 1 >= 0
  {
    SumUpdate(b.counts, i, b.counts[i] - 1);
    SumZeroIffAllZero(Decrease(b, i).counts);
  }

  /** `inc(i)` followed by `dec(i)` restores the original counts and total. */
  lemma DecreaseUndoesIncrease(b: Bag, i: nat)
    requires i < |b.counts|
    ensures Decrease(Increase(b, i), i) == b
  {
    assert Decrease(Increase(b, i), i).counts == b.counts;
  }

  /** Number of occurrences of `k` in `w`. */
  function Occurrences(w: seq<int>, k: int): nat
  {
    if w == [] then 0 else (if w[0] == k then 1 else 0) + Occurrences(w[1..], k)
  }

  /** Appending a letter adds one occurrence of it. */
  lemma {:induction false} OccurrencesAppend(w: seq<int>, x: int, k: int)
    ensures Occurrences(w + [x], k) == Occurrences(w, k) + (if x == k then 1 else 0)
  {
    if w != [] {
      assert (w + [x])[1..] == w[1..] + [x];
      OccurrencesAppend(w[1..], x, k);
    }
  }

  /** Incrementing every character of a word, one after the other. */
  function IncreaseAll(b: Bag, w: seq<int>): (r: Bag)
    requires forall j | 0 <= j < |w| :: 0 <= w[j] < |b.counts|
    ensures |r.counts| == |b.counts|
    decreases |w|
  {
    if w == [] then b else IncreaseAll(Increase(b, w[0]), w[1..])
  }

  /** Decrementing every character of a word, one after the other; None as soon
      as a `dec` would fail. */
  function DecreaseAll(b: Bag, w: seq<int>): (r: Option<Bag>)
    requires forall j | 0 <= j < |w| :: 0 <= w[j] < |b.counts|
    decreases |w|
  {
    if w == [] then Some(b)
    else if b.counts[w[0]] == 0 then None
    else DecreaseAll(Decrease(b, w[0]), w[1..])
  }

  /** Every character of `w` is a valid index of `b`. */
  predicate InRange(w: seq<int>, b: Bag)
  {
    forall j | 0 <= j < |w| :: 0 <= w[j] < |b.counts|
  }

  /** The letters of `w` are all available in `b`. */
  ghost predicate Fits(w: seq<int>, b: Bag)
  {
    forall k | 0 <= k < |b.counts| :: Occurrences(w, k) <= b.counts[k]
  }

  /** `b` with the letters of `w` added. */
  function Plus(b: Bag, w: seq<int>): Bag
  {
    Bag(seq(|b.counts|, k requires 0 <= k < |b.counts| => b.counts[k] + Occurrences(w, k)), b.total + |w|)
  }

  /** `b` with the letters of `w` taken away. */
  function Minus(b: Bag, w: seq<int>): Bag
  {
    Bag(seq(|b.counts|, k requires 0 <= k < |b.counts| => b.counts[k] - Occurrences(w, k)), b.total - |w|)
  }

  /** Incrementing letter by letter adds the word's letter counts. */
  lemma {:induction false} IncreaseAllIsPlus(b: Bag, w: seq<int>)
    requires b.Valid() && InRange(w, b)
    ensures IncreaseAll(b, w) == Plus(b, w)
    ensures Plus(b, w).Valid()
    decreases |w|
  {
    if w != [] {
      var b' := Increase(b, w[0]);
      IncreaseValid(b, w[0]);
      IncreaseAllIsPlus(b', w[1..]);
      assert Plus(b', w[1..]).counts == Plus(b, w).counts;
    } else {
      assert Plus(b, w).counts == b.counts;
    }
  }

  /** Decrementing letter by letter succeeds exactly when the word fits, and
      then removes the word's letter counts. */
  lemma {:induction false} DecreaseAllIsMinus(b: Bag, w: seq<int>)
    requires b.Valid() && InRange(w, b)
    ensures DecreaseAll(b, w) == if Fits(w, b) then Some(Minus(b, w)) else None
    decreases |w|
  {
    if w == [] {
      assert Minus(b, w).counts == b.counts;
    } else if b.counts[w[0]] == 0 {
      assert Occurrences(w, w[0]) > b.counts[w[0]];
    } else {
      var b' := Decrease(b, w[0]);
      DecreaseValid(b, w[0]);
      DecreaseAllIsMinus(b', w[1..]);
      assert Fits(w[1..], b') <==> Fits(w, b) by {
        assert forall k | 0 <= k < |b.counts| ::
          Occurrences(w[1..], k) <= b'.counts[k] <==> Occurrences(w, k) <= b.counts[k];
      }
      assert Minus(b', w[1..]).counts == Minus(b, w).counts;
    }
  }

  /** The round trip: incrementing every letter of a word and then
      decrementing every letter again gives back the original multiset. */
  lemma IncreaseThenDecreaseAll(b: Bag, w: seq<int>)
    requires b.Valid() && InRange(w, b)
    ensures DecreaseAll(IncreaseAll(b, w), w) == Some(b)
  {
    IncreaseAllIsPlus(b, w);
    var p := Plus(b, w);
    DecreaseAllIsMinus(p, w);
    assert Fits(w, p);
    assert Minus(p, w).counts == b.counts;
  }

  /** The indices below `n` whose count is positive and larger than the other
      count: `decremented` restricted to a prefix. */
  function DecrementedTo(c: seq<int>, d: seq<int>, n: nat): (r: seq<int>)
    requires n <= |c| <= |d|
    ensures forall k :: k in r <==> 0 <= k < n && c[k] > 0 && d[k] < c[k]
    ensures forall x, y | 0 <= x < y < |r| :: r[x] < r[y]
  {
    if n == 0 then []
    else
      var r := DecrementedTo(c, d, n - 1);
      assert forall x | 0 <= x < |r| :: r[x] < n - 1 by {
        assert forall x | 0 <= x < |r| :: r[x] in r;
      }
      r + (if c[n - 1] > 0 && d[n - 1] < c[n - 1] then [n - 1] else [])
  }

  /** `decremented(other)`: in ascending order, the characters this multiset has
      and the other has fewer of. */
  function DecrementedIndices(b: Bag, other: Bag): (r: seq<int>)
    requires |b.counts| <= |other.counts|
  {
    DecrementedTo(b.counts, other.counts, |b.counts|)
  }

  /** `charSet()`: the characters with a positive count. */
  function Present(b: Bag): set<int>
  {
    set i | 0 <= i < |b.counts| && b.counts[i] > 0
  }

  /** The letters a word takes out of a multiset are exactly the ones the
      multiset reports as decremented relative to what is left. */
  lemma DecrementedAfterMinus(b: Bag, w: seq<int>)
    requires InRange(w, b) && Fits(w, b)
    ensures forall k :: k in DecrementedIndices(b, Minus(b, w)) <==> 0 <= k < |b.counts| && Occurrences(w, k) > 0
  {
  }

  /** The mutable letter multiset of the source. */
  class CharCount {
    var counts: array<int>
    var total: int
    var frozen: bool
    var hc: int

    /** The abstract value: what `equals` compares. */
    function Value(): Bag
      reads this, counts
    {
      Bag(counts[..], total)
    }

    ghost predicate Valid()
      reads this, counts
    {
      Value().Valid()
    }

    /** `new CharCount(size)`: all counts zero. */
    constructor (size: nat)
      ensures Valid() && fresh(counts)
      ensures Value() == Empty(size) && !frozen
    {
      counts := new int[size](_ => 0);
      total := 0;
      frozen := false;
      hc := 0;
      new;
      assert counts[..] == Empty(size).counts;
      EmptyValid(size);
    }

    /** The private two-argument constructor: adopts the given array. */
    constructor Adopt(counts: array<int>, total: int)
      ensures this.counts == counts && this.total == total && !frozen
    {
      this.counts := counts;
      this.total := total;
      frozen := false;
      hc := 0;
    }

    /** `dup()`: an equal copy that shares no array with the receiver. */
    method Dup() returns (c: CharCount)
      ensures fresh(c) && fresh(c.counts)
      ensures c.Value() == Value() && !c.frozen
    {
      var a := new int[counts.Length](i reads this, counts requires 0 <= i < counts.Length => counts[i]);
      c := new CharCount.Adopt(a, total);
    }

    /** `done()`. */
    predicate Done()
      reads this
    {
      total == 0
    }

    /** `inc(i)`: fails, changing nothing, when `i` is past the table. */
    method Inc(i: nat) returns (ok: bool)
      requires Valid()
      modifies this`total, counts
      ensures Valid()
      ensures ok <==> i < counts.Length
      ensures Value() == if ok then Increase(old(Value()), i) else old(Value())
    {
      if i >= counts.Length {
        return false;
      }
      IncreaseValid(Value(), i);
      counts[i] := counts[i] + 1;
      total := total + 1;
      ok := true;
    }

    /** `dec(i)`: fails, changing nothing, when there is no `i` left. */
    method Dec(i: nat) returns (ok: bool)
      requires Valid() && i < counts.Length
      modifies this`total, counts
      ensures Valid()
      ensures ok <==> old(counts[i]) > 0
      ensures Value() == if ok then Decrease(old(Value()), i) else old(Value())
    {
      if counts[i] == 0 {
        return false;
      }
      DecreaseValid(Value(), i);
      counts[i] := counts[i] - 1;
      total := total - 1;
      ok := true;
    }

    /** `hasAny(i)`. */
    predicate HasAny(i: nat)
      requires i < counts.Length
      reads this, counts
    {
      counts[i] > 0
    }

    /** `equals(o)`: same total and the same count at every index of the
        receiver. */
    method Equals(o: CharCount?) returns (eq: bool)
      requires o != null && total == o.total ==> counts.Length <= o.counts.Length
      ensures eq <==> o != null && total == o.total && counts[..] == o.counts[..counts.Length]
    {
      if o == null {
        return false;
      }
      if total != o.total {
        return false;
      }
      var i := 0;
      while i < counts.Length
        invariant 0 <= i <= counts.Length
        invariant counts[..i] == o.counts[..i]
      {
        if counts[i] != o.counts[i] {
          assert counts[..][i] != o.counts[..counts.Length][i];
          return false;
        }
        i := i + 1;
      }
      assert counts[..] == counts[..i];
      eq := true;
    }

    /** `hashCode()`: computed from the counts on the first call, then cached.
        The hash function itself is a parameter. */
    method HashCode(hash: seq<int> -> int) returns (h: int)
      modifies this`frozen, this`hc
      ensures frozen && h == hc
      ensures h == if old(frozen) then old(hc) else hash(counts[..])
    {
      if !frozen {
        hc := hash(counts[..]);
        frozen := true;
      }
      h := hc;
    }

    /** `charSet()`. */
    method CharSet() returns (s: set<int>)
      ensures s == Present(Value())
    {
      s := {};
      var i := 0;
      while i < counts.Length
        invariant 0 <= i <= counts.Length
        invariant s == set k | 0 <= k < i && counts[k] > 0
      {
        if counts[i] > 0 {
          s := s + {i};
        }
        i := i + 1;
      }
    }

    /** `decremented(other)`. */
    method Decremented(other: CharCount) returns (l: seq<int>)
      requires counts.Length <= other.counts.Length
      ensures l == DecrementedIndices(Value(), other.Value())
    {
      l := [];
      var i := 0;
      while i < counts.Length
        invariant 0 <= i <= counts.Length
        invariant l == DecrementedTo(counts[..], other.counts[..], i)
      {
        var c := counts[i];
        if c > 0 && other.counts[i] < c {
          l := l + [i];
        }
        i := i + 1;
      }
    }
  }
}
