/** The pruning step of `walk` (src/dfh/anagrams/TrieWalker.java, the body
    of each job): count in how many candidates' character sets each index occurs,
    choose the index `best` occurring in the fewest (but at least one), and
    keep only the candidates that contain it. */
module Pruning {
  import opened PartialEvaluations

  /** How many candidates' character sets contain `i`. */
  function Holding(list: seq<Partial>, i: int): nat
  {
    if list == [] then 0
    else Holding(list[..|list| - 1], i) + (if i in CharSetOf(list[|list| - 1]) then 1 else 0)
  }

  /** An index occurs in some candidate exactly when its tally is positive. */
  lemma {:induction false} HoldingSpec(list: seq<Partial>, i: int)
    ensures Holding(list, i) > 0 <==> exists k | 0 <= k < |list| :: i in CharSetOf(list[k])
    ensures Holding(list, i) <= |list|
  {
    if list != [] {
      var init := list[..|list| - 1];
      HoldingSpec(init, i);
      if exists k | 0 <= k < |init| :: i in CharSetOf(init[k]) {
        var k :| 0 <= k < |init| && i in CharSetOf(init[k]);
        assert list[k] == init[k];
      }
      if exists k | 0 <= k < |list| :: i in CharSetOf(list[k]) {
        var k :| 0 <= k < |list| && i in CharSetOf(list[k]);
        if k < |init| {
          assert init[k] == list[k];
        }
      }
    }
  }

  /** The tallies of the indices below `width`. */
  function Tally(list: seq<Partial>, width: nat): (c: seq<int>)
    ensures |c| == width
  {
    seq(width, i requires 0 <= i < width => Holding(list, i))
  }

  /** Every character of every candidate is below `width`. */
  predicate WithinWidth(list: seq<Partial>, width: nat)
  {
    forall k, i | 0 <= k < |list| && i in CharSetOf(list[k]) :: 0 <= i < width
  }

  /** The counting loops: one pass over the candidates, and for each one a
      pass over its character set. */
  method CountCharSets(list: seq<Partial>, width: nat) returns (charCount: array<int>)
    requires WithinWidth(list, width)
    ensures fresh(charCount) && charCount[..] == Tally(list, width)
  {
    charCount := new int[width](_ => 0);
    for k := 0 to |list|
      invariant forall i | 0 <= i < width :: charCount[i] == Holding(list[..k], i)
    {
      var s := CharSetOf(list[k]);
      var rest := s;
      while rest != {}
        invariant rest <= s
        invariant forall i | 0 <= i < width :: charCount[i] == Holding(list[..k], i) + (if i in s - rest then 1 else 0)
        decreases |rest|
      {
        var i := Pick(rest);
        charCount[i] := charCount[i] + 1;
        rest := rest - {i};
      }
      assert list[..k + 1][..k] == list[..k];
    }
    assert list[..|list|] == list;
  }

  /** Some element of a non-empty set: the iteration order of a hash set is
      not modelled. */
  method Pick<T>(s: set<T>) returns (x: T)
    requires s != {}
    ensures x in s
  {
    NonEmptyHasMember(s);
    x :| x in s;
  }

  /** The ghost counterpart of `Pick`: ghost code such as `PruneKeepsSome`
      cannot call a method, so it picks an element of a non-empty set here. */
  lemma Member<T>(s: set<T>) returns (x: T)
    requires s != {}
    ensures x in s
  {
    NonEmptyHasMember(s);
    x :| x in s;
  }

  lemma NonEmptyHasMember<T>(s: set<T>)
    requires s != {}
    ensures exists y :: y in s
  {
    if forall y :: y !in s {
      EmptyIfNone(s);
      assert false;
    }
  }

  lemma EmptyIfNone<T>(s: set<T>)
    requires forall y :: y !in s
    ensures s == {}
  {
    assert forall y :: y in s <==> y in {};
  }

  predicate AllZero(c: seq<int>)
  {
    forall i | 0 <= i < |c| :: c[i] == 0
  }

  /** `best` is the lowest index whose tally is the least positive one; 0
      when no tally is positive. */
  predicate IsBest(c: seq<int>, best: int)
  {
    if AllZero(c) then best == 0
    else
      && 0 <= best < |c| && c[best] > 0
      && (forall i | 0 <= i < |c| && c[i] > 0 :: c[best] <= c[i])
      && (forall i | 0 <= i < best && c[i] > 0 :: c[best] < c[i])
  }

  /** The choice loop of the pruning step. */
  method Best(charCount: array<int>) returns (best: int)
    requires forall i | 0 <= i < charCount.Length :: charCount[i] >= 0
    ensures IsBest(charCount[..], best)
  {
    best := 0;
    var bestCount := 0;
    for i := 0 to charCount.Length
      invariant IsBest(charCount[..i], best)
      invariant bestCount == if AllZero(charCount[..i]) then 0 else charCount[best]
    {
      var bc := charCount[i];
      assert charCount[..i + 1] == charCount[..i] + [bc];
      if bc == 0 {
        continue;
      }
      if bestCount == 0 || bc < bestCount {
        best := i;
        bestCount := bc;
      }
    }
    assert charCount[..charCount.Length] == charCount[..];
  }

  /** There is exactly one best index. */
  lemma BestUnique(c: seq<int>, x: int, y: int)
    requires IsBest(c, x) && IsBest(c, y)
    ensures x == y
  {
    if !AllZero(c) {
      assert c[x] <= c[y] && c[y] <= c[x];
    }
  }

  /** Every tally sequence of non-negative numbers has a best index. */
  lemma {:induction false} BestExists(c: seq<int>)
    requires forall i | 0 <= i < |c| :: c[i] >= 0
    ensures exists b :: IsBest(c, b)
  {
    if c == [] {
      assert IsBest(c, 0);
    } else {
      var init := c[..|c| - 1];
      var x := c[|c| - 1];
      BestExists(init);
      var b :| IsBest(init, b);
      if x == 0 {
        assert IsBest(c, b);
      } else if AllZero(init) || x < init[b] {
        assert IsBest(c, |c| - 1);
      } else {
        assert IsBest(c, b);
      }
    }
  }

  /** The index the pruning step chooses for these tallies. */
  ghost function BestIn(c: seq<int>): (b: int)
    requires forall i | 0 <= i < |c| :: c[i] >= 0
    ensures IsBest(c, b)
  {
    BestExists(c);
    var b :| IsBest(c, b);
    b
  }

  /** The candidates whose character set contains `best`, in their order. */
  function Survivors(list: seq<Partial>, best: int): seq<Partial>
  {
    if list == [] then []
    else Survivors(list[..|list| - 1], best) + (if best in CharSetOf(list[|list| - 1]) then [list[|list| - 1]] else [])
  }

  /** The removal loop: drops every candidate whose character set lacks
      `best`. */
  method Prune(list: seq<Partial>, best: int) returns (out: seq<Partial>)
    ensures out == Survivors(list, best)
  {
    out := [];
    for k := 0 to |list|
      invariant out == Survivors(list[..k], best)
    {
      assert list[..k + 1][..k] == list[..k];
      if best in CharSetOf(list[k]) {
        out := out + [list[k]];
      }
    }
    assert list[..|list|] == list;
  }

  /** Exactly the candidates containing `best` survive, in their original
      order, and none is added. */
  lemma {:induction false} SurvivorsSpec(list: seq<Partial>, best: int)
    ensures forall p :: p in Survivors(list, best) <==> p in list && best in CharSetOf(p)
    ensures |Survivors(list, best)| <= |list|
  {
    if list != [] {
      var init := list[..|list| - 1];
      SurvivorsSpec(init, best);
      assert list == init + [list[|list| - 1]];
    }
  }

  /** If some candidate has a non-empty character set, the chosen index
      occurs somewhere, so at least one candidate survives. */
  lemma PruneKeepsSome(list: seq<Partial>, width: nat, k: int)
    requires WithinWidth(list, width)
    requires 0 <= k < |list| && CharSetOf(list[k]) != {}
    ensures Survivors(list, BestIn(Tally(list, width))) != []
  {
    var c := Tally(list, width);
    var i := Member(CharSetOf(list[k]));
    HoldingSpec(list, i);
    assert !AllZero(c) by {
      assert c[i] == Holding(list, i);
    }
    var best := BestIn(c);
    assert Holding(list, best) > 0 by {
      assert c[best] == Holding(list, best);
    }
    Contained(list, best);
  }

  /** An index occurring somewhere keeps some candidate. */
  lemma Contained(list: seq<Partial>, best: int)
    requires Holding(list, best) > 0
    ensures Survivors(list, best) != []
  {
    HoldingSpec(list, best);
    var j :| 0 <= j < |list| && best in CharSetOf(list[j]);
    SurvivorsSpec(list, best);
    assert list[j] in Survivors(list, best);
  }
}
