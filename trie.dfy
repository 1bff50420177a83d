/** The dictionary (src/dfh/anagrams/Trie.java): a trie of translated words,
    the character table that translates them, and the normalizer applied to
    every word and phrase. */
module Tries {
  import opened Optional
  import opened CharCounts
  import opened CharMaps
  import opened PartialEvaluations
  import opened TrieNodes

  /** The indices with a positive count in `b` that no evaluation in `qs`
      has decremented. */
  ghost function Uncovered(b: Bag, qs: seq<Partial>): set<int>
    requires forall k | 0 <= k < |qs| :: |b.counts| <= |qs[k].left.counts|
  {
    if qs == [] then Present(b)
    else Uncovered(b, qs[..|qs| - 1]) - Elements(DecrementedIndices(b, qs[|qs| - 1].left))
  }

  function Elements(s: seq<int>): set<int>
  {
    set k | 0 <= k < |s| :: s[k]
  }

  /** An index is uncovered exactly when it is present and no evaluation
      decremented it. */
  lemma {:induction false} UncoveredSpec(b: Bag, qs: seq<Partial>)
    requires forall k | 0 <= k < |qs| :: |b.counts| <= |qs[k].left.counts|
    ensures forall i :: i in Uncovered(b, qs) <==>
      i in Present(b) && forall k | 0 <= k < |qs| :: i !in DecrementedIndices(b, qs[k].left)
  {
    if qs != [] {
      var init := qs[..|qs| - 1];
      UncoveredSpec(b, init);
      forall i ensures i in Uncovered(b, qs) <==>
        i in Present(b) && forall k | 0 <= k < |qs| :: i !in DecrementedIndices(b, qs[k].left)
      {
        if i in Present(b) && forall k | 0 <= k < |init| :: i !in DecrementedIndices(b, init[k].left) {
          assert forall k | 0 <= k < |init| :: init[k] == qs[k];
        }
      }
    }
  }

  /** A longer list covers at least what its prefix covers. */
  lemma UncoveredShrinks(b: Bag, qs: seq<Partial>, m: nat)
    requires forall k | 0 <= k < |qs| :: |b.counts| <= |qs[k].left.counts|
    requires m <= |qs|
    ensures Uncovered(b, qs) <= Uncovered(b, qs[..m])
  {
    UncoveredSpec(b, qs);
    UncoveredSpec(b, qs[..m]);
  }

  /** Every evaluation frozen. */
  function FreezeEach(qs: seq<Partial>): seq<Partial>
    requires forall k | 0 <= k < |qs| :: qs[k].Valid()
  {
    seq(|qs|, k requires 0 <= k < |qs| && qs[k].Valid() => Trimmed(qs[k]))
  }

  /** The completeness filter: every candidate frozen when each character
      left in `b` is decremented by some candidate, otherwise nothing. */
  ghost function Kept(b: Bag, qs: seq<Partial>): seq<Partial>
    requires forall k | 0 <= k < |qs| :: |b.counts| <= |qs[k].left.counts| && qs[k].Valid()
  {
    if Uncovered(b, qs) == {} then FreezeEach(qs) else []
  }

  /** The filter is all-or-nothing, keeps each candidate's letters and
      leftover, and freezes what it keeps; what it keeps decrements every
      character present in `b`. */
  lemma KeptSpec(b: Bag, qs: seq<Partial>)
    requires forall k | 0 <= k < |qs| :: |b.counts| <= |qs[k].left.counts| && qs[k].Valid()
    ensures Kept(b, qs) == [] || |Kept(b, qs)| == |qs|
    ensures |Kept(b, qs)| == |qs| ==> forall k | 0 <= k < |qs| ::
      var r := Kept(b, qs)[k];
      r.Valid() && r.Letters() == qs[k].Letters() && r.left == qs[k].left && r.frozen && |r.word| == r.n
    ensures Kept(b, qs) != [] ==> forall i | i in Present(b) ::
      exists k | 0 <= k < |qs| :: i in DecrementedIndices(b, Kept(b, qs)[k].left)
    ensures Uncovered(b, qs) != {} ==> Kept(b, qs) == []
  {
    UncoveredSpec(b, qs);
    forall k | 0 <= k < |qs| {
      TrimmedSpec(qs[k]);
    }
  }

  /** The scan of `allSingleWordsFromCharacterCount`: remove from the count's
      character set what each candidate decremented, stopping as soon as the
      set is empty. */
  method CoversAll(cc: CharCount, found: seq<Partial>) returns (covered: bool)
    requires forall k | 0 <= k < |found| :: cc.counts.Length <= |found[k].left.counts|
    ensures covered <==> Uncovered(cc.Value(), found) == {}
  {
    var b := cc.Value();
    var cs := cc.CharSet();
    var k := 0;
    assert found[..0] == [];
    while k < |found|
      invariant k <= |found| && cs == Uncovered(b, found[..k])
    {
      var d := DecrementedIndices(b, found[k].left);
      cs := cs - Elements(d);
      assert found[..k + 1][..k] == found[..k];
      k := k + 1;
      if cs == {} {
        break;
      }
    }
    UncoveredShrinks(b, found, k);
    assert found[..|found|] == found;
    covered := cs == {};
  }

  /** The freezing loop. */
  method FreezeAll(found: seq<Partial>) returns (out: seq<Partial>)
    requires forall k | 0 <= k < |found| :: found[k].Valid()
    ensures out == FreezeEach(found)
  {
    out := [];
    for k := 0 to |found|
      invariant out == FreezeEach(found[..k])
    {
      assert FreezeEach(found[..k + 1]) == FreezeEach(found[..k]) + [Trimmed(found[k])];
      out := out + [Trimmed(found[k])];
    }
    assert found[..|found|] == found;
  }

  class Trie {
    var root: TrieNode
    const cm: CharMap
    const normalizer: string -> string
    /** The translations of the words added. */
    ghost var words: set<seq<int>>

    /** The trie spells exactly the words added, none of them empty; no jump
        list is cached yet and every child index is one the table can
        produce. */
    ghost predicate Valid()
      reads this
    {
      cm.Valid() && Shaped()
    }

    /** The part of the invariant about the nodes alone. */
    ghost predicate Shaped()
      reads this
    {
      && Uncached(root) && Coherent(root) && Wf(root) && Bounded(root, |cm.i2c|)
      && (forall w :: Spells(root, w) <==> w in words)
      && [] !in words
    }

    /** `new Trie(normalizer)`, with the character table as a parameter. */
    constructor (cm: CharMap, normalizer: string -> string)
      requires cm.Valid()
      ensures Valid() && words == {} && this.cm == cm && this.normalizer == normalizer
    {
      root := Blank;
      this.cm := cm;
      this.normalizer := normalizer;
      words := {};
      new;
      forall w ensures !Spells(root, w) {
        BlankSpellsNothing(w);
      }
    }

    /** `addWord(word)`: normalizes the word and, unless that leaves it empty,
        adds its translation below the root. */
    method AddWord(word: string)
      requires Valid()
      modifies this`root, this`words
      ensures Valid()
      ensures var w := normalizer(word);
        words == old(words) + (if |w| > 0 then {cm.Translation(w)} else {})
      ensures |normalizer(word)| == 0 ==> root == old(root)
    {
      var w := normalizer(word);
      if |w| > 0 {
        var t := cm.Translate(w);
        AddKeepsInvariants(root, t, 0, |cm.i2c|);
        forall v ensures Spells(Add(root, t, 0), v) <==> Spells(root, v) || v == t {
          AddSpells(root, t, 0, v);
          assert t[0..] == t;
        }
        root := Add(root, t, 0);
        words := words + {t};
        UncachedIsCoherent(root);
      }
    }

    /** `translate(word)`. */
    method Translate(word: seq<int>) returns (s: string)
      ensures s == cm.Spelling(word)
    {
      s := cm.TranslateBack(word);
    }

    /** `characterCount(phrase)`: the table's count of the normalized phrase. */
    method CharacterCount(phrase: string) returns (cc: CharCount?)
      requires Valid()
      ensures cc == null <==> !cm.Known(normalizer(phrase))
      ensures cc != null ==> fresh(cc) && fresh(cc.counts) && cc.Valid()
      ensures cc != null ==> cc.Value() == cm.CharacterCountOf(normalizer(phrase)).value
    {
      cm.CharacterCountSpec(normalizer(phrase));
      cc := cm.CharacterCount(normalizer(phrase));
    }

    /** `size()`: the number of nodes. */
    method Size() returns (s: nat)
      requires Valid()
      ensures s == TrieNodes.Size(root)
    {
      s := ComputeSize(root);
    }

    /** What the depth-first search from the root appends for the count `b`. */
    ghost function Candidates(b: Bag): (r: seq<Partial>)
      requires Shaped() && b.Valid() && |b.counts| >= |cm.i2c|
      reads this
      ensures forall k | 0 <= k < |r| :: r[k].Valid() && |r[k].left.counts| == |b.counts|
    {
      StartSpec(b);
      BoundedWider(root, |cm.i2c|, |b.counts|);
      EnumerateKeepsWidth(root, Start(b));
      Enumerate(root, Start(b))
    }

    /** Every candidate spells an added word, and its letters and leftover
        make up `b`. */
    lemma CandidatesSound(b: Bag, q: Partial)
      requires Shaped() && b.Valid() && |b.counts| >= |cm.i2c|
      requires q in Candidates(b)
      ensures q.Valid() && !q.frozen && Origin(q) == b && |q.left.counts| == |b.counts|
      ensures q.Letters() in words
    {
      StartSpec(b);
      BoundedWider(root, |cm.i2c|, |b.counts|);
      EnumerateSound(root, Start(b), q);
      assert q.Letters()[0..] == q.Letters();
    }

    /** Every added word whose letters fit in `b` is a candidate, exactly once. */
    lemma CandidatesComplete(b: Bag, w: seq<int>)
      requires Shaped() && b.Valid() && |b.counts| >= |cm.i2c|
      requires w in words && Fits(w, b)
      ensures exists q | q in Candidates(b) :: q.Letters() == w
      ensures DistinctLetters(Candidates(b))
    {
      StartSpec(b);
      BoundedWider(root, |cm.i2c|, |b.counts|);
      EnumerateComplete(root, Start(b), w);
      EnumerateDistinct(root, Start(b));
    }

    /** `allSingleWordsFromCharacterCount(cc, list)`, for the empty list its
        caller passes: the candidates, all frozen, if together they decrement
        every character of `cc`; otherwise none. `cc` is not modified. */
    method AllSingleWordsFromCharacterCount(cc: CharCount) returns (list: seq<Partial>)
      requires Shaped() && cc.Valid() && cc.counts.Length >= |cm.i2c|
      ensures list == Kept(cc.Value(), Candidates(cc.Value()))
    {
      var b := cc.Value();
      StartSpec(b);
      BoundedWider(root, |cm.i2c|, |b.counts|);
      var found := AllSingleWords(root, Start(b), []);
      assert found == Candidates(b);
      var covered := CoversAll(cc, found);
      if covered {
        list := FreezeAll(found);
      } else {
        list := [];
      }
    }
  }
}
