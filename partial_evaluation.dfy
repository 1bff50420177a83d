/** A word being built plus the letters still left over
    (src/dfh/anagrams/PartialEvaluation.java). */
module PartialEvaluations {
  import opened Optional
  import opened CharCounts
  import opened CharMaps

  /** The value of a partial evaluation: the word buffer, how much of it is
      filled, the leftover count and whether the buffer has been trimmed. */
  datatype Partial = Partial(word: seq<int>, n: nat, left: Bag, frozen: bool) {

    /** Before freezing, the buffer has room for exactly the letters left over;
        after freezing, it holds exactly the letters taken. */
    ghost predicate Valid()
    {
      left.Valid() && n <= |word| && (if frozen then |word| == n else n + left.total == |word|)
    }

    /** The letters taken so far. */
    function Letters(): seq<int>
    {
      if n <= |word| then word[..n] else word
    }

    /** `done()`: nothing is left over. */
    predicate Done()
    {
      left.total == 0
    }
  }

  /** The count a partial evaluation was started from: what is left plus what
      has been taken. */
  function Origin(p: Partial): Bag
    requires p.n <= |p.word|
  {
    Plus(p.left, p.Letters())
  }

  /** `new PartialEvaluation(cc)`: an empty word with a buffer as long as the
      count's total. */
  function Start(cc: Bag): Partial
    requires cc.total >= 0
  {
    Partial(seq(cc.total, _ => 0), 0, cc, false)
  }

  /** A fresh evaluation is valid, has taken nothing, and starts from `cc`. */
  lemma StartSpec(cc: Bag)
    requires cc.Valid()
    ensures cc.total >= 0
    ensures Start(cc).Valid() && !Start(cc).frozen && Start(cc).Letters() == []
    ensures Origin(Start(cc)) == cc
  {
    SumZeroIffAllZero(cc.counts);
    assert Plus(cc, []).counts == cc.counts;
  }

  /** `add(i)`: take one `i` from the leftover and append it to the word; None
      (the source's null) when there is no `i` left. */
  function Extend(p: Partial, i: nat): (r: Option<Partial>)
    requires p.Valid() && !p.frozen && i < |p.left.counts|
    ensures r.Some? <==> p.left.counts[i] > 0
    ensures r.Some? ==> r.value.Valid() && !r.value.frozen && r.value.n == p.n + 1
    ensures r.Some? ==> r.value.Letters() == p.Letters() + [i] && r.value.left == Decrease(p.left, i)
  {
    if p.left.HasAny(i) then
      DecreaseValid(p.left, i);
      var q := Partial(p.word[p.n := i], p.n + 1, Decrease(p.left, i), false);
      assert q.Letters() == p.Letters() + [i];
      Some(q)
    else
      None
  }

  /** Extending conserves the letters: the word grows by what the leftover
      loses, so `n + cc.total` never changes. */
  lemma ExtendKeepsOrigin(p: Partial, i: nat)
    requires p.Valid() && !p.frozen && i < |p.left.counts|
    requires Extend(p, i).Some?
    ensures Origin(Extend(p, i).value) == Origin(p)
    ensures Extend(p, i).value.n + Extend(p, i).value.left.total == p.n + p.left.total
  {
    var q := Extend(p, i).value;
    forall k | 0 <= k < |p.left.counts|
      ensures Origin(q).counts[k] == Origin(p).counts[k]
    {
      OccurrencesAppend(p.Letters(), i, k);
    }
  }

  /** `freeze()`: trims the buffer to the letters taken; a second call does
      nothing. */
  function Trimmed(p: Partial): (r: Partial)
    requires p.n <= |p.word|
    ensures r.frozen && |r.word| == r.n
  {
    if p.frozen && |p.word| == p.n then p else Partial(p.word[..p.n], p.n, p.left, true)
  }

  /** Freezing keeps the letters and the leftover, and is idempotent. */
  lemma TrimmedSpec(p: Partial)
    requires p.Valid()
    ensures Trimmed(p).Valid() && Trimmed(p).Letters() == p.Letters() && Trimmed(p).left == p.left
    ensures p.frozen ==> Trimmed(p) == p
    ensures Trimmed(Trimmed(p)) == Trimmed(p)
  {
  }

  /** `charSet()`: the values in the word buffer. */
  function CharSetOf(p: Partial): set<int>
  {
    set k | 0 <= k < |p.word| :: p.word[k]
  }

  /** After freezing, the character set is exactly the set of letters taken
      (before, the unfilled buffer contributes zeros). */
  lemma FrozenCharSet(p: Partial)
    requires p.Valid()
    ensures forall x :: x in CharSetOf(Trimmed(p)) <==> x in p.Letters()
  {
    var f := Trimmed(p);
    forall x | x in p.Letters() ensures x in CharSetOf(f) {
      var k :| 0 <= k < p.n && p.word[k] == x;
      assert f.word[k] == x;
    }
  }

  class PartialEvaluation {
    var word: array<int>
    var w: Option<string>
    var n: nat
    var frozen: bool
    var cc: CharCount
    var charSet: Option<set<int>>

    /** The abstract value. */
    function Value(): Partial
      reads this, word, cc, cc.counts
    {
      Partial(word[..], n, cc.Value(), frozen)
    }

    /** The value is valid, the buffer is not the count's array, and a cached
        character set is the current one. */
    ghost predicate Valid()
      reads this, word, cc, cc.counts
    {
      word != cc.counts && Value().Valid() && (charSet.Some? ==> charSet.value == CharSetOf(Value()))
    }

    /** `new PartialEvaluation(cc)`: keeps its own copy of the count. */
    constructor (c: CharCount)
      requires c.Valid()
      ensures c.total >= 0 && Valid() && Value() == Start(c.Value())
      ensures fresh(word) && fresh(cc) && fresh(cc.counts)
      ensures charSet == None && w == None
    {
      StartSpec(c.Value());
      word := new int[c.total](_ => 0);
      var d := c.Dup();
      cc := d;
      n := 0;
      frozen := false;
      charSet := None;
      w := None;
      new;
      assert word[..] == Start(c.Value()).word;
    }

    /** The private constructor: copies the buffer and the count. */
    constructor Copy(word: array<int>, n: nat, c: CharCount)
      ensures this.word[..] == word[..] && this.n == n && cc.Value() == c.Value()
      ensures fresh(this.word) && fresh(cc) && fresh(cc.counts) && this.word != cc.counts
      ensures !frozen && charSet == None && w == None
    {
      this.word := new int[word.Length](i reads word requires 0 <= i < word.Length => word[i]);
      this.n := n;
      var d := c.Dup();
      cc := d;
      frozen := false;
      charSet := None;
      w := None;
    }

    /** `dup()`: an unfrozen copy sharing no array with the receiver. */
    method Dup() returns (d: PartialEvaluation)
      ensures fresh(d) && fresh(d.word) && fresh(d.cc) && fresh(d.cc.counts) && d.word != d.cc.counts
      ensures d.Value() == Partial(word[..], n, cc.Value(), false)
      ensures d.charSet == None && d.w == None
    {
      d := new PartialEvaluation.Copy(word, n, cc);
    }

    /** `done()`. */
    predicate Done()
      reads this, cc
    {
      cc.Done()
    }

    /** `add(i)`: null when no `i` is left; otherwise a fresh evaluation one
        letter longer. The receiver is not modified. */
    method Add(i: nat) returns (pe: PartialEvaluation?)
      requires Valid() && !frozen && i < cc.counts.Length
      ensures pe == null <==> Extend(Value(), i).None?
      ensures pe != null ==> fresh(pe) && fresh(pe.word) && fresh(pe.cc) && fresh(pe.cc.counts)
      ensures pe != null ==> pe.Valid() && pe.Value() == Extend(Value(), i).value
    {
      if cc.HasAny(i) {
        DecreaseValid(cc.Value(), i);
        pe := Dup();
        var ok := pe.cc.Dec(i);
        assert ok;
        pe.word[pe.n] := i;
        pe.n := pe.n + 1;
        assert pe.word[..] == word[..][n := i];
        assert pe.cc.Value() == Decrease(cc.Value(), i);
        assert pe.Value() == Extend(Value(), i).value;
      } else {
        pe := null;
      }
    }

    /** `freeze()`: trims the buffer and drops the cached character set, the
        first time only. */
    method Freeze()
      requires Valid()
      modifies this
      ensures Valid() && Value() == Trimmed(old(Value()))
      ensures cc == old(cc) && w == old(w)
      ensures charSet == if old(frozen) then old(charSet) else None
      ensures word == old(word) || fresh(word)
    {
      TrimmedSpec(Value());
      if !frozen {
        frozen := true;
        charSet := None;
        var a, m := word, n;
        word := new int[m](i requires 0 <= i < m <= a.Length reads a => a[i]);
        assert word[..] == a[..m];
      }
    }

    /** `charSet()`: computed from the buffer on the first call, then cached. */
    method CharSet() returns (s: set<int>)
      requires Valid()
      modifies this`charSet
      ensures Valid() && charSet == Some(s)
      ensures s == CharSetOf(Value())
    {
      if charSet.None? {
        var acc := {};
        for k := 0 to word.Length
          invariant acc == set j | 0 <= j < k :: word[j]
        {
          acc := acc + {word[k]};
        }
        charSet := Some(acc);
      }
      s := charSet.value;
    }

    /** `translate(trie)`: the word spelled out through the trie's character
        table on the first call, then cached. */
    method Translate(cm: CharMap) returns (s: string)
      modifies this`w
      ensures w == Some(s)
      ensures s == if old(w).Some? then old(w).value else cm.Spelling(word[..])
    {
      if w.None? {
        var t := cm.TranslateBack(word[..]);
        w := Some(t);
      }
      s := w.value;
    }
  }
}
