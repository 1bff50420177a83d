/** The dynamic-programming driver (src/dfh/anagrams/TrieWalker.java): a cache
    from leftover counts to the pruned single-word candidates that can be
    taken from them, filled by a worklist, then read back breadth first into
    de-duplicated sorted word lists. The thread pool runs each job at once. */
module TrieWalkers {
  import opened CharCounts
  import opened PartialEvaluations
  import opened TrieNodes
  import opened Tries
  import opened Pruning
  import opened ListOrder

  /* ---------- the termination measure ---------- */

  function Pow(x: nat, n: nat): nat
  {
    if n == 0 then 1 else x * Pow(x, n - 1)
  }

  /** A count weighs `base` to the power of its total. */
  function Weight(b: Bag, base: nat): nat
  {
    Pow(base, if b.total < 0 then 0 else b.total)
  }

  /** The summed weight of a queue of counts. */
  function Pot(bs: seq<Bag>, base: nat): nat
  {
    if bs == [] then 0 else Pot(bs[..|bs| - 1], base) + Weight(bs[|bs| - 1], base)
  }

  lemma {:induction false} PotAppend(a: seq<Bag>, b: seq<Bag>, base: nat)
    ensures Pot(a + b, base) == Pot(a, base) + Pot(b, base)
    decreases |b|
  {
    if b == [] {
      assert a + b == a;
    } else {
      var b0 := b[..|b| - 1];
      assert (a + b)[..|a + b| - 1] == a + b0;
      PotAppend(a, b0, base);
    }
  }

  lemma {:induction false} PowPositive(x: nat, n: nat)
    requires x >= 1
    ensures Pow(x, n) >= 1
  {
    if n > 0 {
      PowPositive(x, n - 1);
    }
  }

  lemma {:induction false} PowMonotone(x: nat, m: nat, n: nat)
    requires x >= 1 && m <= n
    ensures Pow(x, m) <= Pow(x, n)
    decreases n
  {
    if m < n {
      PowMonotone(x, m, n - 1);
      MulMonotone(1, x, Pow(x, n - 1));
    }
  }

  /** A queue of counts with totals at most `m` weighs at most its length
      times the weight of `m`. */
  lemma {:induction false} PotBelow(bs: seq<Bag>, base: nat, m: nat)
    requires base >= 1
    requires forall k | 0 <= k < |bs| :: 0 <= bs[k].total <= m
    ensures Pot(bs, base) <= |bs| * Pow(base, m)
  {
    if bs != [] {
      var n := |bs| - 1;
      var p := Pow(base, m);
      PotBelow(bs[..n], base, m);
      PowMonotone(base, bs[n].total, m);
      assert Pot(bs, base) <= n * p + p;
      MulSucc(n, p);
    }
  }

  /** At most `bound` counts, each smaller than `cc`, weigh less than `cc`
      when the base exceeds `bound`. */
  lemma PotShrinks(cc: Bag, bs: seq<Bag>, bound: nat)
    requires |bs| <= bound
    requires forall k | 0 <= k < |bs| :: 0 <= bs[k].total < cc.total
    ensures Pot(bs, bound + 1) < Weight(cc, bound + 1)
  {
    PowPositive(bound + 1, if cc.total < 0 then 0 else cc.total);
    if bs != [] {
      assert 0 <= bs[0].total < cc.total;
      var m: nat := cc.total - 1;
      var p := Pow(bound + 1, m);
      assert Weight(cc, bound + 1) == (bound + 1) * p;
      PotBelow(bs, bound + 1, m);
      MulMonotone(|bs|, bound, p);
      PowPositive(bound + 1, m);
      MulSucc(bound, p);
    }
  }

  lemma MulSucc(a: nat, c: nat)
    ensures (a + 1) * c == a * c + c
  {
  }

  lemma MulMonotone(a: nat, b: nat, c: nat)
    requires a <= b
    ensures a * c <= b * c
  {
  }

  /** Replacing the head `cc` of a queue by fewer than `base` counts, each
      smaller than `cc`, lowers the measure. */
  lemma QueueShrinks(cc: Bag, rest: seq<Bag>, added: seq<Bag>, base: nat)
    requires base >= 1 && |added| < base
    requires forall j | 0 <= j < |added| :: 0 <= added[j].total < cc.total
    ensures Pot(rest + added, base) < Pot([cc] + rest, base)
  {
    PotShrinks(cc, added, base - 1);
    PotAppend(rest, added, base);
    PotAppend([cc], rest, base);
    PotSingle(cc, base);
  }

  lemma PotSingle(b: Bag, base: nat)
    ensures Pot([b], base) == Weight(b, base)
  {
    assert [b][..0] == [];
  }

  /* ---------- the enqueue filter ---------- */

  /** The leftovers the enqueue loop adds, in order: those that are neither
      done nor already cache keys. */
  function Pending(list: seq<Partial>, keys: set<Bag>): seq<Bag>
  {
    if list == [] then []
    else
      var p := list[|list| - 1];
      Pending(list[..|list| - 1], keys) + (if !(p.Done() || p.left in keys) then [p.left] else [])
  }

  /** Only leftovers of listed evaluations are enqueued, and every leftover
      that is not done is a key or enqueued. */
  lemma {:induction false} PendingSpec(list: seq<Partial>, keys: set<Bag>)
    ensures |Pending(list, keys)| <= |list|
    ensures forall j | 0 <= j < |Pending(list, keys)| :: exists k | 0 <= k < |list| :: Pending(list, keys)[j] == list[k].left
    ensures forall j | 0 <= j < |Pending(list, keys)| :: !Pending(list, keys)[j].Done() && Pending(list, keys)[j] !in keys
    ensures forall k | 0 <= k < |list| :: list[k].Done() || list[k].left in keys || list[k].left in Pending(list, keys)
  {
    if list != [] {
      var init := list[..|list| - 1];
      PendingSpec(init, keys);
      var r := Pending(list, keys);
      var r0 := Pending(init, keys);
      forall j | 0 <= j < |r| ensures exists k | 0 <= k < |list| :: r[j] == list[k].left {
        if j < |r0| {
          var k :| 0 <= k < |init| && r0[j] == init[k].left;
          assert r[j] == list[k].left;
        } else {
          assert r[j] == list[|list| - 1].left;
        }
      }
      forall k | 0 <= k < |list| ensures list[k].Done() || list[k].left in keys || list[k].left in r {
        if k < |init| {
          assert list[k] == init[k];
        }
      }
    }
  }

  /** The enqueue loop lowers the measure when every leftover is smaller
      than the count just taken off the queue. */
  lemma PendingShrinks(cc: Bag, rest: seq<Bag>, list: seq<Partial>, keys: set<Bag>, base: nat)
    requires base >= 1 && |list| < base
    requires forall k | 0 <= k < |list| :: 0 <= list[k].left.total < cc.total
    ensures Pot(rest + Pending(list, keys), base) < Pot([cc] + rest, base)
  {
    var pend := Pending(list, keys);
    PendingSpec(list, keys);
    forall j | 0 <= j < |pend| ensures 0 <= pend[j].total < cc.total {
      var k :| 0 <= k < |list| && pend[j] == list[k].left;
    }
    QueueShrinks(cc, rest, pend, base);
  }

  lemma InTail<T>(w: seq<T>, x: T)
    requires x in w && x != w[0]
    ensures x in w[1..]
  {
    var i :| 0 <= i < |w| && w[i] == x;
    assert w[1..][i - 1] == x;
  }

  /** Every cached leftover that is not done is a key or queued. */
  predicate Closed(m: map<Bag, seq<Partial>>, w: seq<Bag>)
  {
    forall b, k {:trigger m[b][k]} | b in m && 0 <= k < |m[b]| ::
      m[b][k].Done() || m[b][k].left in m || m[b][k].left in w
  }

  /** Caching `list` under the head of the queue and queueing its pending
      leftovers keeps the cache closed. */
  lemma StepClosed(m: map<Bag, seq<Partial>>, w: seq<Bag>, list: seq<Partial>)
    requires Closed(m, w) && w != []
    ensures Closed(m[w[0] := list], w[1..] + Pending(list, m[w[0] := list].Keys))
  {
    var m' := m[w[0] := list];
    var w' := w[1..] + Pending(list, m'.Keys);
    PendingSpec(list, m'.Keys);
    forall b, k | b in m' && 0 <= k < |m'[b]| ensures m'[b][k].Done() || m'[b][k].left in m' || m'[b][k].left in w' {
      if b != w[0] {
        var x := m[b][k].left;
        if x in w && x != w[0] {
          InTail(w, x);
        }
      }
    }
  }

  /* ---------- chains of cache entries ---------- */

  /** The count left after taking the words of `ps` from `b`. */
  function End(b: Bag, ps: seq<Partial>): Bag
  {
    if ps == [] then b else ps[|ps| - 1].left
  }

  /** Each evaluation of `ps` is cached under the count its predecessor
      left, starting from `b`. */
  ghost predicate Chain(m: map<Bag, seq<Partial>>, b: Bag, ps: seq<Partial>)
  {
    ps == [] ||
    var init := ps[..|ps| - 1];
    Chain(m, b, init) && End(b, init) in m && ps[|ps| - 1] in m[End(b, init)]
  }

  /** Every step of a chain is cached under the count its prefix left. */
  lemma {:induction false} ChainStep(m: map<Bag, seq<Partial>>, b: Bag, ps: seq<Partial>, n: nat)
    requires Chain(m, b, ps) && n < |ps|
    ensures Chain(m, b, ps[..n]) && End(b, ps[..n]) in m && ps[n] in m[End(b, ps[..n])]
    decreases |ps|
  {
    var init := ps[..|ps| - 1];
    if n < |init| {
      ChainStep(m, b, init, n);
      assert init[..n] == ps[..n];
    }
  }

  /** A word bucket: one node of the tree `collect` grows, holding the word
      that led to it and the count left. */
  /** The counts of a queue of buckets. */
  function CountsOf(q: seq<WordBucket>): seq<Bag>
  {
    seq(|q|, i requires 0 <= i < |q| => q[i].cc)
  }

  /** `kids` are the children of `wb` for the first `|kids|` steps of
      `list`, in order: each one's count is its step's leftover and its path
      is `wb`'s path and the step. */
  ghost predicate Sprouted(wb: WordBucket, list: seq<Partial>, kids: seq<WordBucket>)
    decreases |kids|
  {
    && |kids| <= |list|
    && (kids == [] ||
        var n := |kids| - 1;
        && Sprouted(wb, list, kids[..n]) && kids[n].parent == wb && kids[n].cc == list[n].left
        && kids[n].path == wb.path + [list[n]])
  }

  lemma {:induction false} SproutedSpec(wb: WordBucket, list: seq<Partial>, kids: seq<WordBucket>)
    requires Sprouted(wb, list, kids)
    ensures |kids| <= |list|
    ensures forall j | 0 <= j < |kids| ::
      kids[j].parent == wb && kids[j].cc == list[j].left && kids[j].path == wb.path + [list[j]]
    decreases |kids|
  {
    if kids != [] {
      var n := |kids| - 1;
      SproutedSpec(wb, list, kids[..n]);
      assert forall j | 0 <= j < n :: kids[..n][j] == kids[j];
    }
  }

  lemma SproutedAppend(wb: WordBucket, list: seq<Partial>, kids: seq<WordBucket>, child: WordBucket)
    requires Sprouted(wb, list, kids) && |kids| < |list|
    requires child.parent == wb && child.cc == list[|kids|].left && child.path == wb.path + [list[|kids|]]
    ensures Sprouted(wb, list, kids + [child])
  {
    assert (kids + [child])[..|kids|] == kids;
  }

  lemma CountsOfCons(q: seq<WordBucket>)
    requires q != []
    ensures CountsOf(q) == [q[0].cc] + CountsOf(q[1..])
  {
  }

  lemma CountsOfAppend(a: seq<WordBucket>, b: seq<WordBucket>)
    ensures CountsOf(a + b) == CountsOf(a) + CountsOf(b)
  {
  }

  /** The cached size of every bucket of `made`, if any, is its depth. */
  ghost predicate Made(made: set<WordBucket>)
    reads made
  {
    forall b | b in made :: b.size == -1 || b.size == b.depth
  }

  /** A new bucket whose ancestors were made keeps `made` sound. */
  lemma MadeAdd(made: set<WordBucket>, child: WordBucket)
    requires Made(made) && child.size == -1
    ensures Made(made + {child})
  {
  }

  class WordBucket {
    /** The root's word is the source's null. */
    const word: Optional.Option<string>
    const parent: WordBucket?
    const cc: Bag
    /** -1 until `size()` has cached the depth. */
    var size: int
    ghost const depth: nat
    /** This bucket's word, then its ancestors'. */
    ghost const words: seq<string>
    /** The evaluations taken from the base count down to this bucket. */
    ghost const path: seq<Partial>
    /** This bucket and every bucket above it. */
    ghost const ancestors: set<WordBucket>

    /** The root has no word and no parent; every other bucket has a word and
        sits one level below its parent. */
    ghost predicate Linked()
      decreases depth
    {
      && this in ancestors && |words| == depth
      && (forall a | a in ancestors :: a.depth <= depth)
      && (parent == null ==> depth == 0 && word.None? && words == [] && ancestors == {this} && path == [])
      && (parent != null ==>
            && parent.depth < depth && depth == parent.depth + 1 && word.Some?
            && words == [word.value] + parent.words && ancestors == {this} + parent.ancestors
            && |path| == |parent.path| + 1 && path[..|parent.path|] == parent.path
            && parent.Linked())
    }

    /** Every cached size is the depth. */
    ghost predicate Cached()
      reads ancestors
    {
      forall a | a in ancestors :: a.size == -1 || a.size == a.depth
    }

    /** `new WordBucket(cc)`: the root of the tree. */
    constructor (cc: Bag)
      ensures Linked() && Cached() && this.cc == cc && word.None? && parent == null
      ensures path == [] && words == [] && fresh(this)
    {
      word := Optional.None;
      parent := null;
      this.cc := cc;
      size := -1;
      depth := 0;
      words := [];
      path := [];
      ancestors := {this};
    }

    /** The bucket `fill` builds: below `parent`, holding `w`, reached by
        taking `pe`. */
    constructor Child(parent: WordBucket, w: string, pe: Partial)
      requires parent.Linked()
      ensures Linked() && this.parent == parent && word == Optional.Some(w) && cc == pe.left && size == -1
      ensures path == parent.path + [pe] && words == [w] + parent.words
      ensures ancestors == {this} + parent.ancestors
    {
      word := Optional.Some(w);
      this.parent := parent;
      cc := pe.left;
      size := -1;
      depth := parent.depth + 1;
      words := [w] + parent.words;
      path := parent.path + [pe];
      ancestors := {this} + parent.ancestors;
      new;
      assert (parent.path + [pe])[..|parent.path|] == parent.path;
    }

    /** `size()`: the number of words above the root, cached in every bucket
        on the way up. */
    method Size() returns (s: int)
      requires Linked() && Cached()
      modifies ancestors
      ensures s == depth && s == |words| && Cached()
      ensures forall a | a in ancestors :: a.size == old(a.size) || a.size == a.depth
      decreases depth
    {
      if size == -1 {
        if parent == null {
          size := 0;
        } else {
          assert this !in parent.ancestors;
          var p := parent.Size();
          size := 1 + p;
        }
      }
      s := size;
    }

    /** `dump()`: the words from this bucket up to the root, sorted. */
    method Dump() returns (ws: seq<string>)
      requires Linked() && Cached()
      modifies ancestors
      ensures SortedStrings(ws) && multiset(ws) == multiset(words) && |ws| == depth
      ensures Cached() && forall a | a in ancestors :: a.size == old(a.size) || a.size == a.depth
    {
      var capacity := Size();
      ws := Gather();
      SortStringsSpec(ws);
      ws := SortStrings(ws);
      assert |ws| == |multiset(ws)| == |words|;
    }

    /** The loop of `dump()`: the words from this bucket up to the root. */
    method Gather() returns (ws: seq<string>)
      requires Linked()
      ensures ws == words
    {
      ws := [];
      var n: WordBucket? := this;
      while !(n == null || n.word.None?)
        invariant n != null ==> n.Linked() && ws + n.words == words
        invariant n == null ==> ws == words
        decreases if n == null then 0 else n.depth + 1
      {
        assert n.parent != null;
        ws := ws + [n.word.value];
        n := n.parent;
      }
      if n != null {
        assert n.parent == null;
      }
    }

    /** `fill(pe)`: a new bucket below this one, holding the spelling of
        `pe`'s word and `pe`'s leftover count. */
    method Fill(pe: Partial, trie: Trie) returns (wb: WordBucket)
      requires Linked()
      ensures fresh(wb) && wb.Linked() && wb.parent == this && wb.cc == pe.left
      ensures wb.size == -1 && wb.ancestors == {wb} + ancestors
      ensures wb.word == Optional.Some(trie.cm.Spelling(pe.word))
      ensures wb.path == path + [pe] && wb.words == [trie.cm.Spelling(pe.word)] + words
    {
      var w := trie.Translate(pe.word);
      wb := new WordBucket.Child(this, w, pe);
    }
  }

  class TrieWalker {
    const trie: Trie
    /** The cache: each expanded count and its pruned candidates. */
    var partials: map<Bag, seq<Partial>>
    /** The work queue. */
    var work: seq<Bag>

    /** A count the character table can produce. */
    ghost predicate Fit(b: Bag)
    {
      b.Valid() && |b.counts| == |trie.cm.i2c|
    }

    /** `p` is a frozen single-word step from `b`: it takes a dictionary word
        out of `b` and leaves a count the table can produce. */
    ghost predicate Entry(b: Bag, p: Partial)
      reads trie
    {
      p.Valid() && p.frozen && Origin(p) == b && p.Letters() in trie.words && |p.Letters()| > 0 && Fit(p.left)
    }

    /** Every element of `list` is a step from `b`. */
    ghost predicate Steps(b: Bag, list: seq<Partial>)
      reads trie
    {
      forall k | 0 <= k < |list| :: Entry(b, list[k])
    }

    /** The base of the termination measure: one more than the number of
        dictionary words, which bounds every candidate list. */
    ghost function Base(): nat
      requires trie.Shaped()
      reads trie
    {
      Terminals(trie.root) + 1
    }

    /** Every queued and cached count fits the table, every cache entry is a
        step from its key, no list is longer than the dictionary, and every
        leftover that is not done is a key or queued. */
    ghost predicate Valid()
      reads this, trie
    {
      trie.Shaped() && Good(partials, work, Base())
    }

    /** The invariant on a cache `m` and a queue `w`. */
    ghost predicate Good(m: map<Bag, seq<Partial>>, w: seq<Bag>, bound: nat)
      reads trie
    {
      && Fits(w)
      && (forall b | b in m :: Fit(b) && |m[b]| < bound && Steps(b, m[b]))
      && Closed(m, w)
    }

    ghost predicate Fits(w: seq<Bag>)
    {
      forall b | b in w :: Fit(b)
    }

    constructor (trie: Trie)
      requires trie.Shaped()
      ensures Valid() && this.trie == trie && partials == map[] && work == []
    {
      this.trie := trie;
      partials := map[];
      work := [];
    }

    /** What the job for `cc` caches: the candidates of the trie for `cc`,
        pruned to those containing the best index. */
    ghost function Expansion(cc: Bag): seq<Partial>
      requires trie.Shaped() && Fit(cc)
      reads trie
    {
      var list := Kept(cc, trie.Candidates(cc));
      Survivors(list, BestIn(Tally(list, |cc.counts|)))
    }

    /** The candidates the trie returns are steps from `cc` using only
        characters of the table, no more than there are dictionary words. */
    lemma KeptEntries(cc: Bag)
      requires trie.Shaped() && Fit(cc)
      ensures var list := Kept(cc, trie.Candidates(cc));
        |list| < Base() && forall k | 0 <= k < |list| :: Entry(cc, list[k]) && InRange(list[k].Letters(), cc)
    {
      var qs := trie.Candidates(cc);
      var list := Kept(cc, qs);
      KeptSpec(cc, qs);
      StartSpec(cc);
      BoundedWider(trie.root, |trie.cm.i2c|, |cc.counts|);
      EnumerateBounded(trie.root, Start(cc));
      forall k | 0 <= k < |list| ensures Entry(cc, list[k]) && InRange(list[k].Letters(), cc) {
        trie.CandidatesSound(cc, qs[k]);
        SpelledWithin(trie.root, qs[k].Letters(), |trie.cm.i2c|);
      }
    }

    /** Steps from `cc` only use characters below its width. */
    lemma EntriesWithin(cc: Bag, list: seq<Partial>)
      requires forall k | 0 <= k < |list| :: Entry(cc, list[k]) && InRange(list[k].Letters(), cc)
      ensures WithinWidth(list, |cc.counts|)
    {
      forall k, i | 0 <= k < |list| && i in CharSetOf(list[k]) ensures 0 <= i < |cc.counts| {
        FrozenCharSet(list[k]);
        TrimmedSpec(list[k]);
      }
    }

    /** The cached list for `cc` holds steps from `cc` only. */
    lemma ExpansionSpec(cc: Bag)
      requires trie.Shaped() && Fit(cc)
      ensures |Expansion(cc)| < Base()
      ensures Steps(cc, Expansion(cc))
    {
      var list := Kept(cc, trie.Candidates(cc));
      KeptEntries(cc);
      var best := BestIn(Tally(list, |cc.counts|));
      SurvivorsSpec(list, best);
      forall k | 0 <= k < |Expansion(cc)| ensures Entry(cc, Expansion(cc)[k]) {
        assert Expansion(cc)[k] in list;
      }
    }

    /** A step takes at least one letter, so its leftover is smaller. */
    lemma EntryShrinks(b: Bag, p: Partial)
      requires Entry(b, p)
      ensures 0 <= p.left.total < b.total
    {
      SumZeroIffAllZero(p.left.counts);
    }

    /** Every leftover of a list of steps from `cc` is smaller than `cc`. */
    lemma EntriesShrink(cc: Bag, list: seq<Partial>)
      requires Steps(cc, list)
      ensures forall k | 0 <= k < |list| :: 0 <= list[k].left.total < cc.total
    {
      forall k | 0 <= k < |list| ensures 0 <= list[k].left.total < cc.total {
        EntryShrinks(cc, list[k]);
      }
    }

    /** A count object holding `b`, for the trie's enumeration. */
    static method NewCount(b: Bag) returns (c: CharCount)
      requires b.Valid()
      ensures fresh(c) && c.Valid() && c.Value() == b && c.counts.Length == |b.counts|
    {
      var a := new int[|b.counts|](i requires 0 <= i < |b.counts| => b.counts[i]);
      c := new CharCount.Adopt(a, b.total);
      assert c.counts[..] == b.counts;
    }

    /** The body of the job for `cc`: every single-word step the trie finds,
        pruned to those whose character set holds the best index. */
    method Expand(cc: Bag) returns (list: seq<Partial>)
      requires trie.Shaped() && Fit(cc)
      ensures list == Expansion(cc)
    {
      var c := NewCount(cc);
      var found := trie.AllSingleWordsFromCharacterCount(c);
      KeptEntries(cc);
      EntriesWithin(cc, found);
      var charCount := CountCharSets(found, |cc.counts|);
      var best := Best(charCount);
      BestUnique(Tally(found, |cc.counts|), best, BestIn(Tally(found, |cc.counts|)));
      list := Prune(found, best);
    }

    /** One pass of the inner loop of `walk`: takes the next count off the
        queue, caches its pruned steps under it, and queues every leftover
        that is neither done nor already a key. */
    method Step()
      requires Valid() && work != []
      modifies this`partials, this`work
      ensures Valid()
      ensures partials == old(partials)[old(work)[0] := Expansion(old(work)[0])]
      ensures work == old(work)[1..] + Pending(Expansion(old(work)[0]), partials.Keys)
      ensures Pot(work, Base()) < Pot(old(work), Base())
    {
      var cc := work[0];
      ghost var m0, w0 := partials, work;
      assert cc in work;
      work := work[1..];
      var list := Expand(cc);
      ExpansionSpec(cc);
      partials := partials[cc := list];
      Enqueue(list);
      StepKeepsGood(m0, w0, list, Base());
      EntriesShrink(cc, list);
      assert w0 == [cc] + w0[1..];
      PendingShrinks(cc, w0[1..], list, partials.Keys, Base());
    }

    /** The enqueue loop of the job. */
    method Enqueue(list: seq<Partial>)
      modifies this`work
      ensures work == old(work) + Pending(list, partials.Keys)
    {
      for k := 0 to |list|
        invariant work == old(work) + Pending(list[..k], partials.Keys)
      {
        assert list[..k + 1][..k] == list[..k];
        var pe := list[k];
        if !(pe.Done() || pe.left in partials) {
          work := work + [pe.left];
        }
      }
      assert list[..|list|] == list;
    }

    /** Caching the steps of the queue's head and queueing their pending
        leftovers keeps the invariant. */
    lemma StepKeepsGood(m: map<Bag, seq<Partial>>, w: seq<Bag>, list: seq<Partial>, bound: nat)
      requires Good(m, w, bound) && w != []
      requires |list| < bound && Steps(w[0], list)
      ensures Good(m[w[0] := list], w[1..] + Pending(list, m[w[0] := list].Keys), bound)
    {
      assert Fit(w[0]) by { assert w[0] in w; }
      StepFits(w, list, m[w[0] := list].Keys);
      StepClosed(m, w, list);
    }

    /** The queued leftovers of steps from the head fit the table. */
    lemma StepFits(w: seq<Bag>, list: seq<Partial>, keys: set<Bag>)
      requires Fits(w) && w != []
      requires Steps(w[0], list)
      ensures Fits(w[1..] + Pending(list, keys))
    {
      var pend := Pending(list, keys);
      PendingSpec(list, keys);
      forall b | b in w[1..] + pend ensures Fit(b) {
        if b !in w[1..] {
          var j :| 0 <= j < |pend| && pend[j] == b;
          var k :| 0 <= k < |list| && pend[j] == list[k].left;
        }
      }
    }

    /** `walk(longestWord)`: runs jobs until the queue is empty; every count
        that was queued ends up a key, and no key is dropped. */
    method Walk()
      requires Valid()
      modifies this`partials, this`work
      ensures Valid() && work == []
      ensures old(partials).Keys <= partials.Keys
      ensures forall b | b in old(work) :: b in partials
    {
      while work != []
        invariant Valid()
        invariant old(partials).Keys <= partials.Keys
        invariant forall b | b in old(work) :: b in partials || b in work
        decreases Pot(work, Base())
      {
        ghost var before := work;
        Step();
        assert forall b | b in before :: b == before[0] || b in before[1..];
      }
    }

    /** The spellings of the words of `ps`. */
    ghost function Spelled(ps: seq<Partial>): seq<string>
    {
      seq(|ps|, i requires 0 <= i < |ps| => trie.cm.Spelling(ps[i].word))
    }

    /** `a` is an anagram the cache derives from `base`: the sorted spellings
        of a chain of cached steps from `base` that leaves nothing. */
    ghost predicate Derives(base: Bag, ps: seq<Partial>, a: seq<string>)
      reads this
    {
      && Chain(partials, base, ps) && End(base, ps).Done()
      && SortedStrings(a) && multiset(a) == multiset(Spelled(ps))
    }

    ghost predicate AllDerived(base: Bag, anagrams: seq<seq<string>>)
      reads this
    {
      forall a | a in anagrams :: exists ps :: Derives(base, ps, a)
    }

    /** A bucket of the collection queue: its words spell its path, a chain
        of cached steps from the base ending in the bucket's count, which is
        done or a key. */
    ghost predicate Reached(base: Bag, wb: WordBucket)
      reads this
    {
      && wb.Linked() && Chain(partials, base, wb.path) && wb.cc == End(base, wb.path)
      && multiset(wb.words) == multiset(Spelled(wb.path))
      && (wb.cc.Done() || wb.cc in partials)
    }

    /** What `collect` relies on once the queue is empty: every cached step
        leaves a smaller count that is done or a key, and no list has
        `bound` entries. */
    ghost predicate Settled(bound: nat)
      reads this
    {
      && (forall b | b in partials :: |partials[b]| < bound)
      && (forall b, k {:trigger partials[b][k]} | b in partials && 0 <= k < |partials[b]| ::
            0 <= partials[b][k].left.total < b.total && (partials[b][k].Done() || partials[b][k].left in partials))
    }

    /** A walked cache is settled. */
    lemma ValidSettled()
      requires Valid() && work == []
      ensures Settled(Base())
    {
      forall b, k | b in partials && 0 <= k < |partials[b]|
        ensures 0 <= partials[b][k].left.total < b.total
      {
        EntryShrinks(b, partials[b][k]);
      }
    }

    /** Every bucket of the queue is in `made` and reached. */
    ghost predicate Queued(base: Bag, q: seq<WordBucket>, made: set<WordBucket>)
      reads this
    {
      forall j | 0 <= j < |q| :: q[j] in made && q[j].ancestors <= made && Reached(base, q[j])
    }

    lemma QueuedAppend(base: Bag, q: seq<WordBucket>, kids: seq<WordBucket>, made: set<WordBucket>, made': set<WordBucket>)
      requires Queued(base, q, made) && made <= made' && Queued(base, kids, made')
      ensures Queued(base, q + kids, made')
    {
    }

    /** The `done()` branch of `collect`: adds the bucket's sorted words. */
    method Harvest(base: Bag, ghost bound: nat, wb: WordBucket, ghost queue: seq<WordBucket>,
                   ghost made: set<WordBucket>, anagrams: seq<seq<string>>)
      returns (result: seq<seq<string>>, ghost d: seq<string>)
      requires Made(made) && wb.ancestors <= made && Reached(base, wb) && wb.cc.Done()
      requires StrictlyAscending(anagrams) && AllDerived(base, anagrams)
      requires Settled(bound) && queue != [] && queue[0] == wb && Covered(base, queue, anagrams)
      modifies made
      ensures Made(made) && StrictlyAscending(result) && AllDerived(base, result)
      ensures Covered(base, queue[1..], result)
      ensures Derives(base, wb.path, d) && forall a :: a in result <==> a in anagrams || a == d
    {
      assert wb.Cached();
      var dump := wb.Dump();
      assert Derives(base, wb.path, dump);
      SetInsertElements(anagrams, dump);
      SetInsertAscending(anagrams, dump);
      result := SetInsert(anagrams, dump);
      d := dump;
      CoveredHarvest(base, bound, queue, anagrams, result, d);
    }

    /** The other branch of `collect`: a child bucket for every step cached
        under the bucket's count, in the list's order. */
    method Sprout(base: Bag, wb: WordBucket, ghost made: set<WordBucket>)
      returns (kids: seq<WordBucket>, ghost made': set<WordBucket>)
      requires Made(made) && wb.ancestors <= made && Reached(base, wb) && wb.cc in partials
      requires forall k {:trigger partials[wb.cc][k]} | 0 <= k < |partials[wb.cc]| ::
        partials[wb.cc][k].Done() || partials[wb.cc][k].left in partials
      ensures made <= made' && fresh(made' - made) && Made(made')
      ensures |kids| == |partials[wb.cc]|
      ensures Queued(base, kids, made') && Sprouted(wb, partials[wb.cc], kids)
    {
      var list := partials[wb.cc];
      kids := [];
      made' := made;
      for k := 0 to |list|
        invariant made <= made' && fresh(made' - made) && Made(made')
        invariant |kids| == k
        invariant Queued(base, kids, made')
        invariant Sprouted(wb, list, kids)
      {
        ghost var grown;
        var child;
        child, grown := Bud(base, wb, list[k], made');
        QueuedAppend(base, kids, [child], made', grown);
        SproutedAppend(wb, list, kids, child);
        kids := kids + [child];
        made' := grown;
      }
    }

    /** The counts of a bucket's children are the leftovers of the cached
        steps from its count: fewer than `bound`, each smaller. */
    lemma KidsShrink(bound: nat, wb: WordBucket, kids: seq<WordBucket>)
      requires Settled(bound) && wb.cc in partials
      requires Sprouted(wb, partials[wb.cc], kids) && |kids| == |partials[wb.cc]|
      ensures |CountsOf(kids)| < bound
      ensures forall j | 0 <= j < |kids| :: 0 <= CountsOf(kids)[j].total < wb.cc.total
    {
      SproutedSpec(wb, partials[wb.cc], kids);
      forall j | 0 <= j < |kids| ensures 0 <= CountsOf(kids)[j].total < wb.cc.total {
        assert CountsOf(kids)[j] == partials[wb.cc][j].left;
      }
    }

    /** `wb.fill(pe)` inside the loop of `collect`. */
    method Bud(base: Bag, wb: WordBucket, pe: Partial, ghost made: set<WordBucket>)
      returns (child: WordBucket, ghost made': set<WordBucket>)
      requires Made(made) && wb.ancestors <= made && Reached(base, wb) && wb.cc in partials
      requires pe in partials[wb.cc] && (pe.Done() || pe.left in partials)
      ensures fresh(child) && made' == made + {child} && Made(made') && Queued(base, [child], made')
      ensures child.parent == wb && child.cc == pe.left && child.path == wb.path + [pe]
    {
      child := wb.Fill(pe, trie);
      ChildReached(base, wb, pe, child);
      MadeAdd(made, child);
      made' := made + {child};
    }

    /** A child bucket reached by a cached step is reached. */
    lemma ChildReached(base: Bag, wb: WordBucket, pe: Partial, child: WordBucket)
      requires Reached(base, wb) && wb.cc in partials && pe in partials[wb.cc]
      requires pe.Done() || pe.left in partials
      requires child.Linked() && child.parent == wb && child.cc == pe.left
      requires child.path == wb.path + [pe] && child.words == [trie.cm.Spelling(pe.word)] + wb.words
      ensures Reached(base, child)
    {
      assert child.path[..|wb.path|] == wb.path;
      assert Spelled(child.path) == Spelled(wb.path) + [trie.cm.Spelling(pe.word)];
    }

    /** `ps` is a chain of cached steps from `base` that leaves nothing. */
    ghost predicate Complete(base: Bag, ps: seq<Partial>)
      reads this
    {
      Chain(partials, base, ps) && End(base, ps).Done()
    }

    /** The anagram of `ps` is in `anagrams`. */
    ghost predicate Found(base: Bag, ps: seq<Partial>, anagrams: seq<seq<string>>)
      reads this
    {
      exists a | a in anagrams :: Derives(base, ps, a)
    }

    /** `ps` runs through a bucket of `q`. */
    ghost predicate Through(q: seq<WordBucket>, ps: seq<Partial>)
    {
      exists j | 0 <= j < |q| :: q[j].path <= ps
    }

    /** Every chain of cached steps from `base` that leaves nothing has its
        anagram in `anagrams`. */
    ghost predicate AllFound(base: Bag, anagrams: seq<seq<string>>)
      reads this
    {
      forall ps | Complete(base, ps) :: Found(base, ps, anagrams)
    }

    /** What the loop of `collect` keeps: every chain that leaves nothing
        has its anagram in `anagrams` or runs through a bucket of `q`. */
    ghost predicate Covered(base: Bag, q: seq<WordBucket>, anagrams: seq<seq<string>>)
      reads this
    {
      forall ps | Complete(base, ps) :: Found(base, ps, anagrams) || Through(q, ps)
    }

    /** A chain running through a done bucket is the bucket's own chain:
        nothing is cached under a done count. */
    lemma ThroughDone(base: Bag, bound: nat, wb: WordBucket, ps: seq<Partial>)
      requires Settled(bound) && Reached(base, wb) && wb.cc.Done()
      requires Chain(partials, base, ps) && wb.path <= ps
      ensures ps == wb.path
    {
      GoesOnFromLive(base, bound, ps, |wb.path|);
    }

    /** A settled chain goes on only from a count that is not done. */
    lemma GoesOnFromLive(base: Bag, bound: nat, ps: seq<Partial>, n: nat)
      requires Settled(bound) && Chain(partials, base, ps) && n <= |ps|
      ensures n < |ps| ==> End(base, ps[..n]).total > 0
    {
      if n < |ps| {
        ChainStep(partials, base, ps, n);
      }
    }

    /** A chain running through a bucket that is not done, and leaving
        nothing, runs through the child made for its next step. */
    lemma ThroughKid(base: Bag, wb: WordBucket, kids: seq<WordBucket>, ps: seq<Partial>)
      returns (k: nat)
      requires Reached(base, wb) && !wb.cc.Done() && wb.cc in partials
      requires |kids| == |partials[wb.cc]|
      requires forall j | 0 <= j < |kids| :: kids[j].path == wb.path + [partials[wb.cc][j]]
      requires Complete(base, ps) && wb.path <= ps
      ensures k < |kids| && kids[k].path <= ps
    {
      var n := |wb.path|;
      assert ps != wb.path;
      ChainStep(partials, base, ps, n);
      assert ps[..n] == wb.path;
      k :| k < |partials[wb.cc]| && partials[wb.cc][k] == ps[n];
      assert kids[k].path == ps[..n + 1];
    }

    /** Harvesting a done bucket covers the chains running through it: the
        bucket's own chain is the only one, and its anagram is now in the
        set. */
    lemma CoveredHarvest(base: Bag, bound: nat, queue: seq<WordBucket>,
                         anagrams: seq<seq<string>>, anagrams': seq<seq<string>>, d: seq<string>)
      requires queue != [] && Settled(bound) && Reached(base, queue[0]) && queue[0].cc.Done()
      requires Covered(base, queue, anagrams)
      requires Derives(base, queue[0].path, d) && d in anagrams'
      requires forall a | a in anagrams :: a in anagrams'
      ensures Covered(base, queue[1..], anagrams')
    {
      forall ps | Complete(base, ps)
        ensures Found(base, ps, anagrams') || Through(queue[1..], ps)
      {
        if !Found(base, ps, anagrams) {
          var j :| 0 <= j < |queue| && queue[j].path <= ps;
          if j == 0 {
            ThroughDone(base, bound, queue[0], ps);
          } else {
            assert queue[1..][j - 1] == queue[j];
          }
        }
      }
    }

    /** Sprouting a bucket that is not done covers the chains running
        through it: each goes on by a step cached under the bucket's count,
        so it runs through the child made for that step. */
    lemma CoveredSprout(base: Bag, wb: WordBucket, queue: seq<WordBucket>, kids: seq<WordBucket>,
                        anagrams: seq<seq<string>>)
      requires queue != [] && queue[0] == wb && Reached(base, wb) && !wb.cc.Done() && wb.cc in partials
      requires Sprouted(wb, partials[wb.cc], kids) && |kids| == |partials[wb.cc]|
      requires Covered(base, queue, anagrams)
      ensures Covered(base, queue[1..] + kids, anagrams)
    {
      var rest := queue[1..];
      SproutedSpec(wb, partials[wb.cc], kids);
      forall ps | Complete(base, ps)
        ensures Found(base, ps, anagrams) || Through(rest + kids, ps)
      {
        if !Found(base, ps, anagrams) {
          var j :| 0 <= j < |queue| && queue[j].path <= ps;
          if j == 0 {
            var k := ThroughKid(base, wb, kids, ps);
            assert (rest + kids)[|rest| + k] == kids[k];
          } else {
            assert (rest + kids)[j - 1] == queue[j];
          }
        }
      }
    }

    /** `collect(baseCount)`: grows the bucket tree breadth first from the
        base count; every bucket whose count is done adds its sorted words to
        a set ordered by the list comparator. `bound` bounds the lists of the
        cache and only serves the termination measure. */
    method Collect(base: Bag, ghost bound: nat) returns (anagrams: seq<seq<string>>)
      requires Settled(bound) && bound >= 1 && (base.Done() || base in partials)
      ensures StrictlyAscending(anagrams) && AllDerived(base, anagrams) && AllFound(base, anagrams)
    {
      anagrams := [];
      var root := new WordBucket(base);
      var queue := [root];
      ghost var made := {root};
      while queue != []
        invariant fresh(made) && Made(made) && Queued(base, queue, made)
        invariant StrictlyAscending(anagrams) && AllDerived(base, anagrams)
        invariant Covered(base, queue, anagrams)
        decreases Pot(CountsOf(queue), bound)
      {
        queue, made, anagrams := CollectStep(base, bound, queue, made, anagrams);
      }
    }

    /** One turn of the loop of `collect`: takes the next bucket off the
        queue and either adds its words or queues its children. */
    method CollectStep(base: Bag, ghost bound: nat, queue: seq<WordBucket>, ghost made: set<WordBucket>,
                       anagrams: seq<seq<string>>)
      returns (queue': seq<WordBucket>, ghost made': set<WordBucket>, anagrams': seq<seq<string>>)
      requires Settled(bound) && bound >= 1 && queue != []
      requires Made(made) && Queued(base, queue, made)
      requires StrictlyAscending(anagrams) && AllDerived(base, anagrams) && Covered(base, queue, anagrams)
      modifies made
      ensures made <= made' && fresh(made' - made) && Made(made') && Queued(base, queue', made')
      ensures StrictlyAscending(anagrams') && AllDerived(base, anagrams') && Covered(base, queue', anagrams')
      ensures Pot(CountsOf(queue'), bound) < Pot(CountsOf(queue), bound)
    {
      var wb := queue[0];
      var rest := queue[1..];
      CountsOfCons(queue);
      assert wb.ancestors <= made && Reached(base, wb) && Queued(base, rest, made);
      if wb.cc.Done() {
        ghost var d;
        anagrams', d := Harvest(base, bound, wb, queue, made, anagrams);
        queue', made' := rest, made;
        QueueShrinks(wb.cc, CountsOf(rest), [], bound);
        assert CountsOf(rest) + [] == CountsOf(rest);
      } else {
        var kids;
        kids, made' := Sprout(base, wb, made);
        CoveredSprout(base, wb, queue, kids, anagrams);
        anagrams' := anagrams;
        queue' := rest + kids;
        QueuedAppend(base, rest, kids, made, made');
        KidsShrink(bound, wb, kids);
        CountsOfAppend(rest, kids);
        QueueShrinks(wb.cc, CountsOf(rest), CountsOf(kids), bound);
      }
    }

    /** `anagrams(phrase)`: nothing when the phrase has a character the table
        does not know; otherwise queues the phrase's count unless it is
        already a key, walks, and collects. */
    method Anagrams(phrase: string) returns (result: seq<seq<string>>)
      requires Valid() && trie.Valid()
      modifies this`partials, this`work
      ensures !trie.cm.Known(trie.normalizer(phrase)) ==> result == [] && partials == old(partials) && work == old(work)
      ensures trie.cm.Known(trie.normalizer(phrase)) ==>
        var base := trie.cm.CharacterCountOf(trie.normalizer(phrase)).value;
        && Valid() && work == [] && base in partials && old(partials).Keys <= partials.Keys
        && StrictlyAscending(result) && AllDerived(base, result) && AllFound(base, result)
    {
      var baseCount := trie.CharacterCount(phrase);
      if baseCount == null {
        return [];
      }
      var base := baseCount.Value();
      trie.cm.CharacterCountSpec(trie.normalizer(phrase));
      if base !in partials {
        work := work + [base];
      }
      Walk();
      ValidSettled();
      result := Collect(base, Base());
    }

    /** The number of cached steps over the keys in `keys`. */
    ghost function Evaluations(keys: set<Bag>): nat
      requires keys <= partials.Keys
      reads this
      decreases |keys|
    {
      if keys == {} then 0
      else
        NonEmptyHasMember(keys);
        var k :| k in keys;
        |partials[k]| + Evaluations(keys - {k})
    }

    /** The sum does not depend on which key is taken first. */
    lemma {:induction false} EvaluationsRemove(keys: set<Bag>, k: Bag)
      requires keys <= partials.Keys && k in keys
      ensures Evaluations(keys) == |partials[k]| + Evaluations(keys - {k})
      decreases |keys|
    {
      NonEmptyHasMember(keys);
      var j :| j in keys && Evaluations(keys) == |partials[j]| + Evaluations(keys - {j});
      if j != k {
        EvaluationsRemove(keys - {j}, k);
        EvaluationsRemove(keys - {k}, j);
        assert keys - {j} - {k} == keys - {k} - {j};
      }
    }

    /** With at most `bound` steps per key, the sum is at most `bound` per
        key. */
    lemma {:induction false} EvaluationsBound(keys: set<Bag>, bound: nat)
      requires keys <= partials.Keys
      requires forall b | b in keys :: |partials[b]| <= bound
      ensures Evaluations(keys) <= |keys| * bound
      decreases |keys|
    {
      if keys != {} {
        NonEmptyHasMember(keys);
        var k :| k in keys;
        EvaluationsRemove(keys, k);
        EvaluationsBound(keys - {k}, bound);
        assert |keys - {k}| == |keys| - 1;
        MulSucc(|keys| - 1, bound);
      }
    }

    /** `numberCharacterCounts()`: the number of keys. */
    method NumberCharacterCounts() returns (n: nat)
      ensures n == |partials.Keys|
    {
      n := |partials.Keys|;
    }

    /** `numberPartialEvaluations()`: sums the list lengths over the cache;
        no list is longer than the dictionary. */
    method NumberPartialEvaluations() returns (n: nat)
      ensures n == Evaluations(partials.Keys)
    {
      n := 0;
      var keys := partials.Keys;
      while keys != {}
        invariant keys <= partials.Keys
        invariant n + Evaluations(keys) == Evaluations(partials.Keys)
        decreases |keys|
      {
        var k := Pick(keys);
        EvaluationsRemove(keys, k);
        n := n + |partials[k]|;
        keys := keys - {k};
      }
    }

    /** No key holds more steps than there are dictionary words. */
    lemma EvaluationsWithinDictionary()
      requires Valid()
      ensures Evaluations(partials.Keys) <= |partials.Keys| * (Base() - 1)
    {
      EvaluationsBound(partials.Keys, Base() - 1);
    }

    /** `size()`: the same sum as `numberPartialEvaluations()`. */
    method Size() returns (n: nat)
      ensures n == Evaluations(partials.Keys)
    {
      n := NumberPartialEvaluations();
    }
  }
}
