/** A node of the dictionary trie (src/dfh/anagrams/TrieNode.java).

    A node is owned by exactly one parent, so the source's in-place update of a
    node is modelled as rebuilding the path from the root: `Add` returns the
    updated node. */
module TrieNodes {
  import opened Optional
  import opened CharCounts
  import opened PartialEvaluations

  /** `children` is the child array (`None` for a null slot), `jumpList` the
      cached list of non-null child indices (`None` until first computed). */
  datatype TrieNode = TrieNode(children: seq<Option<TrieNode>>, jumpList: Option<seq<int>>, terminal: bool)

  /** `new TrieNode()`. */
  const Blank: TrieNode := TrieNode([], None, false)

  predicate NonNegative(t: seq<int>)
  {
    forall k | 0 <= k < |t| :: t[k] >= 0
  }

  predicate Ascending(s: seq<int>)
  {
    forall x, y | 0 <= x < y < |s| :: s[x] < s[y]
  }

  /** `add(translation, i)`: adds the suffix `t[i..]` below this node, growing
      the child array when the next index is past its end. */
  function Add(node: TrieNode, t: seq<int>, i: nat): TrieNode
    requires i <= |t| && NonNegative(t)
    decreases |t| - i
  {
    if i == |t| then
      node.(terminal := true)
    else
      var c := t[i];
      var kids := if c >= |node.children| then node.children + seq(c + 1 - |node.children|, _ => None) else node.children;
      var child := if kids[c].Some? then kids[c].value else Blank;
      node.(children := kids[c := Some(Add(child, t, i + 1))])
  }

  /** Following `children[w[0]], children[w[1]], ...` from this node reaches a
      terminal node. */
  predicate Spells(node: TrieNode, w: seq<int>)
    decreases |w|
  {
    if w == [] then node.terminal
    else 0 <= w[0] < |node.children| && node.children[w[0]].Some? && Spells(node.children[w[0]].value, w[1..])
  }

  /** Adding marks the end of the word terminal and grows the child array
      without moving any existing child; the cached jump list is kept. */
  lemma AddShape(node: TrieNode, t: seq<int>, i: nat)
    requires i <= |t| && NonNegative(t)
    ensures i == |t| ==> Add(node, t, i) == node.(terminal := true)
    ensures Add(node, t, i).jumpList == node.jumpList
    ensures i < |t| ==> Add(node, t, i).terminal == node.terminal
    ensures i < |t| ==> |Add(node, t, i).children| == if t[i] < |node.children| then |node.children| else t[i] + 1
    ensures i < |t| ==> Add(node, t, i).children[t[i]].Some?
    ensures i < |t| ==> forall k | 0 <= k < |node.children| && k != t[i] :: Add(node, t, i).children[k] == node.children[k]
  {
  }

  /** The blank node spells nothing. */
  lemma BlankSpellsNothing(w: seq<int>)
    ensures !Spells(Blank, w)
  {
  }

  /** After `add(t, i)` the node spells exactly what it spelled before plus
      `t[i..]`. */
  lemma {:induction false} AddSpells(node: TrieNode, t: seq<int>, i: nat, w: seq<int>)
    requires i <= |t| && NonNegative(t)
    ensures Spells(Add(node, t, i), w) <==> Spells(node, w) || w == t[i..]
    decreases |t| - i
  {
    var r := Add(node, t, i);
    if i < |t| && w != [] {
      var c := t[i];
      AddShape(node, t, i);
      if w[0] == c {
        var child := if c < |node.children| && node.children[c].Some? then node.children[c].value else Blank;
        AddSpells(child, t, i + 1, w[1..]);
        if !(c < |node.children| && node.children[c].Some?) {
          BlankSpellsNothing(w[1..]);
        }
        assert w == t[i..] <==> w[1..] == t[i + 1..] by {
          if w[1..] == t[i + 1..] {
            assert w == [w[0]] + w[1..] && t[i..] == [t[i]] + t[i + 1..];
          }
        }
      } else {
        assert 0 <= w[0] < |r.children| && r.children[w[0]].Some? ==> w[0] < |node.children|;
        assert w != t[i..] by {
          assert t[i..][0] == c;
        }
      }
    }
  }

  /** The indices of the non-null slots among the first `m` children, in
      ascending order. */
  function Live(ch: seq<Option<TrieNode>>, m: nat): seq<int>
    requires m <= |ch|
  {
    if m == 0 then [] else Live(ch, m - 1) + (if ch[m - 1].Some? then [m - 1] else [])
  }

  /** `Live` lists exactly the non-null slots below `m`, ascending. */
  lemma {:induction false} LiveSpec(ch: seq<Option<TrieNode>>, m: nat)
    requires m <= |ch|
    ensures forall k :: k in Live(ch, m) <==> 0 <= k < m && ch[k].Some?
    ensures Ascending(Live(ch, m))
  {
    if m > 0 {
      var r0 := Live(ch, m - 1);
      LiveSpec(ch, m - 1);
      forall x | 0 <= x < |r0| ensures r0[x] < m - 1 {
        assert r0[x] in r0;
      }
    }
  }

  /** Indices that name non-null children. */
  predicate Jumps(node: TrieNode, js: seq<int>)
  {
    forall k | 0 <= k < |js| :: 0 <= js[k] < |node.children| && node.children[js[k]].Some?
  }

  /** `jumpList()`: the cached list if there is one, otherwise the live one. */
  function JumpList(node: TrieNode): seq<int>
  {
    if node.jumpList.Some? then node.jumpList.value else Live(node.children, |node.children|)
  }

  /** Every cached jump list is ascending and names only non-null children. */
  ghost predicate Wf(node: TrieNode)
    decreases node
  {
    (node.jumpList.Some? ==> Ascending(node.jumpList.value) && Jumps(node, node.jumpList.value))
    && forall k | 0 <= k < |node.children| && node.children[k].Some? :: Wf(node.children[k].value)
  }

  /** Every cached jump list is the live one. */
  ghost predicate Coherent(node: TrieNode)
    decreases node
  {
    (node.jumpList.Some? ==> node.jumpList.value == Live(node.children, |node.children|))
    && forall k | 0 <= k < |node.children| && node.children[k].Some? :: Coherent(node.children[k].value)
  }

  /** No jump list has been cached anywhere. */
  ghost predicate Uncached(node: TrieNode)
    decreases node
  {
    node.jumpList.None? && forall k | 0 <= k < |node.children| && node.children[k].Some? :: Uncached(node.children[k].value)
  }

  /** No child array anywhere is longer than `width`. */
  ghost predicate Bounded(node: TrieNode, width: nat)
    decreases node
  {
    |node.children| <= width
    && forall k | 0 <= k < |node.children| && node.children[k].Some? :: Bounded(node.children[k].value, width)
  }

  /** A word spelled below a node whose child arrays are at most `width`
      long uses only characters below `width`. */
  lemma {:induction false} SpelledWithin(node: TrieNode, w: seq<int>, width: nat)
    requires Spells(node, w) && Bounded(node, width)
    ensures forall j | 0 <= j < |w| :: 0 <= w[j] < width
    decreases |w|
  {
    if w != [] {
      SpelledWithin(node.children[w[0]].value, w[1..], width);
      forall j | 0 < j < |w| ensures 0 <= w[j] < width {
        assert w[j] == w[1..][j - 1];
      }
    }
  }

  /** A bound on the child arrays also holds for any wider count. */
  lemma {:induction false} BoundedWider(node: TrieNode, width: nat, wider: nat)
    requires Bounded(node, width) && width <= wider
    ensures Bounded(node, wider)
    decreases node
  {
    forall k | 0 <= k < |node.children| && node.children[k].Some?
      ensures Bounded(node.children[k].value, wider)
    {
      BoundedWider(node.children[k].value, width, wider);
    }
  }

  /** What `jumpList()` returns: ascending indices of non-null children; all of
      them, in a coherent node. */
  lemma JumpListSpec(node: TrieNode)
    requires Wf(node)
    ensures Ascending(JumpList(node)) && Jumps(node, JumpList(node))
  {
    if node.jumpList.None? {
      LiveJumps(node);
    }
  }

  /** The live list names only non-null children, ascending. */
  lemma LiveJumps(node: TrieNode)
    ensures Ascending(Live(node.children, |node.children|)) && Jumps(node, Live(node.children, |node.children|))
  {
    var js := Live(node.children, |node.children|);
    LiveSpec(node.children, |node.children|);
    forall k | 0 <= k < |js| ensures 0 <= js[k] < |node.children| && node.children[js[k]].Some? {
      assert js[k] in js;
    }
  }

  /** In a coherent node the jump list names every non-null child. */
  lemma CoherentJumpList(node: TrieNode)
    requires Coherent(node)
    ensures forall k :: k in JumpList(node) <==> 0 <= k < |node.children| && node.children[k].Some?
  {
    assert JumpList(node) == Live(node.children, |node.children|);
    LiveSpec(node.children, |node.children|);
  }

  lemma {:induction false} CoherentIsWf(node: TrieNode)
    requires Coherent(node)
    ensures Wf(node)
    decreases node
  {
    LiveJumps(node);
    forall k | 0 <= k < |node.children| && node.children[k].Some?
      ensures Wf(node.children[k].value)
    {
      CoherentIsWf(node.children[k].value);
    }
  }

  lemma {:induction false} UncachedIsCoherent(node: TrieNode)
    requires Uncached(node)
    ensures Coherent(node) && Wf(node)
    decreases node
  {
    forall k | 0 <= k < |node.children| && node.children[k].Some?
      ensures Coherent(node.children[k].value)
    {
      UncachedIsCoherent(node.children[k].value);
    }
    CoherentIsWf(node);
  }

  /** Adding to a trie with no cached jump list leaves none cached, and keeps
      child arrays within a width the word's indices respect. */
  lemma {:induction false} AddKeepsInvariants(node: TrieNode, t: seq<int>, i: nat, width: nat)
    requires i <= |t| && NonNegative(t) && forall k | 0 <= k < |t| :: t[k] < width
    requires Uncached(node) && Bounded(node, width)
    ensures Uncached(Add(node, t, i)) && Bounded(Add(node, t, i), width)
    decreases |t| - i
  {
    if i < |t| {
      var c := t[i];
      var kids := if c >= |node.children| then node.children + seq(c + 1 - |node.children|, _ => None) else node.children;
      var child := if kids[c].Some? then kids[c].value else Blank;
      AddKeepsInvariants(child, t, i + 1, width);
      var r := Add(node, t, i);
      assert r.children == kids[c := Some(Add(child, t, i + 1))];
      forall k | 0 <= k < |r.children| && r.children[k].Some?
        ensures Uncached(r.children[k].value) && Bounded(r.children[k].value, width)
      {
        if k != c {
          assert k < |node.children| && r.children[k] == node.children[k];
        }
      }
    }
  }

  /** The cache is not refreshed by `add`: a word added below a node whose jump
      list was already computed is not listed by it. */
  lemma CachedJumpListGoesStale()
    ensures var node := TrieNode([], Some([]), false);
      Spells(Add(node, [1], 0), [1]) && JumpList(Add(node, [1], 0)) == []
  {
    var node := TrieNode([], Some([]), false);
    AddSpells(node, [1], 0, [1]);
  }

  /** `subtree(i)`: null past the end of the child array. */
  function Subtree(node: TrieNode, i: nat): (r: Option<TrieNode>)
    ensures r.Some? ==> forall w :: Spells(r.value, w) <==> Spells(node, [i] + w)
    ensures r.None? ==> forall w :: !Spells(node, [i] + w)
  {
    if i >= |node.children| then None else node.children[i]
  }

  /** The body of `jumpList()` when nothing is cached: count the non-null
      children, then fill an array of that size with their indices. */
  method BuildJumpList(children: seq<Option<TrieNode>>) returns (list: seq<int>)
    ensures list == Live(children, |children|)
  {
    var size := CountLive(children);
    var a := new int[size];
    var i := 0;
    for j := 0 to |children|
      invariant i == |Live(children, j)| <= size
      invariant a[..i] == Live(children, j)
    {
      if children[j].Some? {
        LiveGrows(children, j + 1, |children|);
        a[i] := j;
        i := i + 1;
      }
    }
    list := a[..];
  }

  /** The first loop of `jumpList()`: the number of non-null children. */
  method CountLive(children: seq<Option<TrieNode>>) returns (size: nat)
    ensures size == |Live(children, |children|)|
  {
    size := 0;
    for j := 0 to |children|
      invariant size == |Live(children, j)|
    {
      if children[j].Some? {
        size := size + 1;
      }
    }
  }

  lemma {:induction false} LiveGrows(ch: seq<Option<TrieNode>>, m: nat, m': nat)
    requires m <= m' <= |ch|
    ensures |Live(ch, m)| <= |Live(ch, m')|
    decreases m' - m
  {
    if m < m' {
      LiveGrows(ch, m, m' - 1);
    }
  }

  /** `jumpList()`: computes the list on the first call and caches it in the
      node; later calls return the cached list. */
  method JumpListOf(node: TrieNode) returns (cached: TrieNode, list: seq<int>)
    ensures list == JumpList(node)
    ensures cached == node.(jumpList := Some(list))
    ensures JumpList(cached) == list
  {
    if node.jumpList.None? {
      list := BuildJumpList(node.children);
      cached := node.(jumpList := Some(list));
    } else {
      list := node.jumpList.value;
      cached := node;
    }
  }

  /** `size()`: one for this node plus the sizes of the children it lists. */
  function Size(node: TrieNode): nat
    requires Wf(node)
    decreases node, 1
  {
    JumpListSpec(node);
    1 + SizeOfKids(node, JumpList(node))
  }

  function SizeOfKids(node: TrieNode, js: seq<int>): nat
    requires Wf(node) && Jumps(node, js)
    decreases node, 0, |js|
  {
    if js == [] then 0 else Size(node.children[js[0]].value) + SizeOfKids(node, js[1..])
  }

  /** The number of terminal nodes reachable through jump lists. */
  function Terminals(node: TrieNode): nat
    requires Wf(node)
    decreases node, 1
  {
    JumpListSpec(node);
    (if node.terminal then 1 else 0) + TerminalsOfKids(node, JumpList(node))
  }

  function TerminalsOfKids(node: TrieNode, js: seq<int>): nat
    requires Wf(node) && Jumps(node, js)
    decreases node, 0, |js|
  {
    if js == [] then 0 else Terminals(node.children[js[0]].value) + TerminalsOfKids(node, js[1..])
  }

  /** Every terminal node counted is a node: the size bounds the number of
      words. */
  lemma {:induction false} SizeCountsTerminals(node: TrieNode)
    requires Wf(node)
    ensures Terminals(node) <= Size(node)
    decreases node, 1
  {
    JumpListSpec(node);
    SizeCountsTerminalsOfKids(node, JumpList(node));
  }

  lemma {:induction false} SizeCountsTerminalsOfKids(node: TrieNode, js: seq<int>)
    requires Wf(node) && Jumps(node, js)
    ensures TerminalsOfKids(node, js) <= SizeOfKids(node, js)
    decreases node, 0, |js|
  {
    if js != [] {
      SizeCountsTerminals(node.children[js[0]].value);
      SizeCountsTerminalsOfKids(node, js[1..]);
    }
  }

  /** `size()` as the source computes it: a loop over the jump list with a
      recursive call per child. */
  method ComputeSize(node: TrieNode) returns (s: nat)
    requires Wf(node)
    ensures s == Size(node)
    decreases node
  {
    s := 1;
    JumpListSpec(node);
    var js := JumpList(node);
    for k := 0 to |js|
      invariant s + SizeOfKids(node, js[k..]) == Size(node)
    {
      assert js[k..][1..] == js[k + 1..];
      var c := ComputeSize(node.children[js[k]].value);
      s := s + c;
    }
  }

  /** The preconditions of the enumeration: the node's indices fit the count
      and the evaluation is still being extended. */
  ghost predicate CanEnumerate(node: TrieNode, p: Partial)
  {
    Wf(node) && Bounded(node, |p.left.counts|) && p.Valid() && !p.frozen
  }

  /** `allSingleWordsFromCharacterCount(pe, list)`, as the list it appends:
      `pe` itself if this node is terminal, then, for each listed child whose
      index is still available, the enumeration below it. */
  function Enumerate(node: TrieNode, p: Partial): seq<Partial>
    requires CanEnumerate(node, p)
    decreases node, 1
  {
    JumpListSpec(node);
    (if node.terminal then [p] else []) + EnumerateKids(node, JumpList(node), p)
  }

  function EnumerateKids(node: TrieNode, js: seq<int>, p: Partial): seq<Partial>
    requires CanEnumerate(node, p) && Jumps(node, js)
    decreases node, 0, |js|
  {
    if js == [] then [] else Below(node, js[0], p) + EnumerateKids(node, js[1..], p)
  }

  /** What the enumeration appends for child `i`: nothing when the leftover
      has no `i`, otherwise the enumeration below that child. */
  function Below(node: TrieNode, i: int, p: Partial): seq<Partial>
    requires CanEnumerate(node, p) && 0 <= i < |node.children| && node.children[i].Some?
    decreases node, 0, 0
  {
    match Extend(p, i)
    case None => []
    case Some(q) => Enumerate(node.children[i].value, q)
  }

  lemma EnumerateUnfold(node: TrieNode, p: Partial)
    requires CanEnumerate(node, p)
    ensures Jumps(node, JumpList(node))
    ensures Enumerate(node, p) == (if node.terminal then [p] else []) + EnumerateKids(node, JumpList(node), p)
  {
    JumpListSpec(node);
  }

  /** The part of the enumeration contributed by the jump list from position
      `k` on. */
  ghost function KidsFrom(node: TrieNode, js: seq<int>, k: nat, p: Partial): seq<Partial>
    requires CanEnumerate(node, p) && Jumps(node, js) && k <= |js|
  {
    EnumerateKids(node, js[k..], p)
  }

  /** One step along the jump list. */
  lemma KidsFromStep(node: TrieNode, js: seq<int>, k: nat, p: Partial)
    requires CanEnumerate(node, p) && Jumps(node, js) && k < |js|
    ensures KidsFrom(node, js, k, p) == Below(node, js[k], p) + KidsFrom(node, js, k + 1, p)
  {
    assert js[k..][1..] == js[k + 1..];
  }

  /** From the start the whole jump list contributes; from the end, nothing. */
  lemma KidsFromEnds(node: TrieNode, js: seq<int>, p: Partial)
    requires CanEnumerate(node, p) && Jumps(node, js)
    ensures KidsFrom(node, js, 0, p) == EnumerateKids(node, js, p)
    ensures KidsFrom(node, js, |js|, p) == []
  {
    assert js[0..] == js;
  }

  /** Soundness: everything appended extends `p` by a word the node spells,
      and the letters taken plus the leftover still make up `p`'s origin. */
  lemma {:induction false} EnumerateSound(node: TrieNode, p: Partial, q: Partial)
    requires CanEnumerate(node, p) && q in Enumerate(node, p)
    ensures q.Valid() && !q.frozen && Origin(q) == Origin(p)
    ensures p.n <= q.n && q.Letters()[..p.n] == p.Letters() && Spells(node, q.Letters()[p.n..])
    decreases node, 1
  {
    JumpListSpec(node);
    if q !in EnumerateKids(node, JumpList(node), p) {
      assert q == p && node.terminal;
      assert q.Letters()[p.n..] == [];
    } else {
      EnumerateKidsSound(node, JumpList(node), p, q);
    }
  }

  lemma {:induction false} EnumerateKidsSound(node: TrieNode, js: seq<int>, p: Partial, q: Partial)
    requires CanEnumerate(node, p) && Jumps(node, js) && q in EnumerateKids(node, js, p)
    ensures q.Valid() && !q.frozen && Origin(q) == Origin(p)
    ensures p.n < q.n && q.Letters()[..p.n] == p.Letters() && Spells(node, q.Letters()[p.n..])
    ensures q.Letters()[p.n] in js
    decreases node, 0, |js|
  {
    if q in Below(node, js[0], p) {
      BelowSound(node, js[0], p, q);
    } else {
      EnumerateKidsSound(node, js[1..], p, q);
    }
  }

  /** What is appended below child `i` starts with the letter `i`. */
  lemma {:induction false} BelowSound(node: TrieNode, i: int, p: Partial, q: Partial)
    requires CanEnumerate(node, p) && 0 <= i < |node.children| && node.children[i].Some?
    requires q in Below(node, i, p)
    ensures q.Valid() && !q.frozen && Origin(q) == Origin(p)
    ensures p.n < q.n && q.Letters()[..p.n] == p.Letters() && Spells(node, q.Letters()[p.n..])
    ensures q.Letters()[p.n] == i
    decreases node, 0, 0
  {
    var p1 := Extend(p, i).value;
    ExtendKeepsOrigin(p, i);
    EnumerateSound(node.children[i].value, p1, q);
    PrefixAfterExtend(p, i, q.Letters());
  }

  /** A word that starts with `p`'s letters and then `i` splits at `p.n`. */
  lemma PrefixAfterExtend(p: Partial, i: int, l: seq<int>)
    requires p.Valid() && !p.frozen && 0 <= i < |p.left.counts| && Extend(p, i).Some?
    requires Extend(p, i).value.n <= |l| && l[..Extend(p, i).value.n] == p.Letters() + [i]
    ensures p.n < |l| && l[..p.n] == p.Letters() && l[p.n] == i
    ensures l[p.n..][1..] == l[Extend(p, i).value.n..]
  {
    var m := Extend(p, i).value.n;
    assert l[..p.n] == l[..m][..p.n];
  }

  /** Every evaluation appended is still valid and sized like `p`'s count. */
  lemma EnumerateKeepsWidth(node: TrieNode, p: Partial)
    requires CanEnumerate(node, p)
    ensures forall q | q in Enumerate(node, p) :: q.Valid() && !q.frozen && |q.left.counts| == |p.left.counts|
  {
    forall q | q in Enumerate(node, p)
      ensures q.Valid() && !q.frozen && |q.left.counts| == |p.left.counts|
    {
      EnumerateSound(node, p, q);
      assert |Origin(q).counts| == |q.left.counts| && |Origin(p).counts| == |p.left.counts|;
    }
  }

  /** The enumeration of a listed child is part of the enumeration of the
      jump list. */
  lemma {:induction false} EnumerateKidsIncludes(node: TrieNode, js: seq<int>, p: Partial, i: int, q: Partial)
    requires CanEnumerate(node, p) && Jumps(node, js) && i in js
    requires 0 <= i < |p.left.counts| && Extend(p, i).Some?
    requires q in Enumerate(node.children[i].value, Extend(p, i).value)
    ensures q in EnumerateKids(node, js, p)
    decreases |js|
  {
    if js[0] != i {
      EnumerateKidsIncludes(node, js[1..], p, i, q);
    }
  }

  /** Completeness: in a coherent trie, every word the node spells whose
      letters fit in the leftover is appended. */
  lemma {:induction false} EnumerateComplete(node: TrieNode, p: Partial, w: seq<int>)
    requires CanEnumerate(node, p) && Coherent(node)
    requires Spells(node, w) && Fits(w, p.left)
    ensures exists q | q in Enumerate(node, p) :: q.Letters() == p.Letters() + w
    decreases node
  {
    if w == [] {
      EnumerateUnfold(node, p);
      assert p in Enumerate(node, p) && p.Letters() + w == p.Letters();
    } else {
      ChildCanEnumerate(node, p, w);
      var p1 := Extend(p, w[0]).value;
      EnumerateComplete(node.children[w[0]].value, p1, w[1..]);
      var q :| q in Enumerate(node.children[w[0]].value, p1) && q.Letters() == p1.Letters() + w[1..];
      LiftFromChild(node, p, w, q);
    }
  }

  /** The first letter of a spelled word that fits leads to a child that can
      be enumerated with the rest of the word. */
  lemma ChildCanEnumerate(node: TrieNode, p: Partial, w: seq<int>)
    requires CanEnumerate(node, p) && Coherent(node)
    requires Spells(node, w) && Fits(w, p.left) && w != []
    ensures 0 <= w[0] < |node.children| && node.children[w[0]].Some? && Extend(p, w[0]).Some?
    ensures CanEnumerate(node.children[w[0]].value, Extend(p, w[0]).value)
    ensures Coherent(node.children[w[0]].value)
    ensures Spells(node.children[w[0]].value, w[1..]) && Fits(w[1..], Extend(p, w[0]).value.left)
  {
    FitsAfterExtend(p, w);
  }

  /** What the child enumerates for the rest of the word, the node enumerates
      for the whole word. */
  lemma LiftFromChild(node: TrieNode, p: Partial, w: seq<int>, q: Partial)
    requires CanEnumerate(node, p) && Coherent(node)
    requires w != [] && 0 <= w[0] < |node.children| && node.children[w[0]].Some? && Extend(p, w[0]).Some?
    requires q in Enumerate(node.children[w[0]].value, Extend(p, w[0]).value)
    requires q.Letters() == Extend(p, w[0]).value.Letters() + w[1..]
    ensures q in Enumerate(node, p) && q.Letters() == p.Letters() + w
  {
    EnumerateUnfold(node, p);
    CoherentJumpList(node);
    EnumerateKidsIncludes(node, JumpList(node), p, w[0], q);
    SnocThenAppend(p.Letters(), w);
  }

  lemma SnocThenAppend(l: seq<int>, w: seq<int>)
    requires w != []
    ensures (l + [w[0]]) + w[1..] == l + w
  {
    assert [w[0]] + w[1..] == w;
  }

  /** Taking the first letter of a word that fits leaves the rest fitting. */
  lemma FitsAfterExtend(p: Partial, w: seq<int>)
    requires p.Valid() && !p.frozen && w != [] && 0 <= w[0] < |p.left.counts| && Fits(w, p.left)
    ensures Extend(p, w[0]).Some? && Fits(w[1..], Extend(p, w[0]).value.left)
  {
    var c := w[0];
    assert Occurrences(w, c) >= 1;
    var p1 := Extend(p, c).value;
    forall k | 0 <= k < |p1.left.counts|
      ensures Occurrences(w[1..], k) <= p1.left.counts[k]
    {
      assert Occurrences(w, k) == (if c == k then 1 else 0) + Occurrences(w[1..], k);
    }
  }

  /** No two entries of a sequence of evaluations spell the same word. */
  ghost predicate DistinctLetters(s: seq<Partial>)
  {
    forall x, y | 0 <= x < y < |s| :: s[x].Letters() != s[y].Letters()
  }

  lemma DistinctConcat(a: seq<Partial>, b: seq<Partial>)
    requires DistinctLetters(a) && DistinctLetters(b)
    requires forall x, y | x in a && y in b :: x.Letters() != y.Letters()
    ensures DistinctLetters(a + b)
  {
    forall x, y | 0 <= x < y < |a + b|
      ensures (a + b)[x].Letters() != (a + b)[y].Letters()
    {
      if x < |a| && y >= |a| {
        assert (a + b)[x] in a && (a + b)[y] in b;
      }
    }
  }

  /** Exactly once: no word is appended twice. */
  lemma {:induction false} EnumerateDistinct(node: TrieNode, p: Partial)
    requires CanEnumerate(node, p)
    ensures DistinctLetters(Enumerate(node, p))
    decreases node, 1
  {
    JumpListSpec(node);
    var kids := EnumerateKids(node, JumpList(node), p);
    EnumerateKidsDistinct(node, JumpList(node), p);
    forall y | y in kids ensures p.Letters() != y.Letters() {
      EnumerateKidsSound(node, JumpList(node), p, y);
    }
    DistinctConcat(if node.terminal then [p] else [], kids);
  }

  lemma {:induction false} EnumerateKidsDistinct(node: TrieNode, js: seq<int>, p: Partial)
    requires CanEnumerate(node, p) && Jumps(node, js) && Ascending(js)
    ensures DistinctLetters(EnumerateKids(node, js, p))
    decreases node, 0, |js|
  {
    if js != [] {
      var here := Below(node, js[0], p);
      var rest := EnumerateKids(node, js[1..], p);
      EnumerateKidsDistinct(node, js[1..], p);
      if Extend(p, js[0]).Some? {
        EnumerateDistinct(node.children[js[0]].value, Extend(p, js[0]).value);
      }
      forall x, y | x in here && y in rest
        ensures x.Letters() != y.Letters()
      {
        BelowApart(node, js, p, x, y);
      }
      DistinctConcat(here, rest);
    }
  }

  /** Entries appended below the first listed child differ from those
      appended below the later ones: they differ at position `p.n`. */
  lemma BelowApart(node: TrieNode, js: seq<int>, p: Partial, x: Partial, y: Partial)
    requires CanEnumerate(node, p) && Jumps(node, js) && Ascending(js) && js != []
    requires x in Below(node, js[0], p) && y in EnumerateKids(node, js[1..], p)
    ensures x.Letters() != y.Letters()
  {
    BelowSound(node, js[0], p, x);
    EnumerateKidsSound(node, js[1..], p, y);
  }

  /** The enumeration appends at most one evaluation per terminal node. */
  lemma {:induction false} EnumerateBounded(node: TrieNode, p: Partial)
    requires CanEnumerate(node, p)
    ensures |Enumerate(node, p)| <= Terminals(node)
    decreases node, 1
  {
    JumpListSpec(node);
    EnumerateKidsBounded(node, JumpList(node), p);
  }

  lemma {:induction false} EnumerateKidsBounded(node: TrieNode, js: seq<int>, p: Partial)
    requires CanEnumerate(node, p) && Jumps(node, js)
    ensures |EnumerateKids(node, js, p)| <= TerminalsOfKids(node, js)
    decreases node, 0, |js|
  {
    if js != [] {
      if Extend(p, js[0]).Some? {
        EnumerateBounded(node.children[js[0]].value, Extend(p, js[0]).value);
      }
      EnumerateKidsBounded(node, js[1..], p);
    }
  }

  /** The enumeration as the source performs it: a recursive method appending
      to a caller-owned list while looping over the jump list. */
  method AllSingleWords(node: TrieNode, p: Partial, list: seq<Partial>) returns (out: seq<Partial>)
    requires CanEnumerate(node, p)
    ensures out == list + Enumerate(node, p)
    decreases node, 2
  {
    var here := if node.terminal then [p] else [];
    EnumerateUnfold(node, p);
    var js := JumpList(node);
    out := AllSingleWordsKids(node, js, p, list + here);
    AppendAssoc(list, here, EnumerateKids(node, js, p));
  }

  /** The loop over the jump list. */
  method AllSingleWordsKids(node: TrieNode, js: seq<int>, p: Partial, list: seq<Partial>) returns (out: seq<Partial>)
    requires CanEnumerate(node, p) && Jumps(node, js)
    ensures out == list + EnumerateKids(node, js, p)
    decreases node, 1
  {
    out := list;
    KidsFromEnds(node, js, p);
    for k := 0 to |js|
      invariant out + KidsFrom(node, js, k, p) == list + EnumerateKids(node, js, p)
    {
      KidsFromStep(node, js, k, p);
      AppendAssoc(out, Below(node, js[k], p), KidsFrom(node, js, k + 1, p));
      out := AllSingleWordsBelow(node, js[k], p, out);
    }
  }

  lemma AppendAssoc<T>(a: seq<T>, b: seq<T>, c: seq<T>)
    ensures (a + b) + c == a + (b + c)
  {
  }

  /** One iteration of the loop over the jump list: `pe.add(i)`, and the
      recursive call when it succeeds. */
  method AllSingleWordsBelow(node: TrieNode, i: int, p: Partial, list: seq<Partial>) returns (out: seq<Partial>)
    requires CanEnumerate(node, p) && 0 <= i < |node.children| && node.children[i].Some?
    ensures out == list + Below(node, i, p)
    decreases node, 0
  {
    var shorter := Extend(p, i);
    if shorter.Some? {
      out := AllSingleWords(node.children[i].value, shorter.value, list);
    } else {
      out := list;
    }
  }
}
