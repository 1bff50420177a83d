/** The character <-> dense index table (src/dfh/anagrams/CharMap.java). */
module CharMaps {
  import opened Optional
  import opened CharCounts

  const IntMax: int := 0x7fff_ffff
  const IntMin: int := -0x8000_0000

  /** Java `int` arithmetic: wraps to 32 bits. */
  function Wrap32(x: int): (r: int)
    ensures IntMin <= r <= IntMax
    ensures IntMin <= x <= IntMax ==> r == x
  {
    (x - IntMin) % 0x1_0000_0000 + IntMin
  }

  /** The frequency the comparator reads for a character. */
  function FreqOf(f: map<char, int>, c: char): int
  {
    if c in f then f[c] else 0
  }

  /** The list sorted so that a higher frequency comes first. */
  ghost predicate SortedByFrequency(s: seq<char>, f: map<char, int>)
  {
    forall i, j | 0 <= i < j < |s| :: FreqOf(f, s[i]) >= FreqOf(f, s[j])
  }

  /** One insertion step of a stable sort by descending frequency: `c` goes
      after every element at least as frequent. */
  function InsertByFrequency(c: char, s: seq<char>, f: map<char, int>): (r: seq<char>)
    ensures multiset(r) == multiset(s) + multiset{c}
    ensures forall k | 0 <= k < |r| :: r[k] == c || r[k] in s
  {
    if s == [] then [c]
    else if FreqOf(f, s[0]) >= FreqOf(f, c) then
      assert s == [s[0]] + s[1..];
      [s[0]] + InsertByFrequency(c, s[1..], f)
    else [c] + s
  }

  /** A sorted list stays sorted under a more frequent head. */
  lemma SortedCons(h: char, t: seq<char>, f: map<char, int>)
    requires SortedByFrequency(t, f)
    requires forall k | 0 <= k < |t| :: FreqOf(f, t[k]) <= FreqOf(f, h)
    ensures SortedByFrequency([h] + t, f)
  {
    var r := [h] + t;
    forall i, j | 0 <= i < j < |r| ensures FreqOf(f, r[i]) >= FreqOf(f, r[j]) {
      assert r[j] == t[j - 1];
      if i > 0 {
        assert r[i] == t[i - 1];
      }
    }
  }

  lemma {:induction false} InsertKeepsSorted(c: char, s: seq<char>, f: map<char, int>)
    requires SortedByFrequency(s, f)
    ensures SortedByFrequency(InsertByFrequency(c, s, f), f)
  {
    if s == [] {
    } else if FreqOf(f, s[0]) >= FreqOf(f, c) {
      var t := InsertByFrequency(c, s[1..], f);
      assert SortedByFrequency(s[1..], f) by {
        forall i, j | 0 <= i < j < |s[1..]| ensures FreqOf(f, s[1..][i]) >= FreqOf(f, s[1..][j]) {
          assert s[1..][i] == s[i + 1] && s[1..][j] == s[j + 1];
        }
      }
      InsertKeepsSorted(c, s[1..], f);
      forall k | 0 <= k < |t| ensures FreqOf(f, t[k]) <= FreqOf(f, s[0]) {
        if t[k] != c {
          var m :| 0 <= m < |s[1..]| && s[1..][m] == t[k];
          assert s[m + 1] == t[k];
        }
      }
      SortedCons(s[0], t, f);
    } else {
      SortedCons(c, s, f);
    }
  }

  /** `list.sort(c)` with `c(a, b) = freq(b) - freq(a)`: the keys ordered by
      descending frequency, equally frequent keys in their original order. */
  function SortByFrequency(s: seq<char>, f: map<char, int>): (r: seq<char>)
    ensures multiset(r) == multiset(s)
    ensures SortedByFrequency(r, f)
  {
    if s == [] then []
    else
      assert s == s[..|s| - 1] + [s[|s| - 1]];
      InsertKeepsSorted(s[|s| - 1], SortByFrequency(s[..|s| - 1], f), f);
      InsertByFrequency(s[|s| - 1], SortByFrequency(s[..|s| - 1], f), f)
  }

  /** No character occurs twice. */
  predicate Distinct(s: seq<char>)
  {
    forall i, j | 0 <= i < j < |s| :: s[i] != s[j]
  }

  lemma DistinctByMultiset(s: seq<char>, t: seq<char>)
    requires multiset(s) == multiset(t) && Distinct(s)
    ensures Distinct(t)
  {
    forall i, j | 0 <= i < j < |t| ensures t[i] != t[j] {
      if t[i] == t[j] {
        var m := multiset(t[..i]) + multiset{t[i]} + multiset(t[i + 1..j]) + multiset{t[j]} + multiset(t[j + 1..]);
        assert t == t[..i] + [t[i]] + t[i + 1..j] + [t[j]] + t[j + 1..];
        assert multiset(t) == m;
        assert multiset(s)[t[i]] >= 2;
        CountedTwice(s, t[i]);
      }
    }
  }

  lemma {:induction false} CountedTwice(s: seq<char>, c: char)
    requires Distinct(s)
    ensures multiset(s)[c] <= 1
  {
    if s != [] {
      assert s == [s[0]] + s[1..];
      CountedTwice(s[1..], c);
      if s[0] == c {
        assert c !in s[1..];
      }
    }
  }

  /** The table invariant: indices `1..n` are assigned, in order of descending
      frequency, to exactly the `n` characters of the frequency map, and the
      two tables are inverse to each other. */
  ghost predicate Tables(c2i: seq<int>, charOffset: int, i2c: seq<char>, frequency: map<char, int>)
  {
    && |i2c| == |frequency| + 1
    && i2c[0] == '\0'
    && (forall i, j | 1 <= i < j < |i2c| :: i2c[i] != i2c[j])
    && frequency.Keys == (set i | 1 <= i < |i2c| :: i2c[i])
    && (forall i | 1 <= i < |i2c| :: 0 <= i2c[i] as int - charOffset < |c2i| && c2i[i2c[i] as int - charOffset] == i)
    && (forall j | 0 <= j < |c2i| :: 0 <= c2i[j] < |i2c| && (c2i[j] != 0 ==> i2c[c2i[j]] as int - charOffset == j))
    && (forall i, j | 1 <= i < j < |i2c| :: FreqOf(frequency, i2c[i]) >= FreqOf(frequency, i2c[j]))
  }

  /** The tables filled from a sorted key list satisfy the table invariant. */
  lemma FilledTables(list: seq<char>, offset: int, c2i: seq<int>, i2c: seq<char>, f: map<char, int>)
    requires Distinct(list) && |list| == |f| && SortedByFrequency(list, f)
    requires forall c :: c in f <==> c in list
    requires |i2c| == |list| + 1 && i2c[0] == '\0'
    requires forall j | 1 <= j < |i2c| :: i2c[j] == list[j - 1]
    requires forall i | 1 <= i < |i2c| :: 0 <= i2c[i] as int - offset < |c2i| && c2i[i2c[i] as int - offset] == i
    requires forall j | 0 <= j < |c2i| :: 0 <= c2i[j] < |i2c| && (c2i[j] != 0 ==> i2c[c2i[j]] as int - offset == j)
    ensures Tables(c2i, offset, i2c, f)
  {
    forall i, j | 1 <= i < j < |i2c| ensures i2c[i] != i2c[j] && FreqOf(f, i2c[i]) >= FreqOf(f, i2c[j]) {
      assert i2c[i] == list[i - 1] && i2c[j] == list[j - 1];
    }
    assert f.Keys == (set i | 1 <= i < |i2c| :: i2c[i]) by {
      forall c | c in f ensures c in (set i | 1 <= i < |i2c| :: i2c[i]) {
        var m :| 0 <= m < |list| && list[m] == c;
        assert i2c[m + 1] == c;
      }
    }
  }

  class CharMap {
    /** Character code minus offset -> index; 0 for a character not in the map. */
    const c2i: seq<int>
    const charOffset: int
    /** Index -> character; index 0 is reserved as the null character. */
    const i2c: seq<char>
    /** The frequency map the table was built from. */
    ghost const frequency: map<char, int>

    /** The table invariant: indices `1..n` are assigned, in order of descending
        frequency, to exactly the `n` characters of the frequency map, and the
        two tables are inverse to each other. */
    ghost predicate Valid()
    {
      Bounded() && Tables(c2i, charOffset, i2c, frequency)
    }

    /** Every entry of the forward table is an index of the reverse table. */
    predicate Bounded()
    {
      |i2c| >= 1 && forall j | 0 <= j < |c2i| :: 0 <= c2i[j] < |i2c|
    }

    /** The number of characters in the table. */
    function Size(): nat
      requires Valid()
    {
      |i2c| - 1
    }

    /** Builds the table from character frequencies: characters are sorted by
        descending frequency and numbered from 1. The order in which the map's
        keys are listed before sorting is not specified by the source, and is
        not here. */
    constructor (frequencyMap: map<char, int>)
      requires forall c | c in frequencyMap :: 0 <= frequencyMap[c] <= IntMax
      ensures Valid() && frequency == frequencyMap
    {
      var forward, min, backward := BuildTables(frequencyMap);
      c2i := forward;
      charOffset := min;
      i2c := backward;
      frequency := frequencyMap;
    }

    /** `charToInt(c)`: 0 when the character is below the minimum, above the
        maximum, or an unseen character in between. */
    function CharToInt(c: char): (r: int)
      requires Bounded()
      ensures 0 <= r < |i2c|
    {
      var i := c as int - charOffset;
      if i < 0 then 0
      else if i >= |c2i| then 0
      else c2i[i]
    }

    /** A character translates to a non-zero index exactly when it is in the
        table, and that index leads back to it. */
    lemma CharToIntSpec(c: char)
      requires Valid()
      ensures CharToInt(c) != 0 <==> c in frequency
      ensures CharToInt(c) != 0 ==> i2c[CharToInt(c)] == c
    {
      if c in frequency {
        var k :| 1 <= k < |i2c| && i2c[k] == c;
      }
    }

    /** `intToChar(i)`: the null character outside `0..n`. */
    function IntToChar(i: int): char
    {
      if i < 0 || i >= |i2c| then '\0' else i2c[i]
    }

    /** Every character of the word is in the table. */
    ghost predicate Known(w: string)
    {
      forall i | 0 <= i < |w| :: w[i] in frequency
    }

    /** `translate(String)`, as a function: `charToInt` at every position. */
    function Translation(w: string): (t: seq<int>)
      requires Bounded()
    {
      seq(|w|, i requires 0 <= i < |w| => CharToInt(w[i]))
    }

    /** `translate(int[])`, as a function: `intToChar` at every position. */
    function Spelling(t: seq<int>): string
    {
      seq(|t|, i requires 0 <= i < |t| => IntToChar(t[i]))
    }

    /** `translate(String)`. */
    method Translate(word: string) returns (t: seq<int>)
      requires Valid()
      ensures t == Translation(word)
    {
      var translation := new int[|word|];
      var i := 0;
      while i < |word|
        invariant 0 <= i <= |word|
        invariant forall j | 0 <= j < i :: translation[j] == CharToInt(word[j])
      {
        var ci := CharToInt(word[i]);
        translation[i] := ci;
        i := i + 1;
      }
      t := translation[..];
    }

    /** `translate(int[])` (the interning of the result is not modelled). */
    method TranslateBack(word: seq<int>) returns (s: string)
      ensures s == Spelling(word)
    {
      s := [];
      for i := 0 to |word|
        invariant s == Spelling(word[..i])
      {
        var c := IntToChar(word[i]);
        s := s + [c];
      }
      assert word[..|word|] == word;
    }

    /** Translating a word of known characters and back gives the word. */
    lemma TranslationRoundTrip(w: string)
      requires Valid() && Known(w)
      ensures Spelling(Translation(w)) == w
      ensures forall i | 0 <= i < |w| :: 1 <= Translation(w)[i] <= Size()
    {
      forall i | 0 <= i < |w| ensures 1 <= Translation(w)[i] <= Size() && Spelling(Translation(w))[i] == w[i] {
        CharToIntSpec(w[i]);
      }
    }

    /** Spelling out indices `1..n` and translating back gives the indices. */
    lemma SpellingRoundTrip(t: seq<int>)
      requires Valid()
      requires forall i | 0 <= i < |t| :: 1 <= t[i] <= Size()
      ensures Translation(Spelling(t)) == t
      ensures Known(Spelling(t))
    {
      forall i | 0 <= i < |t| ensures Spelling(t)[i] in frequency && Translation(Spelling(t))[i] == t[i] {
        IntToCharSpec(t[i]);
      }
    }

    /** Every index of the table names a character of the table that
        translates back to it. */
    lemma IntToCharSpec(k: int)
      requires Valid() && 1 <= k <= Size()
      ensures IntToChar(k) in frequency && CharToInt(IntToChar(k)) == k
    {
      assert IntToChar(k) == i2c[k];
    }

    /** `characterCount(word)` as a function: None when some character does not
        translate, else the multiset of the translated characters, sized `n+1`. */
    function CharacterCountOf(w: string): Option<Bag>
      requires Bounded()
    {
      if forall i | 0 <= i < |w| :: CharToInt(w[i]) != 0
      then Some(Plus(Empty(|i2c|), Translation(w)))
      else None
    }

    /** What `characterCount` promises: null exactly for a word with an unknown
        character; otherwise a valid count of size `n+1` whose total is the
        word's length and whose count at `k` is the number of characters
        mapping to `k`. */
    lemma CharacterCountSpec(w: string)
      requires Valid()
      ensures CharacterCountOf(w).Some? <==> Known(w)
      ensures CharacterCountOf(w).Some? ==>
        var b := CharacterCountOf(w).value;
        && b.Valid() && b.total == |w| && |b.counts| == Size() + 1 && b.counts[0] == 0
        && forall k | 0 <= k < |b.counts| :: b.counts[k] == Occurrences(Translation(w), k)
    {
      KnownIffTranslated(w);
      if CharacterCountOf(w).Some? {
        var t := Translation(w);
        EmptyValid(|i2c|);
        IncreaseAllIsPlus(Empty(|i2c|), t);
        NoOccurrences(t, 0);
      }
    }

    /** A word translates without a zero exactly when all its characters are
        in the table. */
    lemma KnownIffTranslated(w: string)
      requires Valid()
      ensures (forall i | 0 <= i < |w| :: CharToInt(w[i]) != 0) <==> Known(w)
    {
      forall i | 0 <= i < |w| ensures CharToInt(w[i]) != 0 <==> w[i] in frequency {
        CharToIntSpec(w[i]);
      }
    }

    /** `characterCount(word)`. */
    method CharacterCount(word: string) returns (cc: CharCount?)
      requires Bounded()
      ensures cc == null <==> CharacterCountOf(word).None?
      ensures cc != null ==> fresh(cc) && fresh(cc.counts) && cc.Valid() && cc.Value() == CharacterCountOf(word).value
    {
      cc := new CharCount(|i2c|);
      ghost var t := Translation(word);
      ghost var empty := Empty(|i2c|);
      var k := 0;
      while k < |word|
        invariant 0 <= k <= |word|
        invariant fresh(cc) && fresh(cc.counts) && cc.Valid() && cc.counts.Length == |i2c|
        invariant forall j | 0 <= j < k :: t[j] != 0
        invariant cc.Value() == Plus(empty, t[..k])
      {
        var i := CharToInt(word[k]);
        assert i == t[k];
        if i == 0 {
          assert CharacterCountOf(word).None?;
          return null;
        }
        var ok := cc.Inc(i);
        if !ok {
          return null;
        }
        PlusStep(empty, t, k);
        k := k + 1;
      }
      assert t[..k] == t;
      assert forall j | 0 <= j < |word| :: CharToInt(word[j]) != 0 by {
        assert forall j | 0 <= j < |word| :: t[j] == CharToInt(word[j]);
      }
    }

    /** The two lookups are inverse on mapped characters and on `1..n`. */
    lemma RoundTrip()
      requires Valid()
      ensures forall c | c in frequency :: IntToChar(CharToInt(c)) == c
      ensures forall i | 1 <= i <= Size() :: CharToInt(IntToChar(i)) == i
    {
      forall c | c in frequency ensures IntToChar(CharToInt(c)) == c {
        CharToIntSpec(c);
      }
      forall i | 1 <= i <= Size() ensures CharToInt(IntToChar(i)) == i {
        assert IntToChar(i) == i2c[i];
      }
    }

    /** A strictly more frequent character gets a strictly smaller index. */
    lemma MoreFrequentFirst(a: char, b: char)
      requires Valid() && a in frequency && b in frequency
      requires frequency[a] > frequency[b]
      ensures CharToInt(a) < CharToInt(b)
    {
    }

    /** The assigned indices are exactly `1..n`; index 0 stands for no character. */
    lemma IndicesAreOneToN()
      requires Valid()
      ensures forall c | c in frequency :: 1 <= CharToInt(c) <= Size()
      ensures forall i | 1 <= i <= Size() :: IntToChar(i) in frequency
      ensures Size() == |frequency|
    {
    }
  }

  /** `new ArrayList<>(frequencyMap.keySet())`: the keys, each once, in an
      order the source leaves unspecified. */
  method KeyList(m: map<char, int>) returns (keys: seq<char>)
    ensures Distinct(keys) && |keys| == |m|
    ensures forall c :: c in m <==> c in keys
  {
    keys := [];
    var rest := m.Keys;
    while rest != {}
      invariant Distinct(keys)
      invariant forall c :: c in m <==> c in keys || c in rest
      invariant forall c | c in rest :: c !in keys
      decreases |rest|
    {
      var c :| c in rest;
      keys := keys + [c];
      rest := rest - {c};
    }
    assert |keys| == |m| by {
      assert (set x | x in keys) == m.Keys;
      DistinctCardinality(keys);
    }
  }

  /** The body of the constructor: sorts the keys, finds their code range and
      fills both tables. */
  method BuildTables(frequencyMap: map<char, int>) returns (c2i: seq<int>, offset: int, i2c: seq<char>)
    ensures Tables(c2i, offset, i2c, frequencyMap)
    ensures |i2c| >= 1 && forall j | 0 <= j < |c2i| :: 0 <= c2i[j] < |i2c|
  {
    var list := SortedKeys(frequencyMap);
    var min, max := CodeRange(list);
    var width := Wrap32(1 + max - min);
    assert list == [] ==> width == 2;
    c2i, i2c := FillTables(list, min, width);
    offset := min;
    FilledTables(list, min, c2i, i2c, frequencyMap);
  }

  /** The keys of the frequency map, sorted by descending frequency. */
  method SortedKeys(m: map<char, int>) returns (list: seq<char>)
    ensures Distinct(list) && |list| == |m| && SortedByFrequency(list, m)
    ensures forall c :: c in m <==> c in list
  {
    var keys := KeyList(m);
    list := SortByFrequency(keys, m);
    DistinctByMultiset(keys, list);
    assert |list| == |keys| by {
      assert |multiset(list)| == |multiset(keys)|;
    }
    assert forall c :: c in list <==> c in keys by {
      assert forall c :: c in list <==> c in multiset(list);
      assert forall c :: c in keys <==> c in multiset(keys);
    }
  }

  /** The min/max loop of the constructor, starting from `Integer.MAX_VALUE`
      and `Integer.MIN_VALUE`. */
  method CodeRange(list: seq<char>) returns (min: int, max: int)
    ensures list == [] ==> min == IntMax && max == IntMin
    ensures list != [] ==> 0 <= min <= max <= 0x10FFFF
    ensures forall j | 0 <= j < |list| :: min <= list[j] as int <= max
  {
    min, max := IntMax, IntMin;
    var k := 0;
    while k < |list|
      invariant 0 <= k <= |list|
      invariant k == 0 ==> min == IntMax && max == IntMin
      invariant k > 0 ==> 0 <= min <= max <= 0x10FFFF
      invariant forall j | 0 <= j < k :: min <= list[j] as int <= max
    {
      var i := list[k] as int;
      if i > max {
        max := i;
      }
      if i < min {
        min := i;
      }
      k := k + 1;
    }
  }

  /** The constructor's filling loop: `i2c[i] = ch` and `c2i[ch - offset] = i`
      for the `i`-th character of the sorted list. */
  method FillTables(list: seq<char>, offset: int, width: int) returns (c2i: seq<int>, i2c: seq<char>)
    requires width >= 0 && Distinct(list)
    requires forall j | 0 <= j < |list| :: 0 <= list[j] as int - offset < width
    ensures |c2i| == width && |i2c| == |list| + 1 && i2c[0] == '\0'
    ensures forall j | 1 <= j < |i2c| :: i2c[j] == list[j - 1]
    ensures forall i | 1 <= i < |i2c| :: 0 <= i2c[i] as int - offset < |c2i| && c2i[i2c[i] as int - offset] == i
    ensures forall j | 0 <= j < |c2i| :: 0 <= c2i[j] < |i2c| && (c2i[j] != 0 ==> i2c[c2i[j]] as int - offset == j)
  {
    c2i := seq(width, _ => 0);
    i2c := ['\0'];
    var i := 1;
    while i <= |list|
      invariant 1 <= i <= |list| + 1
      invariant |c2i| == width && |i2c| == i && i2c[0] == '\0'
      invariant forall j | 1 <= j < i :: i2c[j] == list[j - 1]
      invariant forall j | 1 <= j < i :: 0 <= i2c[j] as int - offset < width && c2i[i2c[j] as int - offset] == j
      invariant forall j | 0 <= j < width :: 0 <= c2i[j] < i
      invariant forall j | 0 <= j < width :: c2i[j] != 0 ==> i2c[c2i[j]] as int - offset == j
    {
      var ch := list[i - 1];
      i2c := i2c + [ch];
      c2i := c2i[ch as int - offset := i];
      i := i + 1;
    }
  }

  lemma {:induction false} NoOccurrences(t: seq<int>, k: int)
    requires forall i | 0 <= i < |t| :: t[i] != k
    ensures Occurrences(t, k) == 0
  {
    if t != [] {
      NoOccurrences(t[1..], k);
    }
  }

  /** Adding one more letter of the word to a prefix count. */
  lemma PlusStep(b: Bag, t: seq<int>, k: nat)
    requires k < |t| && 0 <= t[k] < |b.counts|
    ensures Plus(b, t[..k + 1]) == Increase(Plus(b, t[..k]), t[k])
  {
    assert t[..k + 1] == t[..k] + [t[k]];
    forall j | 0 <= j < |b.counts| ensures Occurrences(t[..k + 1], j) == Occurrences(t[..k], j) + (if t[k] == j then 1 else 0) {
      OccurrencesAppend(t[..k], t[k], j);
    }
  }

  lemma {:induction false} DistinctCardinality(s: seq<char>)
    requires Distinct(s)
    ensures |(set x | x in s)| == |s|
  {
    if s != [] {
      var t := s[..|s| - 1];
      assert s == t + [s[|s| - 1]];
      DistinctCardinality(t);
      assert s[|s| - 1] !in t;
      assert (set x | x in s) == (set x | x in t) + {s[|s| - 1]};
    }
  }
}
