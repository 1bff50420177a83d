/** The orders the result sinks and the walker sort by: Java's natural string
    order, the comparator on word lists shared by src/dfh/anagrams/UniqStower.java,
    src/dfh/anagrams/SortedUniqStower.java and src/dfh/anagrams/TrieWalker.java,
    the de-duplicating sorted set built on it, and sorting a word list. */
module ListOrder {

  /** `String.compareTo`: the difference of the first differing characters,
      else the difference of the lengths. */
  function StringCompare(a: string, b: string): int
  {
    if a == [] || b == [] then |a| - |b|
    else if a[0] != b[0] then a[0] as int - b[0] as int
    else StringCompare(a[1..], b[1..])
  }

  /** The string order is a total order: zero exactly on equal strings,
      antisymmetric in sign, and transitive. */
  lemma {:induction false} StringCompareZero(a: string, b: string)
    ensures StringCompare(a, b) == 0 <==> a == b
  {
    if a != [] && b != [] && a[0] == b[0] {
      StringCompareZero(a[1..], b[1..]);
      assert a == [a[0]] + a[1..] && b == [b[0]] + b[1..];
    }
  }

  lemma {:induction false} StringCompareAntisymmetric(a: string, b: string)
    ensures StringCompare(a, b) < 0 <==> StringCompare(b, a) > 0
  {
    if a != [] && b != [] && a[0] == b[0] {
      StringCompareAntisymmetric(a[1..], b[1..]);
    }
  }

  lemma {:induction false} StringCompareTransitive(a: string, b: string, c: string)
    requires StringCompare(a, b) < 0 && StringCompare(b, c) < 0
    ensures StringCompare(a, c) < 0
  {
    if a != [] && b != [] && c != [] && a[0] == b[0] && b[0] == c[0] {
      StringCompareTransitive(a[1..], b[1..], c[1..]);
    }
  }

  /** The comparator of the sinks and the walker: a proper prefix comes first,
      otherwise the first differing word decides. */
  function ListCompare(a: seq<string>, b: seq<string>): int
  {
    if a == [] && b == [] then 0
    else if a == [] then -1
    else if b == [] then 1
    else if StringCompare(a[0], b[0]) != 0 then StringCompare(a[0], b[0])
    else ListCompare(a[1..], b[1..])
  }

  /** The comparator is zero exactly on equal lists. */
  lemma {:induction false} ListCompareZero(a: seq<string>, b: seq<string>)
    ensures ListCompare(a, b) == 0 <==> a == b
  {
    if a != [] && b != [] {
      StringCompareZero(a[0], b[0]);
      if a[0] == b[0] {
        ListCompareZero(a[1..], b[1..]);
        assert a == [a[0]] + a[1..] && b == [b[0]] + b[1..];
      }
    }
  }

  /** A proper prefix compares less. */
  lemma {:induction false} PrefixFirst(a: seq<string>, b: seq<string>)
    requires |a| < |b| && a == b[..|a|]
    ensures ListCompare(a, b) < 0
  {
    if a != [] {
      StringCompareZero(a[0], b[0]);
      assert a[1..] == b[1..][..|a| - 1];
      PrefixFirst(a[1..], b[1..]);
    }
  }

  /** After a common prefix, the first differing word decides. */
  lemma {:induction false} FirstDifferenceDecides(a: seq<string>, b: seq<string>, i: nat)
    requires i < |a| && i < |b| && a[..i] == b[..i] && a[i] != b[i]
    ensures ListCompare(a, b) == StringCompare(a[i], b[i]) != 0
  {
    StringCompareZero(a[0], b[0]);
    StringCompareZero(a[i], b[i]);
    if i > 0 {
      assert a[0] == a[..i][0];
      assert a[1..][..i - 1] == b[1..][..i - 1] by {
        assert a[1..][..i - 1] == a[..i][1..];
        assert b[1..][..i - 1] == b[..i][1..];
      }
      FirstDifferenceDecides(a[1..], b[1..], i - 1);
    }
  }

  lemma {:induction false} ListCompareAntisymmetric(a: seq<string>, b: seq<string>)
    ensures ListCompare(a, b) < 0 <==> ListCompare(b, a) > 0
  {
    if a != [] && b != [] {
      StringCompareAntisymmetric(a[0], b[0]);
      StringCompareZero(a[0], b[0]);
      StringCompareZero(b[0], a[0]);
      if StringCompare(a[0], b[0]) == 0 {
        ListCompareAntisymmetric(a[1..], b[1..]);
      }
    }
  }

  lemma {:induction false} ListCompareTransitive(a: seq<string>, b: seq<string>, c: seq<string>)
    requires ListCompare(a, b) < 0 && ListCompare(b, c) < 0
    ensures ListCompare(a, c) < 0
  {
    if a != [] && b != [] && c != [] {
      StringCompareZero(a[0], b[0]);
      StringCompareZero(b[0], c[0]);
      if StringCompare(a[0], b[0]) == 0 && StringCompare(b[0], c[0]) == 0 {
        ListCompareTransitive(a[1..], b[1..], c[1..]);
      } else if StringCompare(a[0], b[0]) == 0 {
        assert a[0] == b[0];
      } else if StringCompare(b[0], c[0]) == 0 {
        assert b[0] == c[0];
      } else {
        StringCompareTransitive(a[0], b[0], c[0]);
      }
    }
  }

  /** The comparator as the source writes it: a loop over the positions of
      both lists. */
  method Compare(a: seq<string>, b: seq<string>) returns (c: int)
    ensures c == ListCompare(a, b)
  {
    var i := 0;
    while true
      invariant i <= |a| && i <= |b|
      invariant ListCompare(a[i..], b[i..]) == ListCompare(a, b)
      decreases |a| - i
    {
      var ab, bb := i >= |a|, i >= |b|;
      if ab && bb {
        return 0;
      }
      if ab {
        return -1;
      }
      if bb {
        return 1;
      }
      c := StringCompare(a[i], b[i]);
      if c != 0 {
        return c;
      }
      assert a[i..][1..] == a[i + 1..] && b[i..][1..] == b[i + 1..];
      i := i + 1;
    }
  }

  /** The state of a `TreeSet` ordered by the comparator: its elements in
      strictly ascending order. */
  ghost predicate StrictlyAscending(s: seq<seq<string>>)
  {
    forall i, j {:trigger ListCompare(s[i], s[j])} | 0 <= i < j < |s| :: ListCompare(s[i], s[j]) < 0
  }

  /** `TreeSet.add`: the list is inserted at its place unless an equal one is
      already there. */
  function SetInsert(s: seq<seq<string>>, x: seq<string>): seq<seq<string>>
  {
    if s == [] then [x]
    else if ListCompare(x, s[0]) < 0 then [x] + s
    else if ListCompare(x, s[0]) == 0 then s
    else [s[0]] + SetInsert(s[1..], x)
  }

  /** Insertion adds exactly `x`, and grows the set by one exactly when `x`
      was not there. */
  lemma {:induction false} SetInsertElements(s: seq<seq<string>>, x: seq<string>)
    requires StrictlyAscending(s)
    ensures forall y :: y in SetInsert(s, x) <==> y in s || y == x
    ensures |SetInsert(s, x)| == if x in s then |s| else |s| + 1
  {
    if s != [] {
      ListCompareZero(x, s[0]);
      var c := ListCompare(x, s[0]);
      if c < 0 {
        forall j | 0 <= j < |s| ensures x != s[j] {
          if j > 0 {
            ListCompareTransitive(x, s[0], s[j]);
          }
          ListCompareZero(x, s[j]);
        }
      } else if c > 0 {
        SetInsertElements(s[1..], x);
        assert s == [s[0]] + s[1..];
      }
    }
  }

  /** Insertion keeps the set strictly ascending. */
  lemma {:induction false} SetInsertAscending(s: seq<seq<string>>, x: seq<string>)
    requires StrictlyAscending(s)
    ensures StrictlyAscending(SetInsert(s, x))
  {
    if s != [] {
      var c := ListCompare(x, s[0]);
      if c < 0 {
        forall j | 0 <= j < |s| ensures ListCompare(x, s[j]) < 0 {
          if j > 0 {
            ListCompareTransitive(x, s[0], s[j]);
          }
        }
        ConsAscending(x, s);
      } else if c > 0 {
        var r := SetInsert(s[1..], x);
        SetInsertAscending(s[1..], x);
        SetInsertElements(s[1..], x);
        ListCompareAntisymmetric(s[0], x);
        forall j | 0 <= j < |r| ensures ListCompare(s[0], r[j]) < 0 {
          assert r[j] in r;
          HeadBelowRest(s, r[j], x);
        }
        ConsAscending(s[0], r);
      }
    }
  }

  lemma ConsAscending(h: seq<string>, r: seq<seq<string>>)
    requires StrictlyAscending(r) && forall j | 0 <= j < |r| :: ListCompare(h, r[j]) < 0
    ensures StrictlyAscending([h] + r)
  {
    forall i, j | 0 <= i < j < |[h] + r| ensures ListCompare(([h] + r)[i], ([h] + r)[j]) < 0 {
      if i > 0 {
        assert ([h] + r)[i] == r[i - 1];
      }
      assert ([h] + r)[j] == r[j - 1];
    }
  }

  lemma HeadBelowRest(s: seq<seq<string>>, y: seq<string>, x: seq<string>)
    requires StrictlyAscending(s) && s != [] && ListCompare(s[0], x) < 0
    requires y in s[1..] || y == x
    ensures ListCompare(s[0], y) < 0
  {
    if y != x {
      var k :| 0 <= k < |s[1..]| && s[1..][k] == y;
      assert s[k + 1] == y;
    }
  }

  /** Inserting a list the set already holds changes nothing. */
  lemma SetInsertPresent(s: seq<seq<string>>, x: seq<string>)
    requires StrictlyAscending(s) && x in s
    ensures SetInsert(s, x) == s
  {
    var k :| 0 <= k < |s| && s[k] == x;
    SetInsertAt(s, k);
  }

  lemma {:induction false} SetInsertAt(s: seq<seq<string>>, k: nat)
    requires StrictlyAscending(s) && k < |s|
    ensures SetInsert(s, s[k]) == s
  {
    if k == 0 {
      ListCompareZero(s[0], s[0]);
    } else {
      assert ListCompare(s[0], s[k]) < 0;
      ListCompareAntisymmetric(s[0], s[k]);
      AscendingTail(s);
      assert s[1..][k - 1] == s[k];
      SetInsertAt(s[1..], k - 1);
      assert s == [s[0]] + s[1..];
    }
  }

  lemma AscendingTail(s: seq<seq<string>>)
    requires StrictlyAscending(s) && s != []
    ensures StrictlyAscending(s[1..])
  {
    forall i, j | 0 <= i < j < |s| - 1 ensures ListCompare(s[1..][i], s[1..][j]) < 0 {
      assert s[1..][i] == s[i + 1] && s[1..][j] == s[j + 1];
    }
  }

  /** Strings in natural order. */
  ghost predicate SortedStrings(s: seq<string>)
  {
    forall i, j {:trigger StringCompare(s[i], s[j])} | 0 <= i < j < |s| :: StringCompare(s[i], s[j]) <= 0
  }

  function InsertString(w: string, s: seq<string>): seq<string>
  {
    if s == [] || StringCompare(w, s[0]) <= 0 then [w] + s else [s[0]] + InsertString(w, s[1..])
  }

  lemma {:induction false} InsertStringSpec(w: string, s: seq<string>)
    requires SortedStrings(s)
    ensures SortedStrings(InsertString(w, s))
    ensures multiset(InsertString(w, s)) == multiset(s) + multiset{w}
  {
    InsertStringMultiset(w, s);
    if s != [] {
      if StringCompare(w, s[0]) <= 0 {
        forall j | 0 <= j < |s| ensures StringCompare(w, s[j]) <= 0 {
          if j > 0 {
            StringAtMostTransitive(w, s[0], s[j]);
          }
        }
        ConsSorted(w, s);
      } else {
        SortedTail(s);
        InsertStringSpec(w, s[1..]);
        HeadBelowInserted(w, s);
        ConsSorted(s[0], InsertString(w, s[1..]));
      }
    }
  }

  /** Insertion adds exactly one `w`. */
  lemma {:induction false} InsertStringMultiset(w: string, s: seq<string>)
    ensures multiset(InsertString(w, s)) == multiset(s) + multiset{w}
  {
    if s != [] && StringCompare(w, s[0]) > 0 {
      InsertStringMultiset(w, s[1..]);
      assert s == [s[0]] + s[1..];
    }
  }

  lemma SortedTail(s: seq<string>)
    requires SortedStrings(s) && s != []
    ensures SortedStrings(s[1..])
  {
    forall i, j | 0 <= i < j < |s| - 1 ensures StringCompare(s[1..][i], s[1..][j]) <= 0 {
      assert s[1..][i] == s[i + 1] && s[1..][j] == s[j + 1];
    }
  }

  /** When `w` goes after the head, the head stays below everything inserted
      into the tail. */
  lemma HeadBelowInserted(w: string, s: seq<string>)
    requires SortedStrings(s) && s != [] && StringCompare(w, s[0]) > 0
    ensures forall j | 0 <= j < |InsertString(w, s[1..])| :: StringCompare(s[0], InsertString(w, s[1..])[j]) <= 0
  {
    var r := InsertString(w, s[1..]);
    InsertStringMultiset(w, s[1..]);
    StringCompareAntisymmetric(w, s[0]);
    forall j | 0 <= j < |r| ensures StringCompare(s[0], r[j]) <= 0 {
      assert r[j] in multiset(r);
      if r[j] != w {
        assert r[j] in multiset(s[1..]);
        var k :| 0 <= k < |s[1..]| && s[1..][k] == r[j];
        assert s[k + 1] == r[j];
      }
    }
  }

  lemma StringAtMostTransitive(a: string, b: string, c: string)
    requires StringCompare(a, b) <= 0 && StringCompare(b, c) <= 0
    ensures StringCompare(a, c) <= 0
  {
    StringCompareZero(a, b);
    StringCompareZero(b, c);
    if StringCompare(a, b) < 0 && StringCompare(b, c) < 0 {
      StringCompareTransitive(a, b, c);
    }
  }

  lemma ConsSorted(h: string, r: seq<string>)
    requires SortedStrings(r) && forall j | 0 <= j < |r| :: StringCompare(h, r[j]) <= 0
    ensures SortedStrings([h] + r)
  {
    forall i, j | 0 <= i < j < |[h] + r| ensures StringCompare(([h] + r)[i], ([h] + r)[j]) <= 0 {
      if i > 0 {
        assert ([h] + r)[i] == r[i - 1];
      }
      assert ([h] + r)[j] == r[j - 1];
    }
  }

  /** `List.sort(null)` on strings: natural order. */
  function SortStrings(s: seq<string>): seq<string>
  {
    if s == [] then [] else InsertString(s[0], SortStrings(s[1..]))
  }

  /** Sorting gives the same words in natural order. */
  lemma {:induction false} SortStringsSpec(s: seq<string>)
    ensures SortedStrings(SortStrings(s)) && multiset(SortStrings(s)) == multiset(s)
  {
    if s != [] {
      SortStringsSpec(s[1..]);
      InsertStringSpec(s[0], SortStrings(s[1..]));
      assert s == [s[0]] + s[1..];
    }
  }
}
