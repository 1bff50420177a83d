/** The result sinks: src/dfh/anagrams/AnagramStower.java and its three
    implementations. The print stream is modelled as the sequence of events
    written to it: finished lines, the `beforeDone` callback having run, and
    the flush. */
module Stowers {
  import opened ListOrder

  datatype Event = Line(text: string) | RanBeforeDone | Flushed

  /** Each word followed by one space (PassThroughStower, UniqStower). */
  function SpaceAfterEach(ws: seq<string>): string
  {
    if ws == [] then "" else ws[0] + " " + SpaceAfterEach(ws[1..])
  }

  /** The words separated by single spaces (SortedUniqStower). */
  function Joined(ws: seq<string>): string
  {
    if ws == [] then "" else if |ws| == 1 then ws[0] else ws[0] + " " + Joined(ws[1..])
  }

  /** The words of a line in which every word is followed by a space. */
  function Words(t: string): seq<string>
    decreases |t|
  {
    if t == [] then []
    else
      var i := FirstSpace(t);
      if i == |t| then [t] else [t[..i]] + Words(t[i + 1..])
  }

  /** The position of the first space, or the length when there is none. */
  function FirstSpace(t: string): (i: nat)
    ensures i <= |t| && (i < |t| ==> t[i] == ' ')
    ensures forall k | 0 <= k < i :: t[k] != ' '
  {
    if t == [] || t[0] == ' ' then 0 else 1 + FirstSpace(t[1..])
  }

  predicate NoSpace(w: string)
  {
    forall k | 0 <= k < |w| :: w[k] != ' '
  }

  lemma SpaceAfterEachAppend(a: seq<string>, b: seq<string>)
    ensures SpaceAfterEach(a + b) == SpaceAfterEach(a) + SpaceAfterEach(b)
  {
    if a != [] {
      assert (a + b)[1..] == a[1..] + b;
      SpaceAfterEachAppend(a[1..], b);
      var head := a[0] + " ";
      assert SpaceAfterEach(a + b) == head + (SpaceAfterEach(a[1..]) + SpaceAfterEach(b));
      assert SpaceAfterEach(a) == head + SpaceAfterEach(a[1..]);
    } else {
      assert a + b == b;
    }
  }

  /** A line in which every word is followed by a space splits back into the
      words, provided no word holds a space. */
  lemma {:induction false} WordsOfSpaced(ws: seq<string>)
    requires forall k | 0 <= k < |ws| :: NoSpace(ws[k])
    ensures Words(SpaceAfterEach(ws)) == ws
  {
    if ws != [] {
      var t := SpaceAfterEach(ws);
      var rest := SpaceAfterEach(ws[1..]);
      assert t == ws[0] + (" " + rest);
      FirstSpaceOf(ws[0], " " + rest);
      assert t[..|ws[0]|] == ws[0] && t[|ws[0]| + 1..] == rest;
      WordsOfSpaced(ws[1..]);
      assert ws == [ws[0]] + ws[1..];
    }
  }

  lemma FirstSpaceOf(w: string, rest: string)
    requires NoSpace(w) && rest != [] && rest[0] == ' '
    ensures FirstSpace(w + rest) == |w|
  {
    var t := w + rest;
    assert t[|w|] == ' ';
    assert forall k | 0 <= k < |w| :: t[k] == w[k];
  }

  /** The two line formats differ only by the trailing space. */
  lemma {:induction false} JoinedThenSpace(ws: seq<string>)
    requires ws != []
    ensures Joined(ws) + " " == SpaceAfterEach(ws)
  {
    if |ws| > 1 {
      JoinedThenSpace(ws[1..]);
    }
  }

  /** The sorted lines split back into the words as well. */
  lemma WordsOfJoined(ws: seq<string>)
    requires ws != [] && forall k | 0 <= k < |ws| :: NoSpace(ws[k])
    ensures Words(Joined(ws) + " ") == ws
  {
    JoinedThenSpace(ws);
    WordsOfSpaced(ws);
  }

  /** The printing loop of `handle` and `done`: each word, then a space. */
  method SpacedLine(ws: seq<string>) returns (text: string)
    ensures text == SpaceAfterEach(ws)
  {
    text := "";
    for k := 0 to |ws|
      invariant text == SpaceAfterEach(ws[..k])
    {
      SpaceAfterEachAppend(ws[..k], [ws[k]]);
      assert ws[..k + 1] == ws[..k] + [ws[k]];
      text := text + ws[k] + " ";
    }
    assert ws[..|ws|] == ws;
  }

  /** The lines printed for a sequence of lists, each word followed by a space. */
  function SpacedLines(s: seq<seq<string>>): seq<Event>
  {
    seq(|s|, i requires 0 <= i < |s| => Line(SpaceAfterEach(s[i])))
  }

  /** The lines printed for a sequence of lists by SortedUniqStower: nothing for
      an empty list. */
  function JoinedLines(s: seq<seq<string>>): seq<Event>
  {
    if s == [] then [] else JoinedLines(s[..|s| - 1]) + (if s[|s| - 1] == [] then [] else [Line(Joined(s[|s| - 1]))])
  }

  /** The inner loop of SortedUniqStower's `done`: each word, then a space, or
      the end of the line after the last word. */
  method PrintJoined(ws: seq<string>) returns (ev: seq<Event>)
    ensures ev == if ws == [] then [] else [Line(Joined(ws))]
  {
    ev := [];
    var last := |ws| - 1;
    var line := "";
    for i := 0 to |ws|
      invariant line == SpaceAfterEach(ws[..i])
      invariant ev == if i == |ws| && ws != [] then [Line(Joined(ws))] else []
    {
      if i == last {
        JoinedLast(ws);
        ev := ev + [Line(line + ws[i])];
      }
      SpaceAfterEachAppend(ws[..i], [ws[i]]);
      assert ws[..i + 1] == ws[..i] + [ws[i]];
      line := line + ws[i] + " ";
    }
  }

  /** All words but the last followed by a space, then the last word, is the
      joined line. */
  lemma {:induction false} JoinedLast(ws: seq<string>)
    requires ws != []
    ensures SpaceAfterEach(ws[..|ws| - 1]) + ws[|ws| - 1] == Joined(ws)
  {
    if |ws| > 1 {
      JoinedLast(ws[1..]);
      assert ws[..|ws| - 1] == [ws[0]] + ws[1..][..|ws| - 2];
      assert ws[1..][|ws| - 2] == ws[|ws| - 1];
    }
  }

  /** The abstract sink: the stop test and the finished flag. */
  class AnagramStower {
    var test: () -> bool
    var isDone: bool
    /** The print stream. */
    var out: seq<Event>

    /** The default test says never to stop. */
    constructor ()
      ensures !test() && !isDone && out == []
    {
      test := () => false;
      isDone := false;
      out := [];
    }

    /** `setTest(test)`. */
    method SetTest(t: () -> bool)
      modifies this`test
      ensures test == t
    {
      test := t;
    }

    /** `finished()`: from now on `done()` holds. */
    method Finished()
      modifies this`isDone
      ensures isDone
    {
      isDone := true;
    }

    /** `done()`. */
    predicate Done()
      reads this
    {
      isDone
    }
  }

  /** Prints every accepted list at once and counts them. */
  class PassThroughStower {
    const base: AnagramStower
    var n: nat

    /** The count is the number of lines printed. */
    ghost predicate Valid()
      reads this, base
    {
      n == |LinesIn(base.out)|
    }

    constructor ()
      ensures Valid() && n == 0 && fresh(base) && !base.test() && !base.isDone && base.out == []
    {
      base := new AnagramStower();
      n := 0;
    }

    /** `handle(anagram)`: unless the test says stop, prints one line and
        counts it. */
    method Handle(anagram: seq<string>)
      requires Valid()
      modifies this, base
      ensures Valid() && base.test == old(base.test) && base.isDone == old(base.isDone)
      ensures old(base.test()) ==> n == old(n) && base.out == old(base.out)
      ensures !old(base.test()) ==> n == old(n) + 1 && base.out == old(base.out) + [Line(SpaceAfterEach(anagram))]
    {
      if !base.test() {
        var text := SpacedLine(anagram);
        LinesInAppend(base.out, [Line(text)]);
        base.out := base.out + [Line(text)];
        n := n + 1;
      }
    }

    /** `done(beforeDone)`: runs the callback, then flushes. */
    method Done()
      modifies base`out
      ensures base.out == old(base.out) + [RanBeforeDone, Flushed]
    {
      base.out := base.out + [RanBeforeDone];
      base.out := base.out + [Flushed];
    }

    /** `size()`: the number of lines printed. */
    method Size() returns (s: nat)
      requires Valid()
      ensures s == |LinesIn(base.out)|
    {
      s := n;
    }
  }

  /** The lines among the events. */
  function LinesIn(es: seq<Event>): seq<string>
  {
    if es == [] then []
    else LinesIn(es[..|es| - 1]) + (if es[|es| - 1].Line? then [es[|es| - 1].text] else [])
  }

  lemma {:induction false} LinesInAppend(a: seq<Event>, b: seq<Event>)
    ensures LinesIn(a + b) == LinesIn(a) + LinesIn(b)
    decreases |b|
  {
    if b != [] {
      var b0 := b[..|b| - 1];
      assert (a + b)[..|a + b| - 1] == a + b0;
      LinesInAppend(a, b0);
    } else {
      assert a + b == a;
    }
  }

  /** Collects lists into a de-duplicating sorted set and prints them at the
      end; the stop test is not consulted. */
  class UniqStower {
    const base: AnagramStower
    var anagrams: seq<seq<string>>

    ghost predicate Valid()
      reads this
    {
      StrictlyAscending(anagrams)
    }

    constructor ()
      ensures Valid() && anagrams == [] && fresh(base) && base.out == [] && !base.isDone
    {
      base := new AnagramStower();
      anagrams := [];
    }

    /** `cmp`. */
    static method Cmp(a: seq<string>, b: seq<string>) returns (c: int)
      ensures c == 0 <==> a == b
      ensures c < 0 <==> ListCompare(a, b) < 0
    {
      c := Compare(a, b);
      ListCompareZero(a, b);
    }

    /** `handle(anagram)`: always inserts. */
    method Handle(anagram: seq<string>)
      requires Valid()
      modifies this`anagrams
      ensures Valid() && anagrams == SetInsert(old(anagrams), anagram)
      ensures forall y :: y in anagrams <==> y in old(anagrams) || y == anagram
      ensures |anagrams| == if anagram in old(anagrams) then |old(anagrams)| else |old(anagrams)| + 1
    {
      SetInsertElements(anagrams, anagram);
      SetInsertAscending(anagrams, anagram);
      anagrams := SetInsert(anagrams, anagram);
    }

    /** `size()`: the number of distinct lists handled. */
    method Size() returns (s: nat)
      ensures s == |anagrams|
    {
      s := |anagrams|;
    }

    /** `done(beforeDone)`: runs the callback, prints every list once in
        ascending order, each word followed by a space, then flushes. */
    method Done()
      requires Valid()
      modifies base`out
      ensures base.out == old(base.out) + [RanBeforeDone] + SpacedLines(anagrams) + [Flushed]
    {
      base.out := base.out + [RanBeforeDone];
      ghost var start := base.out;
      for k := 0 to |anagrams|
        invariant base.out == start + SpacedLines(anagrams[..k])
      {
        var text := SpacedLine(anagrams[k]);
        assert SpacedLines(anagrams[..k + 1]) == SpacedLines(anagrams[..k]) + [Line(text)];
        base.out := base.out + [Line(text)];
      }
      assert anagrams[..|anagrams|] == anagrams;
      base.out := base.out + [Flushed];
    }
  }

  /** Collects the lists the test lets through into a de-duplicating sorted
      set and prints them at the end with single spaces between words. */
  class SortedUniqStower {
    const base: AnagramStower
    var anagrams: seq<seq<string>>

    ghost predicate Valid()
      reads this
    {
      StrictlyAscending(anagrams)
    }

    constructor ()
      ensures Valid() && anagrams == [] && fresh(base) && !base.test() && base.out == [] && !base.isDone
    {
      base := new AnagramStower();
      anagrams := [];
    }

    /** `cmp`: the same order as UniqStower's. */
    static method Cmp(a: seq<string>, b: seq<string>) returns (c: int)
      ensures c == 0 <==> a == b
      ensures c < 0 <==> ListCompare(a, b) < 0
    {
      c := Compare(a, b);
      ListCompareZero(a, b);
    }

    /** `handle(anagram)`: inserts unless the test says stop. */
    method Handle(anagram: seq<string>)
      requires Valid()
      modifies this`anagrams
      ensures Valid()
      ensures base.test() ==> anagrams == old(anagrams)
      ensures !base.test() ==> forall y :: y in anagrams <==> y in old(anagrams) || y == anagram
      ensures !base.test() ==> |anagrams| == if anagram in old(anagrams) then |old(anagrams)| else |old(anagrams)| + 1
    {
      if !base.test() {
        SetInsertElements(anagrams, anagram);
        SetInsertAscending(anagrams, anagram);
        anagrams := SetInsert(anagrams, anagram);
      }
    }

    /** `size()`: the number of distinct lists accepted. */
    method Size() returns (s: nat)
      ensures s == |anagrams|
    {
      s := |anagrams|;
    }

    /** `done(beforeDone)`: runs the callback, prints every non-empty list
        once in ascending order, words separated by single spaces, then
        flushes. */
    method Done()
      requires Valid()
      modifies base`out
      ensures base.out == old(base.out) + [RanBeforeDone] + JoinedLines(anagrams) + [Flushed]
    {
      base.out := base.out + [RanBeforeDone];
      ghost var start := base.out;
      for k := 0 to |anagrams|
        invariant base.out == start + JoinedLines(anagrams[..k])
      {
        var ev := PrintJoined(anagrams[k]);
        assert anagrams[..k + 1][..k] == anagrams[..k];
        assert JoinedLines(anagrams[..k + 1]) == JoinedLines(anagrams[..k]) + ev;
        base.out := base.out + ev;
      }
      assert anagrams[..|anagrams|] == anagrams;
      base.out := base.out + [Flushed];
    }
  }
}
