/** The pure helpers of the command line front end
    (src/dfh/anagrams/Anagramizer.java): plural labels, the elapsed-time
    report, and the phrase built from the arguments. */
module Anagramizer {
  import opened Stowers

  /** Java's `(int)` cast of a `long`: keeps the low 32 bits, two's
      complement. */
  function ToInt(n: int): (r: int)
    ensures -0x8000_0000 <= r < 0x8000_0000
    ensures (r - n) % 0x1_0000_0000 == 0
  {
    (n + 0x8000_0000) % 0x1_0000_0000 - 0x8000_0000
  }

  /** `inflect(word, int n)`: the word itself for exactly one, the word with
      an `s` otherwise. */
  function Inflect(word: string, n: int): string
  {
    if n == 1 then word else word + "s"
  }

  /** The label is the word for exactly one, and the word plus a final `s`
      for every other count. */
  lemma InflectSpec(word: string, n: int)
    ensures Inflect(word, n) == word <==> n == 1
    ensures n != 1 ==> |Inflect(word, n)| == |word| + 1 && Inflect(word, n)[..|word|] == word && Inflect(word, n)[|word|] == 's'
  {
    assert |word + "s"| != |word|;
  }

  /** `inflect(word, long n)` as written: the count is cast to `int` first. */
  function InflectLongAsWritten(word: string, n: int): string
  {
    Inflect(word, ToInt(n))
  }

  /** A count of 2^32 + 1 milliseconds (about 49.7 days) is cast to 1 and
      labelled in the singular. */
  lemma InflectLongWraps()
    ensures InflectLongAsWritten("millisecond", 0x1_0000_0001) == "millisecond"
    ensures InflectLong("millisecond", 0x1_0000_0001) == "milliseconds"
  {
    assert ToInt(0x1_0000_0001) == 1;
    InflectSpec("millisecond", 0x1_0000_0001);
  }

  /** `inflect(word, long n)` as intended: singular for exactly one. */
  function InflectLong(word: string, n: int): string
  {
    Inflect(word, n)
  }

  /** The intended version agrees with the cast one on every count that fits
      in an `int`. */
  lemma InflectLongAgrees(word: string, n: int)
    requires -0x8000_0000 <= n < 0x8000_0000
    ensures InflectLongAsWritten(word, n) == InflectLong(word, n)
  {
    assert ToInt(n) == n;
  }

  /** Java's `/` on longs: truncates toward zero. */
  function JavaDiv(a: int, b: int): int
    requires b > 0
  {
    if a >= 0 then a / b else -((-a) / b)
  }

  /** Java's `%` on longs: the remainder takes the sign of the dividend. */
  function JavaRem(a: int, b: int): (r: int)
    requires b > 0
    ensures a == b * JavaDiv(a, b) + r
    ensures a >= 0 ==> 0 <= r < b
    ensures a < 0 ==> -b < r <= 0
  {
    a - b * JavaDiv(a, b)
  }

  datatype Unit = Hours | Minutes | Seconds | Milliseconds

  /** Larger units come first. */
  function Rank(u: Unit): nat
  {
    match u
    case Hours => 0
    case Minutes => 1
    case Seconds => 2
    case Milliseconds => 3
  }

  function UnitName(u: Unit): string
  {
    match u
    case Hours => "hour"
    case Minutes => "minute"
    case Seconds => "second"
    case Milliseconds => "millisecond"
  }

  /** What `reportTiming` prints, piece by piece: the total, the `;`
      separator, an amount of one unit, the line terminator. */
  datatype Part =
    | Total(ms: int, word: string)
    | Separator
    | Amount(n: int, unit: Unit, word: string)
    | EndOfLine

  datatype Breakdown = Breakdown(hours: int, minutes: int, seconds: int, milliseconds: int)

  /** The unit breakdown of an elapsed time in milliseconds. */
  function Split(elapsed: int): Breakdown
  {
    var sec := JavaDiv(elapsed, 1000);
    var min := JavaDiv(sec, 60);
    Breakdown(JavaDiv(min, 60), JavaRem(min, 60), JavaRem(sec, 60), JavaRem(elapsed, 1000))
  }

  function AmountOf(b: Breakdown, u: Unit): int
  {
    match u
    case Hours => b.hours
    case Minutes => b.minutes
    case Seconds => b.seconds
    case Milliseconds => b.milliseconds
  }

  /** The breakdown adds back up to the elapsed time, every unit below hours
      stays below the next unit, and all parts take the sign of the total. */
  lemma SplitSpec(elapsed: int)
    ensures var b := Split(elapsed);
      b.hours * 3600000 + b.minutes * 60000 + b.seconds * 1000 + b.milliseconds == elapsed
    ensures var b := Split(elapsed);
      elapsed >= 0 ==> b.hours >= 0 && 0 <= b.minutes < 60 && 0 <= b.seconds < 60 && 0 <= b.milliseconds < 1000
    ensures var b := Split(elapsed);
      elapsed < 0 ==> b.hours <= 0 && -60 < b.minutes <= 0 && -60 < b.seconds <= 0 && -1000 < b.milliseconds <= 0
  {
    var sec := JavaDiv(elapsed, 1000);
    var min := JavaDiv(sec, 60);
    assert elapsed == 1000 * sec + JavaRem(elapsed, 1000);
    assert sec == 60 * min + JavaRem(sec, 60);
    assert min == 60 * JavaDiv(min, 60) + JavaRem(min, 60);
    assert elapsed >= 0 ==> sec >= 0 && min >= 0;
    assert elapsed < 0 ==> sec <= 0 && min <= 0;
  }

  /** The largest unit printed: hours if there are any, else minutes, else
      seconds; 4 when the report gives no breakdown. */
  function FirstPrinted(b: Breakdown): nat
  {
    if b.hours > 0 then 0 else if b.minutes > 0 then 1 else if b.seconds > 0 then 2 else 4
  }

  function Units(): seq<Unit>
  {
    [Hours, Minutes, Seconds, Milliseconds]
  }

  /** The report for an elapsed time: the total, then, when any of hours,
      minutes or seconds is positive, the separator and every unit from the
      largest positive one down to milliseconds. */
  function Report(elapsed: int): seq<Part>
  {
    ReportOf(elapsed, Split(elapsed))
  }

  /** The report for an elapsed time and its breakdown. */
  function ReportOf(elapsed: int, b: Breakdown): seq<Part>
  {
    var first := FirstPrinted(b);
    [Total(elapsed, InflectLong("millisecond", elapsed))]
    + (if first < 4 then [Separator] + Amounts(b, Units()[first..]) else [])
    + [EndOfLine]
  }

  function Amounts(b: Breakdown, us: seq<Unit>): (r: seq<Part>)
    ensures |r| == |us|
    ensures forall k | 0 <= k < |us| :: r[k] == Amount(AmountOf(b, us[k]), us[k], InflectLong(UnitName(us[k]), AmountOf(b, us[k])))
  {
    seq(|us|, k requires 0 <= k < |us| => Amount(AmountOf(b, us[k]), us[k], InflectLong(UnitName(us[k]), AmountOf(b, us[k]))))
  }

  /** Unit `u` appears in a report. */
  predicate Printed(out: seq<Part>, u: Unit)
  {
    exists k | 0 <= k < |out| :: out[k].Amount? && out[k].unit == u
  }

  /** `reportTiming(time)`, given the elapsed time: breaks it into units, then
      prints them. */
  method ReportTiming(elapsed: int) returns (out: seq<Part>)
    ensures out == Report(elapsed)
  {
    var milliseconds := elapsed;
    var seconds := JavaDiv(milliseconds, 1000);
    milliseconds := JavaRem(milliseconds, 1000);
    var minutes := JavaDiv(seconds, 60);
    seconds := JavaRem(seconds, 60);
    var hours := JavaDiv(minutes, 60);
    minutes := JavaRem(minutes, 60);
    out := PrintBreakdown(elapsed, Breakdown(hours, minutes, seconds, milliseconds));
  }

  /** The printing half of `reportTiming`: the total, then the largest
      positive unit and all smaller ones, with a `;` before the first. */
  method PrintBreakdown(elapsed: int, b: Breakdown) returns (out: seq<Part>)
    ensures out == ReportOf(elapsed, b)
  {
    var hours, minutes, seconds, milliseconds := b.hours, b.minutes, b.seconds, b.milliseconds;
    out := [Total(elapsed, InflectLong("millisecond", elapsed))];
    var foundFirst := false;
    if hours > 0 {
      if !foundFirst {
        out := out + [Separator];
        foundFirst := true;
      }
      out := out + [Amount(hours, Hours, InflectLong("hour", hours))];
    }
    if foundFirst || minutes > 0 {
      if !foundFirst {
        out := out + [Separator];
        foundFirst := true;
      }
      out := out + [Amount(minutes, Minutes, InflectLong("minute", minutes))];
    }
    if foundFirst || seconds > 0 {
      if !foundFirst {
        out := out + [Separator];
        foundFirst := true;
      }
      out := out + [Amount(seconds, Seconds, InflectLong("second", seconds))];
    }
    if foundFirst {
      out := out + [Amount(milliseconds, Milliseconds, InflectLong("millisecond", milliseconds))];
    }
    out := out + [EndOfLine];
  }

  /** Which units a report shows: a unit is printed exactly when it or some
      larger unit is positive; milliseconds only alongside a larger unit. */
  lemma ReportPrints(elapsed: int, b: Breakdown, u: Unit)
    ensures Printed(ReportOf(elapsed, b), u) <==> FirstPrinted(b) <= Rank(u) && FirstPrinted(b) < 4
  {
    if FirstPrinted(b) <= Rank(u) && FirstPrinted(b) < 4 {
      ShownUnitPrinted(elapsed, b, u);
    }
    if Printed(ReportOf(elapsed, b), u) {
      PrintedUnitShown(elapsed, b, u);
    }
  }

  lemma ShownUnitPrinted(elapsed: int, b: Breakdown, u: Unit)
    requires FirstPrinted(b) <= Rank(u) && FirstPrinted(b) < 4
    ensures Printed(ReportOf(elapsed, b), u)
  {
    var out := ReportOf(elapsed, b);
    var first := FirstPrinted(b);
    var tail := Amounts(b, Units()[first..]);
    assert Units()[first..][Rank(u) - first] == u;
    assert out[2 + Rank(u) - first] == tail[Rank(u) - first];
  }

  lemma PrintedUnitShown(elapsed: int, b: Breakdown, u: Unit)
    requires Printed(ReportOf(elapsed, b), u)
    ensures FirstPrinted(b) <= Rank(u) && FirstPrinted(b) < 4
  {
    var out := ReportOf(elapsed, b);
    var first := FirstPrinted(b);
    var k :| 0 <= k < |out| && out[k].Amount? && out[k].unit == u;
    assert first < 4;
    var tail := Amounts(b, Units()[first..]);
    assert out[k] == tail[k - 2];
    assert Units()[first..][k - 2] == Units()[first + k - 2];
  }

  /** Once a unit is printed, every smaller unit down to milliseconds is
      printed too. */
  lemma PrintedCascades(elapsed: int, b: Breakdown, u: Unit, v: Unit)
    requires Printed(ReportOf(elapsed, b), u) && Rank(u) <= Rank(v)
    ensures Printed(ReportOf(elapsed, b), v)
  {
    ReportPrints(elapsed, b, u);
    ReportPrints(elapsed, b, v);
  }

  /** The separator appears exactly once when hours, minutes or seconds are
      printed, and not at all otherwise; when present it directly follows the
      total. */
  lemma SeparatorOnce(elapsed: int, b: Breakdown)
    ensures var out := ReportOf(elapsed, b);
      multiset(out)[Separator] == if Printed(out, Hours) || Printed(out, Minutes) || Printed(out, Seconds) then 1 else 0
    ensures var out := ReportOf(elapsed, b);
      multiset(out)[Separator] == 1 ==> out[1] == Separator
  {
    ReportPrints(elapsed, b, Hours);
    ReportPrints(elapsed, b, Minutes);
    ReportPrints(elapsed, b, Seconds);
    SeparatorCount(elapsed, b);
  }

  lemma SeparatorCount(elapsed: int, b: Breakdown)
    ensures var out := ReportOf(elapsed, b);
      multiset(out)[Separator] == (if FirstPrinted(b) < 4 then 1 else 0)
      && (FirstPrinted(b) < 4 ==> out[1] == Separator)
  {
    var total := Total(elapsed, InflectLong("millisecond", elapsed));
    if FirstPrinted(b) < 4 {
      SeparatorWithUnits(elapsed, b);
    } else {
      assert ReportOf(elapsed, b) == [total] + [EndOfLine];
    }
  }

  lemma SeparatorWithUnits(elapsed: int, b: Breakdown)
    requires FirstPrinted(b) < 4
    ensures var out := ReportOf(elapsed, b);
      multiset(out)[Separator] == 1 && out[1] == Separator
  {
    var total := Total(elapsed, InflectLong("millisecond", elapsed));
    var tail := Amounts(b, Units()[FirstPrinted(b)..]);
    NoSeparatorAmong(b, Units()[FirstPrinted(b)..]);
    var out := [total] + [Separator] + tail + [EndOfLine];
    assert ReportOf(elapsed, b) == out;
    assert multiset(out) == multiset([total]) + multiset([Separator]) + multiset(tail) + multiset([EndOfLine]);
  }

  lemma NoSeparatorAmong(b: Breakdown, us: seq<Unit>)
    ensures multiset(Amounts(b, us))[Separator] == 0
  {
  }

  /** `String.trim()`: drops every character up to and including the space
      from both ends. */
  function Trim(s: string): string
  {
    var i := Leading(s);
    s[i..Trailing(s, i)]
  }

  /** How many characters up to the space open the string. */
  function Leading(s: string): (i: nat)
    ensures i <= |s|
  {
    if s != [] && s[0] <= ' ' then 1 + Leading(s[1..]) else 0
  }

  /** Where the string ends once characters up to the space are dropped from
      the end, never before `st`. */
  function Trailing(s: string, st: nat): (j: nat)
    requires st <= |s|
    ensures st <= j <= |s|
  {
    if st < |s| && s[|s| - 1] <= ' ' then Trailing(s[..|s| - 1], st) else |s|
  }

  lemma {:induction false} LeadingSpec(s: string)
    ensures forall k | 0 <= k < Leading(s) :: s[k] <= ' '
    ensures Leading(s) == |s| || s[Leading(s)] > ' '
  {
    if s != [] && s[0] <= ' ' {
      LeadingSpec(s[1..]);
    }
  }

  lemma {:induction false} TrailingSpec(s: string, st: nat)
    requires st <= |s|
    ensures forall k | Trailing(s, st) <= k < |s| :: s[k] <= ' '
    ensures Trailing(s, st) == st || s[Trailing(s, st) - 1] > ' '
  {
    if st < |s| && s[|s| - 1] <= ' ' {
      var init := s[..|s| - 1];
      TrailingSpec(init, st);
      forall k | Trailing(s, st) <= k < |s| ensures s[k] <= ' ' {
        if k < |init| {
          assert s[k] == init[k];
        }
      }
    }
  }

  /** Trimming keeps the slice `s[i..j]`, drops only characters up to the
      space before `i` and from `j` on, and leaves none at either end. */
  lemma TrimSpec(s: string)
    ensures var i := Leading(s); var j := Trailing(s, i);
      Trim(s) == s[i..j]
      && (forall k | 0 <= k < i :: s[k] <= ' ') && (forall k | j <= k < |s| :: s[k] <= ' ')
    ensures Trim(s) == [] || (Trim(s)[0] > ' ' && Trim(s)[|Trim(s)| - 1] > ' ')
  {
    var i := Leading(s);
    LeadingSpec(s);
    TrailingSpec(s, i);
  }

  /** The argument loop of `main`: each argument followed by a space, then
      trimmed. */
  method JoinPhrase(args: seq<string>) returns (phrase: string)
    ensures phrase == Trim(SpaceAfterEach(args))
  {
    var buffer := "";
    for k := 0 to |args|
      invariant buffer == SpaceAfterEach(args[..k])
    {
      SpaceAfterEachAppend(args[..k], [args[k]]);
      assert args[..k + 1] == args[..k] + [args[k]];
      buffer := buffer + args[k] + " ";
    }
    assert args[..|args|] == args;
    phrase := Trim(buffer);
  }

  /** An argument that begins and ends with a printable character. */
  predicate Solid(w: string)
  {
    w != [] && w[0] > ' ' && w[|w| - 1] > ' '
  }

  /** For arguments that carry no surrounding blanks the phrase is the
      arguments separated by single spaces; with no arguments it is empty. */
  lemma PhraseOfSolidArgs(args: seq<string>)
    requires forall k | 0 <= k < |args| :: Solid(args[k])
    ensures Trim(SpaceAfterEach(args)) == Joined(args)
  {
    if args != [] {
      JoinedThenSpace(args);
      var x := Joined(args);
      JoinedEnds(args);
      var t := x + " ";
      assert Leading(t) == 0;
      assert t[..|t| - 1] == x;
      assert Trailing(t, 0) == |x|;
      assert t[0..|x|] == x;
    }
  }

  /** A line of solid words starts and ends with printable characters. */
  lemma {:induction false} JoinedEnds(ws: seq<string>)
    requires ws != [] && forall k | 0 <= k < |ws| :: Solid(ws[k])
    ensures Solid(Joined(ws))
  {
    if |ws| > 1 {
      JoinedEnds(ws[1..]);
      var rest := Joined(ws[1..]);
      assert Joined(ws) == ws[0] + " " + rest;
    }
  }
}
