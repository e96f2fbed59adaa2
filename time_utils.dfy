/** Time conversion and comparison, progress parsing and player-name truncation (app/js/utils.js). */
module TimeUtils {
  import opened Seqs
  import opened Types

  /** A time as the source passes it around: a period and a minute and second, each of
      which may be missing (a marker has no minute, the end marker has no period). */
  datatype Time = Time(period: Option<Period>, minute: Option<int>, second: Option<int>)

  /** `value || 0` for a missing-or-number field. */
  function OrZero(v: Option<int>): int {
    if v.Some? then v.value else 0
  }

  function PeriodLengthInMinutes(period: Option<Period>): nat {
    if period == Some(OT) then 5 else 20
  }

  /** Converts remaining time to elapsed time in the same period. Overtime `'OT'` lasts
      5 minutes, every other period (numbered playoff overtimes too) 20 minutes. */
  function RemainingTimeToElapsedTime(t: Time): (r: Time)
    ensures r.period == t.period && r.minute.Some? && r.second.Some?
    ensures 60 * r.minute.value + r.second.value
      == (if t.period == Some(OT) then 5 * 60 else 20 * 60) - (60 * OrZero(t.minute) + OrZero(t.second))
    ensures 0 <= r.second.value < 60
  {
    var secondsRemaining := 60 * OrZero(t.minute) + OrZero(t.second);
    var secondsElapsed := PeriodLengthInMinutes(t.period) * 60 - secondsRemaining;
    // Dafny's division by a positive divisor rounds down, as Math.floor does
    var elapsedMinute := secondsElapsed / 60;
    Time(t.period, Some(elapsedMinute), Some(secondsElapsed - 60 * elapsedMinute))
  }

  /** Elapsed time back to remaining time: the same subtraction from the period length. */
  function ElapsedTimeToRemainingTime(t: Time): (r: Time)
    ensures r.period == t.period && r.minute.Some? && r.second.Some?
    ensures 60 * r.minute.value + r.second.value
      == (if t.period == Some(OT) then 5 * 60 else 20 * 60) - (60 * OrZero(t.minute) + OrZero(t.second))
    ensures 0 <= r.second.value < 60
  {
    RemainingTimeToElapsedTime(t)
  }

  /** Converting twice gives back any time whose second is in 0..59. */
  lemma {:induction false} ConversionRoundTrip(t: Time)
    requires t.minute.Some? && t.second.Some? && 0 <= t.second.value < 60
    ensures ElapsedTimeToRemainingTime(RemainingTimeToElapsedTime(t)) == t
    ensures RemainingTimeToElapsedTime(ElapsedTimeToRemainingTime(t)) == t
  {
    var r := ElapsedTimeToRemainingTime(RemainingTimeToElapsedTime(t));
    assert 60 * r.minute.value + r.second.value == 60 * t.minute.value + t.second.value;
  }

  /** `getPeriodOrdinal`: `'OT'` is 4, a number is itself; None stands for the NaN that
      `Number('SO')` and `Number(undefined)` give. */
  function PeriodOrdinal(period: Option<Period>): (r: Option<int>)
    ensures r.None? <==> period.None? || period == Some(SO)
    ensures period == Some(OT) ==> r == Some(4)
    ensures period.Some? && period.value.Num? ==> r == Some(period.value.n)
  {
    match period
    case Some(OT) => Some(4)
    case Some(Num(n)) => Some(n)
    case _ => None
  }

  /** `hasElapsedTimePassed`: whether `clock` (a remaining time) has reached the elapsed
      time `elapsed`. Comparisons with NaN or a missing value are false. */
  predicate HasElapsedTimePassed(clock: Time, elapsed: Time) {
    var clockElapsed := RemainingTimeToElapsedTime(clock);
    var minute := clockElapsed.minute.value;
    var second := clockElapsed.second.value;
    var e := PeriodOrdinal(elapsed.period);
    var c := PeriodOrdinal(clock.period);
    e.Some? && c.Some? &&
    (e.value < c.value ||
     (e.value == c.value &&
      elapsed.minute.Some? &&
      (elapsed.minute.value < minute ||
       (elapsed.minute.value == minute && elapsed.second.Some? && elapsed.second.value <= second))))
  }

  /** Elapsed seconds of a clock in its period. */
  function ElapsedSeconds(clock: Time): int {
    var e := RemainingTimeToElapsedTime(clock);
    60 * e.minute.value + e.second.value
  }

  /** c1 is not later than c2: an earlier period, or the same period ordinal with no more
      time elapsed. */
  predicate ClockNotLater(c1: Time, c2: Time) {
    var o1 := PeriodOrdinal(c1.period);
    var o2 := PeriodOrdinal(c2.period);
    o1.Some? && o2.Some? &&
    (o1.value < o2.value || (o1.value == o2.value && ElapsedSeconds(c1) <= ElapsedSeconds(c2)))
  }

  /** An event passed by a clock stays passed as the clock advances. */
  lemma {:induction false} PassedMonotone(c1: Time, c2: Time, elapsed: Time)
    requires ClockNotLater(c1, c2)
    requires HasElapsedTimePassed(c1, elapsed)
    ensures HasElapsedTimePassed(c2, elapsed)
  {
    var e1 := RemainingTimeToElapsedTime(c1);
    var e2 := RemainingTimeToElapsedTime(c2);
    if PeriodOrdinal(c1.period) == PeriodOrdinal(c2.period) {
      assert e1.minute.value < e2.minute.value
        || (e1.minute.value == e2.minute.value && e1.second.value <= e2.second.value);
    }
  }

  /** Within one period ordinal the lexicographic (minute, second) test is the comparison of
      elapsed seconds; across ordinals only the ordinal matters. */
  lemma {:induction false} PassedIsSecondsOrder(clock: Time, elapsed: Time)
    requires elapsed.minute.Some? && elapsed.second.Some? && 0 <= elapsed.second.value < 60
    ensures HasElapsedTimePassed(clock, elapsed) <==>
      var e := PeriodOrdinal(elapsed.period);
      var c := PeriodOrdinal(clock.period);
      e.Some? && c.Some? &&
      (e.value < c.value ||
       (e.value == c.value && 60 * elapsed.minute.value + elapsed.second.value <= ElapsedSeconds(clock)))
  {
    var ce := RemainingTimeToElapsedTime(clock);
    var m, s := elapsed.minute.value, elapsed.second.value;
    var cm, cs := ce.minute.value, ce.second.value;
    assert (m < cm || (m == cm && s <= cs)) <==> 60 * m + s <= 60 * cm + cs;
  }

  /** Nothing ever counts as passed in a shootout or without a period (NaN ordinals). */
  lemma {:induction false} ShootoutNeverPasses(clock: Time, elapsed: Time)
    requires clock.period in {None, Some(SO)} || elapsed.period in {None, Some(SO)}
    ensures !HasElapsedTimePassed(clock, elapsed)
  {
  }

  function GoalTime(goal: Goal): Time {
    Time(Some(goal.period), Some(goal.min), Some(goal.sec))
  }

  /** `hasGoalBeenScored`: the clock has reached the goal's elapsed time. */
  predicate HasGoalBeenScored(clock: Time, goal: Goal) {
    HasElapsedTimePassed(clock, GoalTime(goal))
  }

  /** The time fields of a timeline element, as `remainingTimeToElapsedTime` reads them. */
  function ClockTime(c: Clock): Time {
    match c
    case Tick(p, m, s, _) => Time(Some(p), Some(m), Some(s))
    case ShootoutTick => Time(Some(SO), None, None)
    case PeriodEnd(p) => Time(Some(p), None, None)
    case _ => Time(None, None, None)
  }

  /** `_.partial(hasGoalBeenScored, clock)`. */
  function ScoredBy(clock: Clock): Goal -> bool {
    g => HasGoalBeenScored(ClockTime(clock), g)
  }

  // ---- Goal order ---------------------------------------------------------------------------

  /** Period a ranks strictly below period b: numbers and `'OT'` (as 4) by ordinal, the
      shootout above everything. */
  predicate PeriodBefore(a: Period, b: Period) {
    if b == SO then a != SO
    else if a == SO then false
    else PeriodOrdinal(Some(a)).value < PeriodOrdinal(Some(b)).value
  }

  /** The two periods have the same rank. */
  predicate SameRank(a: Period, b: Period) {
    (a == SO && b == SO) ||
    (a != SO && b != SO && PeriodOrdinal(Some(a)).value == PeriodOrdinal(Some(b)).value)
  }

  /** The order `getAllGoalSorted` sorts by: period, then minute, then second. */
  predicate GoalLe(g: Goal, h: Goal) {
    PeriodBefore(g.period, h.period) ||
    (SameRank(g.period, h.period) && (g.min < h.min || (g.min == h.min && g.sec <= h.sec)))
  }

  predicate GoalsSorted(goals: seq<Goal>) {
    forall i, j :: 0 <= i < j < |goals| ==> GoalLe(goals[i], goals[j])
  }

  /** GoalLe is a total preorder. */
  lemma {:induction false} GoalLeTotalPreorder(g: Goal, h: Goal, k: Goal)
    ensures GoalLe(g, g)
    ensures GoalLe(g, h) || GoalLe(h, g)
    ensures GoalLe(g, h) && GoalLe(h, k) ==> GoalLe(g, k)
  {
  }

  /** A clock that has passed a goal has passed every goal that sorts before it. */
  lemma {:induction false} ScoredIsDownwardClosed(clock: Time, g: Goal, h: Goal)
    requires GoalLe(g, h) && HasGoalBeenScored(clock, h)
    ensures HasGoalBeenScored(clock, g)
  {
  }

  // ---- Progress parsing: /(\d+)?:(\d+)/ ----------------------------------------------------

  predicate IsDigit(c: char) {
    '0' <= c <= '9'
  }

  /** `Number(digits)` for a string of decimal digits. */
  function DigitsValue(ds: string): nat
    requires forall i :: 0 <= i < |ds| ==> IsDigit(ds[i])
  {
    if ds == [] then 0
    else
      var c := ds[|ds| - 1];
      assert IsDigit(c);
      DigitsValue(ds[..|ds| - 1]) * 10 + (c as int - '0' as int)
  }

  /** The end of the run of digits starting at i. */
  function DigitRunEnd(s: string, i: nat): (j: nat)
    requires i <= |s|
    ensures i <= j <= |s|
    ensures forall k :: i <= k < j ==> IsDigit(s[k])
    ensures j == |s| || !IsDigit(s[j])
    decreases |s| - i
  {
    if i < |s| && IsDigit(s[i]) then DigitRunEnd(s, i + 1) else i
  }

  /** The two capture groups of a match: the optional minutes and the seconds. */
  datatype MinSecMatch = MinSecMatch(minutes: Option<string>, seconds: string)

  predicate AllDigits(s: string) {
    forall i :: 0 <= i < |s| ==> IsDigit(s[i])
  }

  /** A match of the pattern that starts exactly at i. The greedy minutes group can only
      end right before the colon, so backtracking never finds another match here. */
  function MatchAt(s: string, i: nat): (r: Option<MinSecMatch>)
    requires i <= |s|
    ensures r.Some? ==> AllDigits(r.value.seconds) && r.value.seconds != []
    ensures r.Some? && r.value.minutes.Some? ==> AllDigits(r.value.minutes.value)
  {
    var j := DigitRunEnd(s, i);
    if j > i then
      if j + 1 < |s| && s[j] == ':' && IsDigit(s[j + 1]) then
        Some(MinSecMatch(Some(s[i..j]), s[j + 1..DigitRunEnd(s, j + 1)]))
      else None
    else if i + 1 < |s| && s[i] == ':' && IsDigit(s[i + 1]) then
      Some(MinSecMatch(None, s[i + 1..DigitRunEnd(s, i + 1)]))
    else None
  }

  /** `RegExp.prototype.exec`: the leftmost match at or after i. */
  function Exec(s: string, i: nat): (r: Option<MinSecMatch>)
    requires i <= |s|
    ensures r.Some? ==> AllDigits(r.value.seconds) && r.value.seconds != []
    ensures r.Some? && r.value.minutes.Some? ==> AllDigits(r.value.minutes.value)
    decreases |s| - i
  {
    var m := MatchAt(s, i);
    if m.Some? then m else if i < |s| then Exec(s, i + 1) else None
  }

  /** A colon followed by a digit somewhere at or after i. */
  predicate HasColonDigit(s: string, i: nat) {
    exists k :: i <= k < |s| - 1 && s[k] == ':' && IsDigit(s[k + 1])
  }

  /** The pattern matches exactly when the text holds a colon directly followed by a digit. */
  lemma {:induction false} ExecFindsColonDigit(s: string, i: nat)
    requires i <= |s|
    ensures Exec(s, i).Some? <==> HasColonDigit(s, i)
    decreases |s| - i
  {
    var m := MatchAt(s, i);
    if m.Some? {
      var j := DigitRunEnd(s, i);
      var k := if j > i then j else i;
      assert i <= k < |s| - 1 && s[k] == ':' && IsDigit(s[k + 1]);
    } else {
      if i < |s| {
        ExecFindsColonDigit(s, i + 1);
        if HasColonDigit(s, i) {
          var k :| i <= k < |s| - 1 && s[k] == ':' && IsDigit(s[k + 1]);
          assert k > i;
          assert HasColonDigit(s, i + 1);
        }
      }
    }
  }

  /** `parseProgressTimeRemaining`: `'END'` is 0:00; otherwise the first match gives the
      minutes (0 when absent) and seconds; no match, or no progress, gives None. */
  function ParseProgressTimeRemaining(progress: Option<Progress>): (r: Option<Time>)
    ensures progress.None? ==> r.None?
    ensures progress.Some? && progress.value.timeRemaining.pretty == "END" ==>
      r == Some(Time(Some(Num(progress.value.currentPeriod)), Some(0), Some(0)))
    ensures progress.Some? && progress.value.timeRemaining.pretty != "END" ==>
      (r.None? <==> !HasColonDigit(progress.value.timeRemaining.pretty, 0))
    ensures r.Some? ==>
      (r.value.period == Some(Num(progress.value.currentPeriod))
       && r.value.minute.Some? && r.value.minute.value >= 0
       && r.value.second.Some? && r.value.second.value >= 0)
  {
    if progress.None? then None
    else
      var p := progress.value;
      var text := p.timeRemaining.pretty;
      if text == "END" then Some(Time(Some(Num(p.currentPeriod)), Some(0), Some(0)))
      else
        ExecFindsColonDigit(text, 0);
        match Exec(text, 0)
        case None => None
        case Some(MinSecMatch(minutes, seconds)) =>
          var minute := if minutes.Some? then DigitsValue(minutes.value) else 0;
          Some(Time(Some(Num(p.currentPeriod)), Some(minute), Some(DigitsValue(seconds))))
  }

  /** The digit run from i ends at n when every character in between is a digit and the one
      at n is not. */
  lemma {:induction false} DigitRunEndAt(t: string, i: nat, n: nat)
    requires i <= n <= |t|
    requires forall k :: i <= k < n ==> IsDigit(t[k])
    requires n == |t| || !IsDigit(t[n])
    ensures DigitRunEnd(t, i) == n
    decreases n - i
  {
    if i < n {
      DigitRunEndAt(t, i + 1, n);
    }
  }

  /** A remaining time written as minutes digits (possibly none), a colon and seconds digits
      parses to those numbers: "08:42" is 8:42 and ":42" is 0:42. */
  lemma {:induction false} ParseProgressValues(progress: Option<Progress>, m: string, s: string, rest: string)
    requires progress.Some? && progress.value.timeRemaining.pretty == m + ":" + s + rest
    requires AllDigits(m) && AllDigits(s) && s != []
    requires rest == [] || !IsDigit(rest[0])
    ensures ParseProgressTimeRemaining(progress)
      == Some(Time(Some(Num(progress.value.currentPeriod)), Some(DigitsValue(m)), Some(DigitsValue(s))))
  {
    var text := progress.value.timeRemaining.pretty;
    var j := |m|;
    var e := j + 1 + |s|;
    assert text[j] == ':';
    assert forall k :: j + 1 <= k < e ==> text[k] == s[k - j - 1];
    assert e == |text| || text[e] == rest[0];
    DigitRunEndAt(text, j + 1, e);
    assert text[j + 1..e] == s;
    assert IsDigit(text[j + 1]);
    if j > 0 {
      assert forall k :: 0 <= k < j ==> text[k] == m[k];
      DigitRunEndAt(text, 0, j);
      assert text[..j] == m;
    } else {
      DigitRunEndAt(text, 0, 0);
    }
    assert Exec(text, 0) == MatchAt(text, 0);
  }

  /** `hasClockPassedCurrentProgress`: false without a clock or a parsable progress time;
      otherwise whether the clock has reached the progress time, converted to elapsed time. */
  predicate HasClockPassedCurrentProgress(clock: Option<Clock>, status: Status) {
    clock.Some? &&
    var progressTime := ParseProgressTimeRemaining(status.progress);
    progressTime.Some? &&
    HasElapsedTimePassed(ClockTime(clock.value), RemainingTimeToElapsedTime(progressTime.value))
  }

  // ---- Player names ------------------------------------------------------------------------

  const MaxNameLength := 20

  /** `s.split(sep)`: the pieces between separators, empty pieces included. */
  function Split(s: string, sep: char): (r: seq<string>)
    ensures |r| >= 1
    ensures forall i :: 0 <= i < |r| ==> sep !in r[i]
  {
    if s == [] then [[]]
    else
      var rest := Split(s[1..], sep);
      if s[0] == sep then [[]] + rest else [[s[0]] + rest[0]] + rest[1..]
  }

  /** `parts.join(sep)`. */
  function Join(parts: seq<string>, sep: char): string
    requires |parts| >= 1
  {
    if |parts| == 1 then parts[0] else parts[0] + [sep] + Join(parts[1..], sep)
  }

  /** Splitting and joining again gives back the string. */
  lemma {:induction false} SplitJoin(s: string, sep: char)
    ensures Join(Split(s, sep), sep) == s
  {
    if s != [] {
      var rest := Split(s[1..], sep);
      SplitJoin(s[1..], sep);
      if s[0] == sep {
        assert ([[]] + rest)[1..] == rest;
      } else {
        var r := [[s[0]] + rest[0]] + rest[1..];
        if |rest| > 1 {
          assert r[1..] == rest[1..];
        }
      }
    }
  }

  /** The last piece of a join is what follows the last separator. */
  lemma {:induction false} JoinLast(parts: seq<string>, sep: char)
    requires |parts| >= 2
    ensures Join(parts, sep) == Join(parts[..|parts| - 1], sep) + [sep] + parts[|parts| - 1]
  {
    if |parts| > 2 {
      JoinLast(parts[1..], sep);
      assert parts[1..][..|parts| - 2] == parts[..|parts| - 1][1..];
    }
  }

  /** The longest suffix of s without a space. */
  function LastWord(s: string): (w: string)
    ensures ' ' !in w
    ensures |w| <= |s| && w == s[|s| - |w|..]
    ensures |w| == |s| || s[|s| - |w| - 1] == ' '
  {
    if s == [] then []
    else if s[|s| - 1] == ' ' then []
    else LastWord(s[..|s| - 1]) + [s[|s| - 1]]
  }

  lemma {:induction false} LastWordAfterSpace(prefix: string, w: string)
    requires ' ' !in w
    requires prefix == [] || prefix[|prefix| - 1] == ' '
    ensures LastWord(prefix + w) == w
  {
    if w != [] {
      var n := |w| - 1;
      assert (prefix + w)[..|prefix + w| - 1] == prefix + w[..n];
      LastWordAfterSpace(prefix, w[..n]);
    } else {
      assert prefix + w == prefix;
    }
  }

  /** The last piece of splitting at spaces is the last word. */
  lemma {:induction false} SplitLastIsLastWord(s: string)
    ensures var parts := Split(s, ' '); parts[|parts| - 1] == LastWord(s)
  {
    var parts := Split(s, ' ');
    SplitJoin(s, ' ');
    LastOfJoinIsLastWord(s, parts);
  }

  /** The last word of parts joined with spaces is the last part, when it has no space. */
  lemma {:induction false} LastOfJoinIsLastWord(s: string, parts: seq<string>)
    requires |parts| >= 1 && Join(parts, ' ') == s
    requires ' ' !in parts[|parts| - 1]
    ensures LastWord(s) == parts[|parts| - 1]
  {
    var w := parts[|parts| - 1];
    if |parts| == 1 {
      assert Join(parts, ' ') == [] + w;
      LastWordAfterSpace([], w);
    } else {
      JoinLast(parts, ' ');
      var prefix := Join(parts[..|parts| - 1], ' ') + [' '];
      assert Join(parts, ' ') == prefix + w;
      LastWordAfterSpace(prefix, w);
    }
  }

  /** `${namePart[0]}.`; the first character of an empty part is `undefined`. */
  function Initial(part: string): string {
    if part == [] then "undefined." else [part[0], '.']
  }

  function Initials(parts: seq<string>): string {
    if parts == [] then [] else Initial(parts[0]) + Initials(parts[1..])
  }

  /** Each hyphen part of each given name becomes its initial and a dot, with no separator. */
  function AbbreviateFirstNames(firstNames: seq<string>): string {
    if firstNames == [] then []
    else Initials(Split(firstNames[0], '-')) + AbbreviateFirstNames(firstNames[1..])
  }

  /** `truncatePlayerName`: names up to 20 characters are kept; longer ones keep their last
      word after the abbreviated given names and a space. */
  function TruncatePlayerName(name: string): (r: string)
    ensures |name| <= MaxNameLength ==> r == name
    ensures |name| > MaxNameLength ==>
      var names := Split(name, ' ');
      r == AbbreviateFirstNames(names[..|names| - 1]) + " " + LastWord(name)
  {
    if |name| <= MaxNameLength then name
    else
      var names := Split(name, ' ');
      SplitLastIsLastWord(name);
      AbbreviateFirstNames(names[..|names| - 1]) + " " + names[|names| - 1]
  }

  /** When every hyphen part is non-empty, each contributes exactly two characters. */
  lemma {:induction false} InitialsLength(parts: seq<string>)
    requires forall i :: 0 <= i < |parts| ==> parts[i] != []
    ensures |Initials(parts)| == 2 * |parts|
    ensures forall i :: 0 <= i < |parts| ==>
      Initials(parts)[2 * i] == parts[i][0] && Initials(parts)[2 * i + 1] == '.'
  {
    if parts != [] {
      InitialsLength(parts[1..]);
      var rest := Initials(parts[1..]);
      assert Initials(parts) == [parts[0][0], '.'] + rest;
      forall i | 1 <= i < |parts|
        ensures Initials(parts)[2 * i] == parts[i][0] && Initials(parts)[2 * i + 1] == '.'
      {
        assert Initials(parts)[2 * i] == rest[2 * (i - 1)];
        assert Initials(parts)[2 * i + 1] == rest[2 * (i - 1) + 1];
      }
    }
  }

  // ---- Numbers as text ---------------------------------------------------------------------

  /** `String(n)` for a natural number. */
  function NatToString(n: nat): (r: string)
    ensures r != [] && AllDigits(r)
  {
    var d := ['0' + ((n % 10) as char)];
    assert IsDigit(d[0]);
    if n < 10 then d else NatToString(n / 10) + d
  }

  /** Reading a numeral back gives the number. */
  lemma {:induction false} NatToStringRoundTrip(n: nat)
    ensures DigitsValue(NatToString(n)) == n
  {
    if n >= 10 {
      NatToStringRoundTrip(n / 10);
      var r := NatToString(n);
      assert r[..|r| - 1] == NatToString(n / 10);
    }
  }
}
