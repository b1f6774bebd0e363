/**
  `library.py`: rebuilding a date from the strings an old-style `Matches`
  captured. The date starts at 1970-01-01 00:00:00, is overlaid by the
  default date, then by the month name, the composite elements (F, x, X)
  split at fixed offsets, the Y/m/d numbers, the day of the year and the
  H/M/S numbers, each source overwriting the earlier ones.
*/
module Library {
  import opened Common
  import opened Strings
  import opened Matchers

  // ---------------------------------------------------------------------
  // The calendar (proleptic Gregorian, as Python's datetime)

  predicate IsLeap(y: int) {
    y % 4 == 0 && (y % 100 != 0 || y % 400 == 0)
  }

  function DaysIn(y: int, m: int): (r: int)
    requires 1 <= m <= 12
    ensures 28 <= r <= 31
  {
    if m == 2 then (if IsLeap(y) then 29 else 28)
    else if m == 4 || m == 6 || m == 9 || m == 11 then 30
    else 31
  }

  /** A day that `datetime` accepts: years 1 to 9999. */
  predicate ValidDay(y: int, m: int, d: int) {
    1 <= y <= 9999 && 1 <= m <= 12 && 1 <= d <= DaysIn(y, m)
  }

  predicate ValidDate(t: DateTime) {
    ValidDay(t.year, t.month, t.day)
    && 0 <= t.hour < 24 && 0 <= t.minute < 60 && 0 <= t.second < 60
  }

  /** The day after (y, m, d). */
  function NextDay(y: int, m: int, d: int): (r: (int, int, int))
    requires 1 <= m <= 12 && 1 <= d <= DaysIn(y, m)
    ensures 1 <= r.1 <= 12 && 1 <= r.2 <= DaysIn(r.0, r.1)
  {
    if d < DaysIn(y, m) then (y, m, d + 1)
    else if m < 12 then (y, m + 1, 1)
    else (y + 1, 1, 1)
  }

  /** The day before (y, m, d). */
  function PrevDay(y: int, m: int, d: int): (r: (int, int, int))
    requires 1 <= m <= 12 && 1 <= d <= DaysIn(y, m)
    ensures 1 <= r.1 <= 12 && 1 <= r.2 <= DaysIn(r.0, r.1)
  {
    if d > 1 then (y, m, d - 1)
    else if m > 1 then (y, m - 1, DaysIn(y, m - 1))
    else (y - 1, 12, 31)
  }

  /**
    `date + timedelta(days=n)`: OverflowError when the result leaves the
    years 1 to 9999.
  */
  function AddDays(y: int, m: int, d: int, n: int): (r: Result<(int, int, int)>)
    requires ValidDay(y, m, d)
    ensures r.Ok? ==> ValidDay(r.value.0, r.value.1, r.value.2)
    ensures r.Err? ==> r.error == OverflowError
    decreases if n >= 0 then n else -n
  {
    if n == 0 then Ok((y, m, d))
    else if n > 0 then
      var next := NextDay(y, m, d);
      if next.0 > 9999 then Err(OverflowError) else AddDays(next.0, next.1, next.2, n - 1)
    else
      var prev := PrevDay(y, m, d);
      if prev.0 < 1 then Err(OverflowError) else AddDays(prev.0, prev.1, prev.2, n + 1)
  }

  /** The days of the months before month `m`. */
  function DaysBefore(y: int, m: int): (r: int)
    requires 1 <= m <= 13
    ensures r >= 0
  {
    if m == 1 then 0 else DaysBefore(y, m - 1) + DaysIn(y, m - 1)
  }

  /** The day of the year, 1 for January 1st. */
  function DayOfYear(y: int, m: int, d: int): int
    requires 1 <= m <= 12
  {
    DaysBefore(y, m) + d
  }

  function DaysInYear(y: int): int {
    DaysBefore(y, 13)
  }

  /** Stepping one day forward inside a year counts one more day of the year. */
  lemma NextDayInYear(y: int, m: int, d: int)
    requires ValidDay(y, m, d) && DayOfYear(y, m, d) < DaysInYear(y)
    ensures NextDay(y, m, d).0 == y
    ensures DayOfYear(y, NextDay(y, m, d).1, NextDay(y, m, d).2) == DayOfYear(y, m, d) + 1
  {
  }

  /** Adding days that stay inside the year lands on the day of the year reached. */
  lemma {:induction false} AddDaysInYear(y: int, m: int, d: int, k: nat)
    requires ValidDay(y, m, d) && DayOfYear(y, m, d) + k <= DaysInYear(y)
    ensures AddDays(y, m, d, k).Ok?
    ensures AddDays(y, m, d, k).value.0 == y
    ensures DayOfYear(y, AddDays(y, m, d, k).value.1, AddDays(y, m, d, k).value.2) == DayOfYear(y, m, d) + k
    decreases k
  {
    if k > 0 {
      NextDayInYear(y, m, d);
      var next := NextDay(y, m, d);
      AddDaysInYear(y, next.1, next.2, k - 1);
    }
  }

  lemma {:induction false} DaysBeforeMonotone(y: int, a: int, b: int)
    requires 1 <= a <= b <= 13
    ensures DaysBefore(y, a) + (if a < b then DaysIn(y, a) else 0) <= DaysBefore(y, b)
    decreases b - a
  {
    if a < b {
      DaysBeforeMonotone(y, a + 1, b);
    }
  }

  /** Different days of one year have different days of the year. */
  lemma DayOfYearInjective(y: int, m1: int, d1: int, m2: int, d2: int)
    requires ValidDay(y, m1, d1) && ValidDay(y, m2, d2)
    requires DayOfYear(y, m1, d1) == DayOfYear(y, m2, d2)
    ensures m1 == m2 && d1 == d2
  {
    if m1 < m2 {
      DaysBeforeMonotone(y, m1, m2);
    } else if m2 < m1 {
      DaysBeforeMonotone(y, m2, m1);
    }
  }

  lemma DayOfYearBound(y: int, m: int, d: int)
    requires ValidDay(y, m, d)
    ensures 1 <= DayOfYear(y, m, d) <= DaysInYear(y)
  {
    DaysBeforeMonotone(y, m, 13);
  }

  lemma DaysInYearValue(y: int)
    ensures DaysInYear(y) == if IsLeap(y) then 366 else 365
  {
    assert DaysBefore(y, 13) == DaysBefore(y, 12) + 31;
    assert DaysBefore(y, 12) == DaysBefore(y, 11) + 30;
    assert DaysBefore(y, 11) == DaysBefore(y, 10) + 31;
    assert DaysBefore(y, 10) == DaysBefore(y, 9) + 30;
    assert DaysBefore(y, 9) == DaysBefore(y, 8) + 31;
    assert DaysBefore(y, 8) == DaysBefore(y, 7) + 31;
    assert DaysBefore(y, 7) == DaysBefore(y, 6) + 30;
    assert DaysBefore(y, 6) == DaysBefore(y, 5) + 31;
    assert DaysBefore(y, 5) == DaysBefore(y, 4) + 30;
    assert DaysBefore(y, 4) == DaysBefore(y, 3) + 31;
    assert DaysBefore(y, 3) == DaysBefore(y, 2) + DaysIn(y, 2);
  }

  /** Adding one more day after a successful addition steps to the next day. */
  lemma {:induction false} AddDaysLast(y: int, m: int, d: int, k: nat)
    requires ValidDay(y, m, d) && AddDays(y, m, d, k).Ok?
    ensures
      var t := AddDays(y, m, d, k).value;
      var next := NextDay(t.0, t.1, t.2);
      AddDays(y, m, d, k + 1) == if next.0 > 9999 then Err(OverflowError) else Ok(next)
    decreases k
  {
    if k > 0 {
      var n := NextDay(y, m, d);
      AddDaysLast(n.0, n.1, n.2, k - 1);
    }
  }

  /** The day of the year reached from January 1st is the day it names. */
  lemma DayOfYearFromJanuary(y: int, m: int, d: int)
    requires ValidDay(y, m, d)
    ensures AddDays(y, 1, 1, DayOfYear(y, m, d) - 1) == Ok((y, m, d))
  {
    DayOfYearBound(y, m, d);
    AddDaysInYear(y, 1, 1, DayOfYear(y, m, d) - 1);
    var t := AddDays(y, 1, 1, DayOfYear(y, m, d) - 1).value;
    DayOfYearInjective(y, t.1, t.2, m, d);
  }

  // ---------------------------------------------------------------------
  // _find_month_number

  const MonthNames: seq<string> := [
    "january", "february", "march", "april", "may", "june", "july",
    "august", "september", "october", "november", "december"]

  /** `[c[:3] for c in names]`. */
  const MonthAbbreviations: seq<string> := [
    "jan", "feb", "mar", "apr", "may", "jun", "jul", "aug", "sep", "oct", "nov", "dec"]

  lemma AbbreviationsArePrefixes()
    ensures |MonthAbbreviations| == |MonthNames| == 12
    ensures forall k :: 0 <= k < 12 ==> |MonthNames[k]| >= 3 && MonthAbbreviations[k] == MonthNames[k][..3]
  {
  }

  /**
    `_find_month_number`: the month of a full English name or its three
    letter abbreviation, in any case; None for anything else.
  */
  function FindMonthNumber(name: string): (r: Option<int>)
    ensures r.Some? <==> Lower(name) in MonthNames || Lower(name) in MonthAbbreviations
    ensures r.Some? ==>
      (1 <= r.value <= 12
       && (MonthNames[r.value - 1] == Lower(name) || MonthAbbreviations[r.value - 1] == Lower(name)))
  {
    MonthOfLower(Lower(name))
  }

  /** The lookup of `_find_month_number` once the name is in lower case. */
  function MonthOfLower(lower: string): Option<int> {
    if lower in MonthNames then Some(IndexOf(MonthNames, lower) + 1)
    else if lower in MonthAbbreviations then Some(IndexOf(MonthAbbreviations, lower) + 1)
    else None
  }

  lemma {:induction false} LowerIdempotent(s: string)
    ensures Lower(Lower(s)) == Lower(s)
  {
  }

  /** The lookup ignores case. */
  lemma {:induction false} FindMonthNumberIgnoresCase(name: string)
    ensures FindMonthNumber(Lower(name)) == FindMonthNumber(name)
  {
    LowerIdempotent(name);
  }

  lemma MonthNamesDistinct()
    ensures forall i, j :: 0 <= i < j < 12 ==> MonthNames[i] != MonthNames[j]
    ensures forall i, j :: 0 <= i < j < 12 ==> MonthAbbreviations[i] != MonthAbbreviations[j]
  {
  }

  /** A lower-case string is its own lower case. */
  lemma {:induction false} LowerOfLower(s: string)
    requires forall i :: 0 <= i < |s| ==> !('A' <= s[i] <= 'Z')
    ensures Lower(s) == s
  {
  }

  /** A month name, in any case, gives its month. */
  lemma MonthNameNumber(name: string, k: int)
    requires 1 <= k <= 12 && Lower(name) == MonthNames[k - 1]
    ensures FindMonthNumber(name) == Some(k)
  {
    MonthNamesDistinct();
  }

  /** A three letter abbreviation, in any case, gives its month. */
  lemma MonthAbbreviationNumber(name: string, k: int)
    requires 1 <= k <= 12 && Lower(name) == MonthAbbreviations[k - 1]
    ensures FindMonthNumber(name) == Some(k)
  {
    var x := Lower(name);
    MonthNamesDistinct();
    MonthNameLengths();
    if x in MonthNames {
      var j := IndexOf(MonthNames, x);
      assert j == 4;
      assert MonthAbbreviations[k - 1] == MonthAbbreviations[4];
    } else {
      assert IndexOf(MonthAbbreviations, x) == k - 1;
    }
  }

  /** Only May is as short as an abbreviation, and it is its own. */
  lemma MonthNameLengths()
    ensures forall i :: 0 <= i < 12 ==> |MonthAbbreviations[i]| == 3
    ensures forall i :: 0 <= i < 12 && i != 4 ==> |MonthNames[i]| > 3
    ensures MonthNames[4] == MonthAbbreviations[4]
  {
  }

  /** The English name strftime gives for `%B` is recognised. */
  lemma CapitalisedMonth(name: string)
    requires name == "March"
    ensures FindMonthNumber(name) == Some(3)
  {
    assert Lower(name) == "march";
    MonthNameNumber(name, 3);
  }

  /** An unknown month name is looked up as None. */
  lemma UnknownMonth(name: string)
    requires name == "smarch"
    ensures FindMonthNumber(name) == None
  {
    var x := Lower(name);
    assert x == "smarch";
    MonthNameLengths();
    assert x !in MonthNames by {
      forall i | 0 <= i < 12 ensures MonthNames[i] != x {
        if i == 7 {
          assert MonthNames[i][0] != x[0];
        } else {
          assert |MonthNames[i]| != 6;
        }
      }
    }
  }

  // ---------------------------------------------------------------------
  // The elements of a Matches

  /** A match contributes when its matcher is kept and in the requested group. */
  predicate Contributes(m: OldMatch, group: Option<string>) {
    !m.matcher.discard && (group.None? || m.matcher.group == group)
  }

  /** No later contributing match has the same name as match `i`. */
  predicate LastOfName(ms: seq<OldMatch>, group: Option<string>, i: int)
    requires 0 <= i < |ms|
  {
    forall j :: i < j < |ms| && Contributes(ms[j], group) ==> ms[j].matcher.name != ms[i].matcher.name
  }

  /**
    The dict comprehension of `get_date`: matcher name to matched string for
    every contributing match; a later match with the same name wins.
  */
  function Elements(ms: seq<OldMatch>, group: Option<string>): (r: map<string, string>)
    ensures forall i :: 0 <= i < |ms| && Contributes(ms[i], group) ==> ms[i].matcher.name in r
    ensures forall k :: k in r ==> exists i :: 0 <= i < |ms| && Contributes(ms[i], group) && ms[i].matcher.name == k
    ensures forall i :: 0 <= i < |ms| && Contributes(ms[i], group) && LastOfName(ms, group, i) ==>
      r[ms[i].matcher.name] == ms[i].matchStr
  {
    if |ms| == 0 then map[]
    else
      var front := Elements(ms[..|ms| - 1], group);
      var m := ms[|ms| - 1];
      var r := if Contributes(m, group) then front[m.matcher.name := GetMatch(m, false).s] else front;
      ElementsStep(ms, group, front);
      assert ElementsOf(ms, group, r);
      r
  }

  /** `elts` maps the name of each contributing match, and no other name, to the string of the last match of that name. */
  predicate ElementsOf(ms: seq<OldMatch>, group: Option<string>, elts: map<string, string>) {
    && (forall i :: 0 <= i < |ms| && Contributes(ms[i], group) ==> ms[i].matcher.name in elts)
    && (forall k :: k in elts ==> exists i :: 0 <= i < |ms| && Contributes(ms[i], group) && ms[i].matcher.name == k)
    && (forall i :: 0 <= i < |ms| && Contributes(ms[i], group) && LastOfName(ms, group, i) ==>
          elts[ms[i].matcher.name] == ms[i].matchStr)
  }

  /** One more match: a contributing one sets its name, any other leaves the elements as they are. */
  lemma ElementsStep(ms: seq<OldMatch>, group: Option<string>, front: map<string, string>)
    requires |ms| > 0 && ElementsOf(ms[..|ms| - 1], group, front)
    ensures var m := ms[|ms| - 1];
      ElementsOf(ms, group, if Contributes(m, group) then front[m.matcher.name := GetMatch(m, false).s] else front)
  {
    var m := ms[|ms| - 1];
    var r := if Contributes(m, group) then front[m.matcher.name := GetMatch(m, false).s] else front;
    ElementsStepNames(ms, group, front, r);
    ElementsStepValues(ms, group, front, r);
  }

  lemma ElementsStepNames(ms: seq<OldMatch>, group: Option<string>, front: map<string, string>, r: map<string, string>)
    requires |ms| > 0 && ElementsOf(ms[..|ms| - 1], group, front)
    requires var m := ms[|ms| - 1];
      r == if Contributes(m, group) then front[m.matcher.name := GetMatch(m, false).s] else front
    ensures forall i :: 0 <= i < |ms| && Contributes(ms[i], group) ==> ms[i].matcher.name in r
    ensures forall k :: k in r ==> exists i :: 0 <= i < |ms| && Contributes(ms[i], group) && ms[i].matcher.name == k
  {
    var n := |ms|;
    var p, m := ms[..n - 1], ms[n - 1];
    forall i | 0 <= i < n && Contributes(ms[i], group) ensures ms[i].matcher.name in r {
      if i < n - 1 {
        assert p[i] == ms[i];
      }
    }
    forall k | k in r ensures exists i :: 0 <= i < n && Contributes(ms[i], group) && ms[i].matcher.name == k {
      if Contributes(m, group) && k == m.matcher.name {
        assert Contributes(ms[n - 1], group);
      } else {
        var i :| 0 <= i < |p| && Contributes(p[i], group) && p[i].matcher.name == k;
        assert p[i] == ms[i];
      }
    }
  }

  lemma ElementsStepValues(ms: seq<OldMatch>, group: Option<string>, front: map<string, string>, r: map<string, string>)
    requires |ms| > 0 && ElementsOf(ms[..|ms| - 1], group, front)
    requires var m := ms[|ms| - 1];
      r == if Contributes(m, group) then front[m.matcher.name := GetMatch(m, false).s] else front
    ensures forall i :: 0 <= i < |ms| && Contributes(ms[i], group) && LastOfName(ms, group, i) ==>
      ms[i].matcher.name in r && r[ms[i].matcher.name] == ms[i].matchStr
  {
    var n := |ms|;
    var p, m := ms[..n - 1], ms[n - 1];
    forall i | 0 <= i < n && Contributes(ms[i], group) && LastOfName(ms, group, i)
      ensures ms[i].matcher.name in r && r[ms[i].matcher.name] == ms[i].matchStr
    {
      if i < n - 1 {
        assert p[i] == ms[i];
        assert LastOfName(p, group, i) by {
          forall j | i < j < |p| && Contributes(p[j], group) ensures p[j].matcher.name != p[i].matcher.name {
            assert p[j] == ms[j];
          }
        }
        if Contributes(m, group) {
          assert m.matcher.name != ms[i].matcher.name;
        }
      }
    }
  }

  // ---------------------------------------------------------------------
  // The reconciliation, stated by precedence

  /** The keyword arguments `datetime` accepts. */
  const Fields: set<string> := {"year", "month", "day", "hour", "minute", "second"}

  function FieldOr(defaults: map<string, int>, k: string, base: int): int {
    if k in defaults then defaults[k] else base
  }

  /**
    `date.update(default_date)` over 1970-01-01 00:00:00, on the six fields;
    any other key of the default date only matters to `datetime(**date)`,
    which `MakeDate` checks.
  */
  function Initial(defaults: map<string, int>): DateTime {
    DateTime(FieldOr(defaults, "year", 1970), FieldOr(defaults, "month", 1), FieldOr(defaults, "day", 1),
             FieldOr(defaults, "hour", 0), FieldOr(defaults, "minute", 0), FieldOr(defaults, "second", 0))
  }

  function Get(m: map<string, string>, k: string): Option<string> {
    if k in m then Some(m[k]) else None
  }

  /**
    The string element `c` holds once the composites are split: x beats F,
    which beats the element itself; X gives H and M, and S when it is longer
    than four characters.
  */
  function Pending(elts: map<string, string>, c: char): Option<string> {
    match c
    case 'Y' => if "x" in elts then Some(Slice(elts["x"], 0, 4)) else if "F" in elts then Some(Slice(elts["F"], 0, 4)) else Get(elts, "Y")
    case 'm' => if "x" in elts then Some(Slice(elts["x"], 4, 6)) else if "F" in elts then Some(Slice(elts["F"], 5, 7)) else Get(elts, "m")
    case 'd' => if "x" in elts then Some(Slice(elts["x"], 6, 8)) else if "F" in elts then Some(Slice(elts["F"], 8, 10)) else Get(elts, "d")
    case 'H' => if "X" in elts then Some(Slice(elts["X"], 0, 2)) else Get(elts, "H")
    case 'M' => if "X" in elts then Some(Slice(elts["X"], 2, 4)) else Get(elts, "M")
    case 'S' => if "X" in elts && |elts["X"]| > 4 then Some(Slice(elts["X"], 4, 6)) else Get(elts, "S")
    case _ => Get(elts, [c])
  }

  /** `Pending` only looks at the composites and at the numeric elements. */
  lemma PendingFromSources(a: map<string, string>, b: map<string, string>)
    requires Get(a, "x") == Get(b, "x") && Get(a, "F") == Get(b, "F") && Get(a, "X") == Get(b, "X")
    requires Get(a, "Y") == Get(b, "Y") && Get(a, "m") == Get(b, "m") && Get(a, "d") == Get(b, "d")
    requires Get(a, "H") == Get(b, "H") && Get(a, "M") == Get(b, "M") && Get(a, "S") == Get(b, "S")
    ensures Pending(a, 'Y') == Pending(b, 'Y') && Pending(a, 'm') == Pending(b, 'm') && Pending(a, 'd') == Pending(b, 'd')
    ensures Pending(a, 'H') == Pending(b, 'H') && Pending(a, 'M') == Pending(b, 'M') && Pending(a, 'S') == Pending(b, 'S')
  {
  }

  /** Without composites every element is read from itself. */
  lemma PendingWithoutComposites(elts: map<string, string>)
    requires "x" !in elts && "F" !in elts && "X" !in elts
    ensures Pending(elts, 'Y') == Get(elts, "Y") && Pending(elts, 'm') == Get(elts, "m") && Pending(elts, 'd') == Get(elts, "d")
    ensures Pending(elts, 'H') == Get(elts, "H") && Pending(elts, 'M') == Get(elts, "M") && Pending(elts, 'S') == Get(elts, "S")
  {
  }

  /** `int(elt)` when the element is there, else the current value. */
  function IntOr(p: Option<string>, current: int): (r: Result<int>)
    ensures p.None? ==> r == Ok(current)
    ensures p.Some? ==> r == ParseInt(p.value)
  {
    if p.Some? then ParseInt(p.value) else Ok(current)
  }

  /**
    `process_doy`: January 1st of `year` plus `doy - 1` days; only the month
    and the day are kept. `datetime(year, 1, 1)` fails first for a year
    outside 1 to 9999.
  */
  function DoyMonthDay(year: int, doy: string): (r: Result<(int, int)>)
    ensures !(1 <= year <= 9999) ==> r == Err(ValueError)
    ensures r.Ok? ==> 1 <= r.value.0 <= 12 && 1 <= r.value.1 <= 31
  {
    if !(1 <= year <= 9999) then Err(ValueError)
    else
      var n :- ParseInt(doy);
      var t :- AddDays(year, 1, 1, n - 1);
      Ok((t.1, t.2))
  }

  /** `datetime(**date)`: TypeError for an unknown keyword, ValueError for an impossible date. */
  function MakeDate(t: DateTime, defaults: map<string, int>): (r: Result<DateTime>)
    ensures r.Ok? <==> defaults.Keys <= Fields && ValidDate(t)
    ensures r.Ok? ==> r.value == t
    ensures !(defaults.Keys <= Fields) ==> r == Err(TypeError)
    ensures defaults.Keys <= Fields && !ValidDate(t) ==> r == Err(ValueError)
  {
    if !(defaults.Keys <= Fields) then Err(TypeError)
    else if ValidDate(t) then Ok(t) else Err(ValueError)
  }

  /** The month after the month name: the name's month when it is recognised. */
  function NamedMonth(elts: map<string, string>, current: int): int {
    if "B" in elts && FindMonthNumber(elts["B"]).Some? then FindMonthNumber(elts["B"]).value else current
  }

  /**
    The year, month and day read from the strings `y`, `m`, `d` (when
    present) over `date`; a day of the year `j`, when present, then replaces
    the month and the day. The first failing conversion (in the order Y, m,
    d, j) is the error.
  */
  function DayFrom(y: Option<string>, m: Option<string>, d: Option<string>, j: Option<string>, date: DateTime): (r: Result<(int, int, int)>)
    ensures r.Ok? && j.Some? ==> 1 <= r.value.1 <= 12
    ensures r.Ok? && j.None? && y.None? ==> r.value.0 == date.year
    ensures r.Ok? && j.None? && m.None? ==> r.value.1 == date.month
    ensures r.Ok? && j.None? && d.None? ==> r.value.2 == date.day
  {
    var year :- IntOr(y, date.year);
    var month :- IntOr(m, date.month);
    var day :- IntOr(d, date.day);
    if j.Some? then
      var md :- DoyMonthDay(year, j.value);
      Ok((year, md.0, md.1))
    else Ok((year, month, day))
  }

  /** The hour, minute and second read from `h`, `mi`, `s` (when present) over `date`. */
  function TimeFrom(h: Option<string>, mi: Option<string>, s: Option<string>, date: DateTime): (r: Result<(int, int, int)>)
    ensures h.None? && mi.None? && s.None? ==> r == Ok((date.hour, date.minute, date.second))
  {
    var hour :- IntOr(h, date.hour);
    var minute :- IntOr(mi, date.minute);
    var second :- IntOr(s, date.second);
    Ok((hour, minute, second))
  }

  /** The calendar day: every element from its highest-priority source, the month name under m. */
  function CalendarDay(elts: map<string, string>, date: DateTime): Result<(int, int, int)> {
    DayFrom(Pending(elts, 'Y'), Pending(elts, 'm'), Pending(elts, 'd'), Get(elts, "j"), date.(month := NamedMonth(elts, date.month)))
  }

  /** The time of day: every element from its highest-priority source. */
  function TimeOfDay(elts: map<string, string>, date: DateTime): Result<(int, int, int)> {
    TimeFrom(Pending(elts, 'H'), Pending(elts, 'M'), Pending(elts, 'S'), date)
  }

  /**
    The date `get_date` returns for the elements `elts` and the default date
    `defaults`: the calendar day, then the time of day, then `datetime`'s own
    checks.
  */
  function DateOf(elts: map<string, string>, defaults: map<string, int>): (r: Result<DateTime>)
    ensures r.Ok? ==> ValidDate(r.value)
  {
    var date := Initial(defaults);
    var ymd :- CalendarDay(elts, date);
    var hms :- TimeOfDay(elts, date);
    MakeDate(DateTime(ymd.0, ymd.1, ymd.2, hms.0, hms.1, hms.2), defaults)
  }

  // ---------------------------------------------------------------------
  // get_date, step by step

  /** The field of the date an element letter names (NAME_TO_DATETIME). */
  function FieldValue(t: DateTime, c: char): int
    requires c in "YmdHMS"
  {
    match c
    case 'Y' => t.year
    case 'm' => t.month
    case 'd' => t.day
    case 'H' => t.hour
    case 'M' => t.minute
    case 'S' => t.second
  }

  /** `date.update({NAME_TO_DATETIME[c]: n})`. */
  function SetField(t: DateTime, c: char, n: int): (r: DateTime)
    requires c in "YmdHMS"
    ensures FieldValue(r, c) == n
    ensures forall c' :: c' in "YmdHMS" && c' != c ==> FieldValue(r, c') == FieldValue(t, c')
  {
    match c
    case 'Y' => t.(year := n)
    case 'm' => t.(month := n)
    case 'd' => t.(day := n)
    case 'H' => t.(hour := n)
    case 'M' => t.(minute := n)
    case 'S' => t.(second := n)
  }

  /** What `get_elts(names, process_int)` does to the date and the elements, as a value. */
  function IntsOf(date: DateTime, elts: map<string, string>, names: string): Result<(DateTime, map<string, string>)>
    requires forall i :: 0 <= i < |names| ==> names[i] in "YmdHMS"
    decreases |names|
  {
    if |names| == 0 then Ok((date, elts))
    else
      var name := [names[0]];
      if name in elts then
        var n :- ParseInt(elts[name]);
        IntsOf(SetField(date, names[0], n), elts - {name}, names[1..])
      else IntsOf(date, elts, names[1..])
  }

  /** One letter of `get_elts(names, process_int)`. */
  lemma IntsOfStep(date: DateTime, elts: map<string, string>, names: string)
    requires |names| > 0 && forall i :: 0 <= i < |names| ==> names[i] in "YmdHMS"
    ensures IntsOf(date, elts, names) ==
      var a :- IntOr(Get(elts, [names[0]]), FieldValue(date, names[0]));
      IntsOf(SetField(date, names[0], a), elts - {[names[0]]}, names[1..])
  {
    if [names[0]] !in elts {
      assert SetField(date, names[0], FieldValue(date, names[0])) == date;
      assert elts - {[names[0]]} == elts;
    }
  }

  /**
    Three distinct letters processed in turn: each converted element
    overwrites its field, the first conversion that fails is the error, and
    the three elements are popped.
  */
  lemma IntsOfThree(date: DateTime, elts: map<string, string>, c0: char, c1: char, c2: char)
    requires c0 in "YmdHMS" && c1 in "YmdHMS" && c2 in "YmdHMS"
    requires c0 != c1 && c0 != c2 && c1 != c2
    ensures
      var a := IntOr(Get(elts, [c0]), FieldValue(date, c0));
      var b := IntOr(Get(elts, [c1]), FieldValue(date, c1));
      var c := IntOr(Get(elts, [c2]), FieldValue(date, c2));
      IntsOf(date, elts, [c0, c1, c2]) ==
        if a.Err? then Err(a.error) else if b.Err? then Err(b.error) else if c.Err? then Err(c.error)
        else Ok((SetField(SetField(SetField(date, c0, a.value), c1, b.value), c2, c.value), elts - {[c0], [c1], [c2]}))
  {
    var names := [c0, c1, c2];
    var n0, n1, n2 := [c0], [c1], [c2];
    IntsOfStep(date, elts, names);
    var a := IntOr(Get(elts, n0), FieldValue(date, c0));
    if a.Ok? {
      var e1 := elts - {n0};
      var d1 := SetField(date, c0, a.value);
      assert Get(e1, n1) == Get(elts, n1) && Get(e1 - {n1}, n2) == Get(elts, n2);
      assert names[1..] == [c1, c2] && names[1..][1..] == [c2] && [c2][1..] == [];
      IntsOfStep(d1, e1, [c1, c2]);
      var b := IntOr(Get(elts, n1), FieldValue(date, c1));
      if b.Ok? {
        IntsOfStep(SetField(d1, c1, b.value), e1 - {n1}, [c2]);
        assert e1 - {n1} - {n2} == elts - {n0, n1, n2};
      }
    }
  }

  /** `get_elts(names, process_int)`: pop each element in turn and store it as an int. */
  method GetInts(date: DateTime, elts: map<string, string>, names: string)
    returns (r: Result<(DateTime, map<string, string>)>)
    requires forall i :: 0 <= i < |names| ==> names[i] in "YmdHMS"
    ensures r == IntsOf(date, elts, names)
  {
    var d := date;
    var e := elts;
    for i := 0 to |names|
      invariant IntsOf(date, elts, names) == IntsOf(d, e, names[i..])
    {
      var name := [names[i]];
      assert names[i..][0] == names[i] && names[i..][1..] == names[i + 1..];
      if name in e {
        var elt := e[name];
        e := e - {name};
        var n := ParseInt(elt);
        if n.Err? {
          return Err(n.error);
        }
        d := SetField(d, names[i], n.value);
      }
    }
    return Ok((d, e));
  }

  /** `get_elts('B', process_month_name)`: a recognised month name sets the month. */
  method PopMonthName(date: DateTime, elts: map<string, string>)
    returns (date': DateTime, elts': map<string, string>)
    ensures date' == date.(month := NamedMonth(elts, date.month))
    ensures elts' == elts - {"B"}
  {
    date', elts' := date, elts;
    if "B" in elts {
      var elt := elts["B"];
      elts' := elts - {"B"};
      var month := FindMonthNumber(elt);
      if month.Some? {
        date' := date.(month := month.value);
      }
    }
  }

  /** Pop "F" (YYYY-mm-dd) and store its year, month and day. */
  method SplitF(elts: map<string, string>) returns (e: map<string, string>)
    ensures Get(e, "Y") == (if "F" in elts then Some(Slice(elts["F"], 0, 4)) else Get(elts, "Y"))
    ensures Get(e, "m") == (if "F" in elts then Some(Slice(elts["F"], 5, 7)) else Get(elts, "m"))
    ensures Get(e, "d") == (if "F" in elts then Some(Slice(elts["F"], 8, 10)) else Get(elts, "d"))
    ensures "F" !in e
    ensures forall k :: k !in {"F", "Y", "m", "d"} ==> Get(e, k) == Get(elts, k)
  {
    e := elts;
    if "F" in e {
      var elt := e["F"];
      e := e - {"F"};
      e := e["Y" := Slice(elt, 0, 4)]["m" := Slice(elt, 5, 7)]["d" := Slice(elt, 8, 10)];
    }
  }

  /** Pop "x" (YYYYmmdd) and store its year, month and day. */
  method SplitDate(elts: map<string, string>) returns (e: map<string, string>)
    ensures Get(e, "Y") == (if "x" in elts then Some(Slice(elts["x"], 0, 4)) else Get(elts, "Y"))
    ensures Get(e, "m") == (if "x" in elts then Some(Slice(elts["x"], 4, 6)) else Get(elts, "m"))
    ensures Get(e, "d") == (if "x" in elts then Some(Slice(elts["x"], 6, 8)) else Get(elts, "d"))
    ensures "x" !in e
    ensures forall k :: k !in {"x", "Y", "m", "d"} ==> Get(e, k) == Get(elts, k)
  {
    e := elts;
    if "x" in e {
      var elt := e["x"];
      e := e - {"x"};
      e := e["Y" := Slice(elt, 0, 4)]["m" := Slice(elt, 4, 6)]["d" := Slice(elt, 6, 8)];
    }
  }

  /** Pop "X" (HHMMSS) and store its hour, minute and, when present, second. */
  method SplitTime(elts: map<string, string>) returns (e: map<string, string>)
    ensures Get(e, "H") == (if "X" in elts then Some(Slice(elts["X"], 0, 2)) else Get(elts, "H"))
    ensures Get(e, "M") == (if "X" in elts then Some(Slice(elts["X"], 2, 4)) else Get(elts, "M"))
    ensures Get(e, "S") == (if "X" in elts && |elts["X"]| > 4 then Some(Slice(elts["X"], 4, 6)) else Get(elts, "S"))
    ensures "X" !in e
    ensures forall k :: k !in {"X", "H", "M", "S"} ==> Get(e, k) == Get(elts, k)
  {
    e := elts;
    if "X" in e {
      var elt := e["X"];
      e := e - {"X"};
      e := e["H" := Slice(elt, 0, 2)]["M" := Slice(elt, 2, 4)];
      if |elt| > 4 {
        e := e["S" := Slice(elt, 4, 6)];
      }
    }
  }

  /** The composites split in the order F, x, X leave every element at its `Pending` value. */
  method Decompose(elts: map<string, string>) returns (e: map<string, string>)
    ensures Get(e, "Y") == Pending(elts, 'Y') && Get(e, "m") == Pending(elts, 'm') && Get(e, "d") == Pending(elts, 'd')
    ensures Get(e, "H") == Pending(elts, 'H') && Get(e, "M") == Pending(elts, 'M') && Get(e, "S") == Pending(elts, 'S')
    ensures Get(e, "j") == Get(elts, "j")
  {
    var e2 := DecomposeDate(elts);
    e := SplitTime(e2);
    assert Get(e, "Y") == Get(e2, "Y") by { assert "Y" !in {"X", "H", "M", "S"}; }
    assert Get(e, "m") == Get(e2, "m") by { assert "m" !in {"X", "H", "M", "S"}; }
    assert Get(e, "d") == Get(e2, "d") by { assert "d" !in {"X", "H", "M", "S"}; }
    assert Get(e, "j") == Get(e2, "j") by { assert "j" !in {"X", "H", "M", "S"}; }
  }

  /** The date composites, F then x: Y, m and d hold what Pending predicts, and the time elements and j are untouched. */
  method DecomposeDate(elts: map<string, string>) returns (e: map<string, string>)
    ensures Get(e, "Y") == Pending(elts, 'Y') && Get(e, "m") == Pending(elts, 'm') && Get(e, "d") == Pending(elts, 'd')
    ensures Get(e, "X") == Get(elts, "X") && Get(e, "H") == Get(elts, "H") && Get(e, "M") == Get(elts, "M")
    ensures Get(e, "S") == Get(elts, "S") && Get(e, "j") == Get(elts, "j")
  {
    var e1 := SplitF(elts);
    assert Get(e1, "x") == Get(elts, "x") by { assert "x" !in {"F", "Y", "m", "d"}; }
    assert Get(e1, "X") == Get(elts, "X") by { assert "X" !in {"F", "Y", "m", "d"}; }
    assert Get(e1, "H") == Get(elts, "H") by { assert "H" !in {"F", "Y", "m", "d"}; }
    assert Get(e1, "M") == Get(elts, "M") by { assert "M" !in {"F", "Y", "m", "d"}; }
    assert Get(e1, "S") == Get(elts, "S") by { assert "S" !in {"F", "Y", "m", "d"}; }
    assert Get(e1, "j") == Get(elts, "j") by { assert "j" !in {"F", "Y", "m", "d"}; }
    e := SplitDate(e1);
    assert Get(e, "X") == Get(e1, "X") by { assert "X" !in {"x", "Y", "m", "d"}; }
    assert Get(e, "H") == Get(e1, "H") by { assert "H" !in {"x", "Y", "m", "d"}; }
    assert Get(e, "M") == Get(e1, "M") by { assert "M" !in {"x", "Y", "m", "d"}; }
    assert Get(e, "S") == Get(e1, "S") by { assert "S" !in {"x", "Y", "m", "d"}; }
    assert Get(e, "j") == Get(e1, "j") by { assert "j" !in {"x", "Y", "m", "d"}; }
  }

  /** Popping Y, m and d leaves the other elements alone. */
  lemma Popped(e: map<string, string>, a: string, b: string, c: string)
    requires a == "Y" && b == "m" && c == "d"
    ensures Get(e - {a, b, c}, "j") == Get(e, "j")
    ensures Get(e - {a, b, c}, "H") == Get(e, "H") && Get(e - {a, b, c}, "M") == Get(e, "M") && Get(e - {a, b, c}, "S") == Get(e, "S")
  {
  }

  /** Popping j leaves the time elements alone. */
  lemma PoppedDayOfYear(e: map<string, string>, j: string)
    requires j == "j"
    ensures Get(e - {j}, "H") == Get(e, "H") && Get(e - {j}, "M") == Get(e, "M") && Get(e - {j}, "S") == Get(e, "S")
  {
  }

  /** `get_elts('Ymd', process_int)` then `get_elts('j', process_doy)`. */
  method ReadDay(date: DateTime, elts: map<string, string>) returns (r: Result<(DateTime, map<string, string>)>)
    ensures r.Err? ==> DayFrom(Get(elts, "Y"), Get(elts, "m"), Get(elts, "d"), Get(elts, "j"), date) == Err(r.error)
    ensures r.Ok? ==>
      && DayFrom(Get(elts, "Y"), Get(elts, "m"), Get(elts, "d"), Get(elts, "j"), date) == Ok((r.value.0.year, r.value.0.month, r.value.0.day))
      && r.value.0.hour == date.hour && r.value.0.minute == date.minute && r.value.0.second == date.second
      && Get(r.value.1, "H") == Get(elts, "H") && Get(r.value.1, "M") == Get(elts, "M") && Get(r.value.1, "S") == Get(elts, "S")
  {
    IntsOfThree(date, elts, 'Y', 'm', 'd');
    var ymd := GetInts(date, elts, "Ymd");
    if ymd.Err? {
      return Err(ymd.error);
    }
    assert ymd.value.1 == elts - {"Y", "m", "d"};
    Popped(elts, "Y", "m", "d");
    var d, e := ymd.value.0, ymd.value.1;
    if "j" in e {
      var elt := e["j"];
      PoppedDayOfYear(e, "j");
      e := e - {"j"};
      var doy := DoyMonthDay(d.year, elt);
      if doy.Err? {
        return Err(doy.error);
      }
      d := d.(month := doy.value.0, day := doy.value.1);
    }
    return Ok((d, e));
  }

  /** `get_elts('HMS', process_int)`. */
  method ReadTime(date: DateTime, elts: map<string, string>) returns (r: Result<DateTime>)
    ensures r.Err? ==> TimeFrom(Get(elts, "H"), Get(elts, "M"), Get(elts, "S"), date) == Err(r.error)
    ensures r.Ok? ==>
      && TimeFrom(Get(elts, "H"), Get(elts, "M"), Get(elts, "S"), date) == Ok((r.value.hour, r.value.minute, r.value.second))
      && r.value.year == date.year && r.value.month == date.month && r.value.day == date.day
  {
    IntsOfThree(date, elts, 'H', 'M', 'S');
    var hms := GetInts(date, elts, "HMS");
    if hms.Err? {
      return Err(hms.error);
    }
    return Ok(hms.value.0);
  }

  /**
    The month name, then the composites: what is left are the plain
    elements `ReadDay` and `ReadTime` read.
  */
  method PopNamesAndComposites(date: DateTime, elts: map<string, string>) returns (date': DateTime, e: map<string, string>)
    ensures CalendarDay(elts, date) == DayFrom(Get(e, "Y"), Get(e, "m"), Get(e, "d"), Get(e, "j"), date')
    ensures TimeOfDay(elts, date) == TimeFrom(Get(e, "H"), Get(e, "M"), Get(e, "S"), date')
  {
    date', e := PopMonthName(date, elts);
    PoppedMonthName(elts);
    e := Decompose(e);
    ReadFromPending(elts, date, e, date');
  }

  /** Once the elements hold what `Pending` predicts, the day and time are read from them. */
  lemma ReadFromPending(elts: map<string, string>, date: DateTime, e: map<string, string>, date': DateTime)
    requires date' == date.(month := NamedMonth(elts, date.month))
    requires Get(e, "Y") == Pending(elts, 'Y') && Get(e, "m") == Pending(elts, 'm') && Get(e, "d") == Pending(elts, 'd')
    requires Get(e, "H") == Pending(elts, 'H') && Get(e, "M") == Pending(elts, 'M') && Get(e, "S") == Pending(elts, 'S')
    requires Get(e, "j") == Get(elts, "j")
    ensures CalendarDay(elts, date) == DayFrom(Get(e, "Y"), Get(e, "m"), Get(e, "d"), Get(e, "j"), date')
    ensures TimeOfDay(elts, date) == TimeFrom(Get(e, "H"), Get(e, "M"), Get(e, "S"), date')
  {
    TimeFromClock(Get(e, "H"), Get(e, "M"), Get(e, "S"), date, date');
  }

  /** The time of day read depends on the date's clock fields only. */
  lemma TimeFromClock(h: Option<string>, mi: Option<string>, s: Option<string>, a: DateTime, b: DateTime)
    requires a.hour == b.hour && a.minute == b.minute && a.second == b.second
    ensures TimeFrom(h, mi, s, a) == TimeFrom(h, mi, s, b)
  {
  }

  /** Popping the month name changes no element the date and time are read from. */
  lemma PoppedMonthName(elts: map<string, string>)
    ensures var e := elts - {"B"};
      && Pending(e, 'Y') == Pending(elts, 'Y') && Pending(e, 'm') == Pending(elts, 'm') && Pending(e, 'd') == Pending(elts, 'd')
      && Pending(e, 'H') == Pending(elts, 'H') && Pending(e, 'M') == Pending(elts, 'M') && Pending(e, 'S') == Pending(elts, 'S')
      && Get(e, "j") == Get(elts, "j")
  {
    var e := elts - {"B"};
    assert Get(e, "x") == Get(elts, "x") && Get(e, "F") == Get(elts, "F") && Get(e, "X") == Get(elts, "X");
    assert Get(e, "Y") == Get(elts, "Y") && Get(e, "m") == Get(elts, "m") && Get(e, "d") == Get(elts, "d");
    assert Get(e, "H") == Get(elts, "H") && Get(e, "M") == Get(elts, "M") && Get(e, "S") == Get(elts, "S");
    assert Get(e, "j") == Get(elts, "j");
    PendingFromSources(e, elts);
  }

  /**
    `get_date(matches, default_date, group)`: the fixed sequence of pops and
    overwrites, which ends with the date `DateOf` states.
  */
  method GetDate(matches: OldMatches, defaultDate: map<string, int>, group: Option<string>) returns (r: Result<DateTime>)
    ensures r == DateOf(Elements(matches.matches, group), defaultDate)
  {
    var date := Initial(defaultDate);
    var elts := Elements(matches.matches, group);
    ghost var calendar, clock := CalendarDay(elts, date), TimeOfDay(elts, date);

    date, elts := PopNamesAndComposites(date, elts);
    var day := ReadDay(date, elts);
    if day.Err? {
      assert calendar == Err(day.error);
      return Err(day.error);
    }
    var time := ReadTime(day.value.0, day.value.1);
    if time.Err? {
      assert clock == Err(time.error);
      return Err(time.error);
    }
    assert calendar == Ok((time.value.year, time.value.month, time.value.day));
    assert clock == Ok((time.value.hour, time.value.minute, time.value.second));
    r := MakeDate(time.value, defaultDate);
  }

  // ---------------------------------------------------------------------
  // What get_date promises

  /** The padded fields of a date have their full widths. */
  lemma PaddedWidths(t: DateTime)
    requires ValidDate(t)
    ensures |ZeroPad(t.year, 4)| == 4 && |ZeroPad(t.month, 2)| == 2 && |ZeroPad(t.day, 2)| == 2
    ensures |ZeroPad(t.hour, 2)| == 2 && |ZeroPad(t.minute, 2)| == 2 && |ZeroPad(t.second, 2)| == 2
  {
    PaddedFields(t);
  }

  lemma PaddedField(n: int, w: nat)
    requires w >= 1 && 0 <= n < Pow10(w)
    ensures |ZeroPad(n, w)| == w && ParseInt(ZeroPad(n, w)) == Ok(n)
  {
    NatToStringShort(n, w);
    ParseIntZeroPad(n, w);
  }

  lemma PaddedFields(t: DateTime)
    requires ValidDate(t)
    ensures |ZeroPad(t.year, 4)| == 4 && ParseInt(ZeroPad(t.year, 4)) == Ok(t.year)
    ensures |ZeroPad(t.month, 2)| == 2 && ParseInt(ZeroPad(t.month, 2)) == Ok(t.month)
    ensures |ZeroPad(t.day, 2)| == 2 && ParseInt(ZeroPad(t.day, 2)) == Ok(t.day)
    ensures |ZeroPad(t.hour, 2)| == 2 && ParseInt(ZeroPad(t.hour, 2)) == Ok(t.hour)
    ensures |ZeroPad(t.minute, 2)| == 2 && ParseInt(ZeroPad(t.minute, 2)) == Ok(t.minute)
    ensures |ZeroPad(t.second, 2)| == 2 && ParseInt(ZeroPad(t.second, 2)) == Ok(t.second)
  {
    assert Pow10(4) == 10000 && Pow10(2) == 100;
    PaddedField(t.year, 4);
    PaddedField(t.month, 2);
    PaddedField(t.day, 2);
    PaddedField(t.hour, 2);
    PaddedField(t.minute, 2);
    PaddedField(t.second, 2);
  }

  /**
    A date written out element by element (`%Y`, `%m`, `%d`, `%H`, `%M`,
    `%S`) is read back as that date, whatever the default date.
  */
  lemma ElementsRoundTrip(t: DateTime, elts: map<string, string>, defaults: map<string, int>)
    requires ValidDate(t) && defaults.Keys <= Fields
    requires elts == map["Y" := ZeroPad(t.year, 4), "m" := ZeroPad(t.month, 2), "d" := ZeroPad(t.day, 2),
                         "H" := ZeroPad(t.hour, 2), "M" := ZeroPad(t.minute, 2), "S" := ZeroPad(t.second, 2)]
    ensures DateOf(elts, defaults) == Ok(t)
  {
    assert "x" !in elts && "F" !in elts && "X" !in elts && "j" !in elts;
    PendingWithoutComposites(elts);
    PendingDate(elts, defaults, t);
  }

  /**
    A date written with the composites `%x` (YYYYmmdd) and `%X` (HHMMSS) is
    read back as that date.
  */
  lemma CompositesRoundTrip(t: DateTime, elts: map<string, string>, defaults: map<string, int>)
    requires ValidDate(t) && defaults.Keys <= Fields
    requires elts == map["x" := ZeroPad(t.year, 4) + ZeroPad(t.month, 2) + ZeroPad(t.day, 2),
                         "X" := ZeroPad(t.hour, 2) + ZeroPad(t.minute, 2) + ZeroPad(t.second, 2)]
    ensures DateOf(elts, defaults) == Ok(t)
  {
    PaddedWidths(t);
    var y, m, d := ZeroPad(t.year, 4), ZeroPad(t.month, 2), ZeroPad(t.day, 2);
    var h, mi, sec := ZeroPad(t.hour, 2), ZeroPad(t.minute, 2), ZeroPad(t.second, 2);
    SlicesOfThree(y, m, d, "");
    SlicesOfThree(h, mi, sec, "");
    assert y + "" + m + "" + d == elts["x"] && h + "" + mi + "" + sec == elts["X"];
    assert "j" !in elts;
    assert Pending(elts, 'Y') == Some(y) && Pending(elts, 'm') == Some(m) && Pending(elts, 'd') == Some(d);
    assert Pending(elts, 'H') == Some(h) && Pending(elts, 'M') == Some(mi) && Pending(elts, 'S') == Some(sec);
    PendingDate(elts, defaults, t);
  }

  /** The slices `Pending` takes of a composite pick out its three parts. */
  lemma SlicesOfThree(a: string, b: string, c: string, sep: string)
    requires |b| == 2 && |c| == 2 && (|a| == 4 || |a| == 2) && |sep| <= 1
    ensures var s := a + sep + b + sep + c;
      && Slice(s, 0, |a|) == a && Slice(s, |a| + |sep|, |a| + |sep| + 2) == b
      && Slice(s, |a| + 2 * |sep| + 2, |a| + 2 * |sep| + 4) == c
      && |s| > 4
  {
    var s := a + sep + b + sep + c;
    assert s[0..|a|] == a;
    assert s[|a| + |sep|..|a| + |sep| + 2] == b;
    assert s[|a| + 2 * |sep| + 2..|a| + 2 * |sep| + 4] == c;
  }

  /**
    A date written as `%F` (YYYY-mm-dd) with the time elements is read back
    as that date; a month name given beside it is overridden.
  */
  lemma IsoDateRoundTrip(t: DateTime, elts: map<string, string>, defaults: map<string, int>, name: string)
    requires ValidDate(t) && defaults.Keys <= Fields
    requires elts == map["F" := ZeroPad(t.year, 4) + "-" + ZeroPad(t.month, 2) + "-" + ZeroPad(t.day, 2),
                         "B" := name, "H" := ZeroPad(t.hour, 2), "M" := ZeroPad(t.minute, 2), "S" := ZeroPad(t.second, 2)]
    ensures DateOf(elts, defaults) == Ok(t)
  {
    PaddedWidths(t);
    var y, m, d := ZeroPad(t.year, 4), ZeroPad(t.month, 2), ZeroPad(t.day, 2);
    SlicesOfThree(y, m, d, "-");
    assert "x" !in elts && "X" !in elts && "j" !in elts;
    assert Pending(elts, 'Y') == Some(y) && Pending(elts, 'm') == Some(m) && Pending(elts, 'd') == Some(d);
    assert Get(elts, "H") == Some(ZeroPad(t.hour, 2)) && Get(elts, "M") == Some(ZeroPad(t.minute, 2)) && Get(elts, "S") == Some(ZeroPad(t.second, 2));
    PendingDate(elts, defaults, t);
  }

  /** Elements whose pending strings are the padded fields of a date, without a day of the year, give that date. */
  lemma PendingDate(elts: map<string, string>, defaults: map<string, int>, t: DateTime)
    requires ValidDate(t) && defaults.Keys <= Fields && "j" !in elts
    requires Pending(elts, 'Y') == Some(ZeroPad(t.year, 4)) && Pending(elts, 'm') == Some(ZeroPad(t.month, 2))
    requires Pending(elts, 'd') == Some(ZeroPad(t.day, 2)) && Pending(elts, 'H') == Some(ZeroPad(t.hour, 2))
    requires Pending(elts, 'M') == Some(ZeroPad(t.minute, 2)) && Pending(elts, 'S') == Some(ZeroPad(t.second, 2))
    ensures DateOf(elts, defaults) == Ok(t)
  {
    PaddedFields(t);
    var date := Initial(defaults);
    assert CalendarDay(elts, date) == Ok((t.year, t.month, t.day));
    assert TimeOfDay(elts, date) == Ok((t.hour, t.minute, t.second));
  }

  lemma YearNameDayKeys(elts: map<string, string>, y: string, b: string, d: string)
    requires elts == map["Y" := y, "B" := b, "d" := d]
    ensures "x" !in elts && "F" !in elts && "X" !in elts && "j" !in elts && "m" !in elts
    ensures "H" !in elts && "M" !in elts && "S" !in elts
    ensures Get(elts, "Y") == Some(y) && Get(elts, "d") == Some(d) && elts["B"] == b
  {
  }

  /**
    A date written as its year, a name of its month (the full name or the
    abbreviation, in any case: `MonthNameNumber`) and its day is read back as
    that date at the default time.
  */
  lemma MonthNameRoundTrip(t: DateTime, elts: map<string, string>, name: string)
    requires ValidDate(t) && t.hour == 0 && t.minute == 0 && t.second == 0
    requires FindMonthNumber(name) == Some(t.month)
    requires elts == map["Y" := ZeroPad(t.year, 4), "B" := name, "d" := ZeroPad(t.day, 2)]
    ensures DateOf(elts, map[]) == Ok(t)
  {
    PaddedFields(t);
    YearNameDayKeys(elts, ZeroPad(t.year, 4), name, ZeroPad(t.day, 2));
    var date := Initial(map[]);
    assert NamedMonth(elts, date.month) == t.month;
    PendingWithoutComposites(elts);
    assert Get(elts, "Y") == Some(ZeroPad(t.year, 4)) && Get(elts, "m") == None && Get(elts, "d") == Some(ZeroPad(t.day, 2));
    assert CalendarDay(elts, date) == Ok((t.year, t.month, t.day));
    assert Get(elts, "H") == None && Get(elts, "M") == None && Get(elts, "S") == None;
    assert TimeOfDay(elts, date) == Ok((0, 0, 0));
  }

  /** A day of the year written as `%j` gives back the month and the day. */
  lemma DayOfYearRoundTrip(y: int, m: int, d: int)
    requires ValidDay(y, m, d)
    ensures DoyMonthDay(y, ZeroPad(DayOfYear(y, m, d), 3)) == Ok((m, d))
  {
    DayOfYearBound(y, m, d);
    DaysInYearValue(y);
    ParseIntZeroPad(DayOfYear(y, m, d), 3);
    DayOfYearFromJanuary(y, m, d);
  }

  /**
    The day of the year only sets the month and the day: one past the end of
    the year gives January 1st, and the year stays the year it was read
    with.
  */
  lemma DayOfYearPastYearEnd(y: int, doy: string)
    requires 1 <= y < 9999 && ParseInt(doy) == Ok(DaysInYear(y) + 1)
    ensures DoyMonthDay(y, doy) == Ok((1, 1))
  {
    DaysInYearValue(y);
    DayOfYearFromJanuary(y, 12, 31);
    assert DayOfYear(y, 12, 31) == DaysInYear(y);
    AddDaysLast(y, 1, 1, DaysInYear(y) - 1);
  }

  /** Without any date element the result is the default date over 1970-01-01 00:00:00. */
  lemma NoElements(elts: map<string, string>, defaults: map<string, int>)
    requires forall k :: k in elts ==> k !in {"x", "X", "F", "B", "Y", "m", "d", "j", "H", "M", "S"}
    ensures DateOf(elts, defaults) == MakeDate(Initial(defaults), defaults)
    ensures DateOf(elts, map[]) == Ok(DateTime(1970, 1, 1, 0, 0, 0))
  {
    assert "x" !in elts && "X" !in elts && "F" !in elts && "B" !in elts && "j" !in elts;
    assert "Y" !in elts && "m" !in elts && "d" !in elts && "H" !in elts && "M" !in elts && "S" !in elts;
  }

  /** A default date with a key `datetime` does not take never gives a date. */
  lemma UnknownDefaultKey(elts: map<string, string>, defaults: map<string, int>)
    requires !(defaults.Keys <= Fields)
    ensures DateOf(elts, defaults).Err?
  {
  }

  /**
    The priorities, on a date that could be read: the day of the year beats
    every other source of the month and the day; x beats F, which beats Y,
    m and d; X beats H, M and S.
  */
  lemma Priorities(elts: map<string, string>, defaults: map<string, int>)
    requires DateOf(elts, defaults).Ok?
    ensures var t := DateOf(elts, defaults).value;
      && ("j" in elts ==> DoyMonthDay(t.year, elts["j"]) == Ok((t.month, t.day)))
      && ("x" in elts ==> ParseInt(Slice(elts["x"], 0, 4)) == Ok(t.year))
      && ("x" !in elts && "F" in elts ==> ParseInt(Slice(elts["F"], 0, 4)) == Ok(t.year))
      && ("x" !in elts && "F" !in elts && "Y" in elts ==> ParseInt(elts["Y"]) == Ok(t.year))
      && ("x" in elts && "j" !in elts ==> ParseInt(Slice(elts["x"], 4, 6)) == Ok(t.month))
      && ("X" in elts ==> ParseInt(Slice(elts["X"], 0, 2)) == Ok(t.hour))
      && ("X" !in elts && "H" in elts ==> ParseInt(elts["H"]) == Ok(t.hour))
  {
  }
}
