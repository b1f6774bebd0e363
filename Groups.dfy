/**
  A group of a filename pattern, `%(definition)` (group.py): parsing its
  definition into a name, a regex, a format and flags, expanding `%L`
  shortcuts in its regex, and fixing it to given values.

  The match of a definition against the group PATTERN regex is an input
  (`DefinitionMatch`): the captured spec of each kind, with its span.
*/
module Groups {
  import opened Common
  import opened Strings
  import opened Format

  // ---------------------------------------------------------------------
  // Spans of a definition and the duplicate-spec check

  /** The offsets `(m.start(k), m.end(k))` of a captured group. */
  datatype Span = Span(start: int, end: int)

  /** Inserts `x` before the first span that does not start before it. */
  function Insert(x: Span, l: seq<Span>): (r: seq<Span>)
    ensures multiset(r) == multiset(l) + multiset{x}
  {
    if |l| == 0 || x.start <= l[0].start then [x] + l
    else
      assert l == [l[0]] + l[1..];
      [l[0]] + Insert(x, l[1..])
  }

  /** Python's stable `list.sort(key=lambda x: x[0])`. */
  function SortByStart(l: seq<Span>): (r: seq<Span>)
    ensures multiset(r) == multiset(l)
  {
    if |l| == 0 then []
    else
      assert l == [l[0]] + l[1..];
      Insert(l[0], SortByStart(l[1..]))
  }

  predicate SortedByStart(l: seq<Span>) {
    forall j, k :: 0 <= j < k < |l| ==> l[j].start <= l[k].start
  }

  lemma {:induction false} InsertSorted(x: Span, l: seq<Span>)
    requires SortedByStart(l)
    ensures SortedByStart(Insert(x, l))
  {
    if |l| > 0 && x.start > l[0].start {
      InsertSorted(x, l[1..]);
      var r := Insert(x, l[1..]);
      assert forall k :: 0 <= k < |r| ==> r[k] in multiset(l[1..]) + multiset{x};
      forall k | 0 <= k < |r|
        ensures l[0].start <= r[k].start
      {
        assert r[k] in multiset(l[1..]) + multiset{x};
        if r[k] != x {
          assert r[k] in l[1..];
        }
      }
    }
  }

  lemma {:induction false} SortByStartSorted(l: seq<Span>)
    ensures SortedByStart(SortByStart(l))
  {
    if |l| > 0 {
      SortByStartSorted(l[1..]);
      InsertSorted(l[0], SortByStart(l[1..]));
    }
  }

  /** The check's loop condition: each span starts where the previous one ended, from `pos`. */
  predicate Chains(l: seq<Span>, pos: int) {
    |l| == 0 || (l[0].start == pos && Chains(l[1..], l[0].end))
  }

  /** The spans that `_check_duplicates` walks through: sorted, then `(n, n)`. */
  function AccountedFor(spans: seq<Span>, n: int): seq<Span> {
    SortByStart(spans) + [Span(n, n)]
  }

  /** `_check_duplicates`: true when the definition raises no GroupParseError. */
  method CheckDuplicates(spans: seq<Span>, n: int) returns (ok: bool)
    ensures ok == Chains(AccountedFor(spans, n), 0)
  {
    var accounted := AccountedFor(spans, n);
    var pos := 0;
    for i := 0 to |accounted|
      invariant Chains(accounted, 0) == Chains(accounted[i..], pos)
    {
      assert accounted[i..][1..] == accounted[i + 1..];
      if pos == accounted[i].start {
        pos := accounted[i].end;
      } else {
        return false;
      }
    }
    return true;
  }

  // The spans exactly tile [0, n).

  predicate Overlap(a: Span, b: Span) {
    a.start < b.end && b.start < a.end
  }

  predicate Disjoint(l: seq<Span>) {
    forall j, k :: 0 <= j < k < |l| ==> !Overlap(l[j], l[k])
  }

  predicate Covered(l: seq<Span>, i: int) {
    exists s :: s in l && s.start <= i < s.end
  }

  /** Non-empty spans inside `[lo, n]`, pairwise disjoint, covering every position of `[lo, n)`. */
  predicate Tiles(l: seq<Span>, lo: int, n: int) {
    && (forall s :: s in l ==> lo <= s.start < s.end <= n)
    && Disjoint(l)
    && (forall i :: lo <= i < n ==> Covered(l, i))
  }

  /** Passing the check leaves no position of the definition unaccounted for. */
  lemma {:induction false} ChainsCovers(l: seq<Span>, pos: int, n: int)
    requires Chains(l + [Span(n, n)], pos)
    ensures forall i :: pos <= i < n ==> Covered(l, i)
  {
    if |l| == 0 {
      assert (l + [Span(n, n)])[0] == Span(n, n);
    } else {
      assert (l + [Span(n, n)])[1..] == l[1..] + [Span(n, n)];
      ChainsCovers(l[1..], l[0].end, n);
      forall i | pos <= i < n
        ensures Covered(l, i)
      {
        if i < l[0].end {
          assert l[0] in l;
        } else {
          assert Covered(l[1..], i);
          var s :| s in l[1..] && s.start <= i < s.end;
          assert s in l;
        }
      }
    }
  }

  /** A chain of non-empty spans lies inside `[pos, n]`, each span ending before the next starts. */
  lemma {:induction false} ChainsDisjoint(l: seq<Span>, pos: int, n: int)
    requires Chains(l + [Span(n, n)], pos)
    requires forall k :: 0 <= k < |l| ==> l[k].start < l[k].end
    ensures forall k :: 0 <= k < |l| ==> pos <= l[k].start < l[k].end <= n
    ensures forall j, k :: 0 <= j < k < |l| ==> l[j].end <= l[k].start
  {
    if |l| > 0 {
      assert (l + [Span(n, n)])[1..] == l[1..] + [Span(n, n)];
      ChainsDisjoint(l[1..], l[0].end, n);
      assert forall k :: 1 <= k < |l| ==> l[k] == l[1..][k - 1];
    }
  }

  /** The first span of a sorted tiling of `[pos, n)` starts at `pos`; the others tile the rest. */
  lemma TilesTail(l: seq<Span>, pos: int, n: int)
    requires |l| > 0 && SortedByStart(l) && Tiles(l, pos, n)
    ensures l[0].start == pos && l[0].end <= n
    ensures SortedByStart(l[1..]) && Tiles(l[1..], l[0].end, n)
  {
    assert l[0] in l;
    // the span covering `pos` must start there, and so must the first one
    assert Covered(l, pos);
    var c :| c in l && c.start <= pos < c.end;
    var k :| 0 <= k < |l| && l[k] == c;
    assert l[0].start == pos;
    var rest := l[1..];
    forall s | s in rest
      ensures l[0].end <= s.start < s.end <= n
    {
      var j :| 0 <= j < |rest| && rest[j] == s;
      assert rest[j] == l[j + 1];
      assert !Overlap(l[0], l[j + 1]);
    }
    forall i | l[0].end <= i < n
      ensures Covered(rest, i)
    {
      assert Covered(l, i);
      var s :| s in l && s.start <= i < s.end;
      var k :| 0 <= k < |l| && l[k] == s;
      assert k != 0;
      assert rest[k - 1] == s;
    }
    assert Disjoint(rest) by {
      forall j, k | 0 <= j < k < |rest|
        ensures !Overlap(rest[j], rest[k])
      {
        assert rest[j] == l[j + 1] && rest[k] == l[k + 1];
      }
    }
  }

  /** A sorted tiling of `[pos, n)` passes the check from `pos`. */
  lemma {:induction false} TilesChain(l: seq<Span>, pos: int, n: int)
    requires pos <= n
    requires SortedByStart(l) && Tiles(l, pos, n)
    ensures Chains(l + [Span(n, n)], pos)
  {
    if |l| == 0 {
      assert !Covered(l, pos);
      assert n <= pos;
      assert (l + [Span(n, n)])[0] == Span(n, n);
      assert (l + [Span(n, n)])[1..] == [];
    } else {
      TilesTail(l, pos, n);
      TilesChain(l[1..], l[0].end, n);
      assert (l + [Span(n, n)])[1..] == l[1..] + [Span(n, n)];
    }
  }

  // Sorting neither adds, drops nor separates spans.

  lemma SortSameMembers(l: seq<Span>)
    ensures forall s :: s in l <==> s in SortByStart(l)
  {
    var r := SortByStart(l);
    assert forall s :: s in l <==> s in multiset(l);
    assert forall s :: s in r <==> s in multiset(r);
  }

  lemma DisjointCons(x: Span, l: seq<Span>)
    ensures Disjoint([x] + l) <==> Disjoint(l) && forall s :: s in l ==> !Overlap(x, s)
  {
    var r := [x] + l;
    assert forall k :: 1 <= k < |r| ==> r[k] == l[k - 1];
    if Disjoint(r) {
      forall s | s in l
        ensures !Overlap(x, s)
      {
        var k :| 0 <= k < |l| && l[k] == s;
        assert !Overlap(r[0], r[k + 1]);
      }
      forall j, k | 0 <= j < k < |l|
        ensures !Overlap(l[j], l[k])
      {
        assert !Overlap(r[j + 1], r[k + 1]);
      }
    }
    if Disjoint(l) && forall s :: s in l ==> !Overlap(x, s) {
      forall j, k | 0 <= j < k < |r|
        ensures !Overlap(r[j], r[k])
      {
        if j == 0 {
          assert r[k] in l;
        }
      }
    }
  }

  lemma {:induction false} InsertDisjoint(x: Span, l: seq<Span>)
    ensures Disjoint(Insert(x, l)) <==> Disjoint(l) && forall s :: s in l ==> !Overlap(x, s)
  {
    if |l| == 0 || x.start <= l[0].start {
      DisjointCons(x, l);
    } else {
      var t := Insert(x, l[1..]);
      InsertDisjoint(x, l[1..]);
      DisjointCons(l[0], t);
      DisjointCons(l[0], l[1..]);
      assert l == [l[0]] + l[1..];
      assert Insert(x, l) == [l[0]] + t;
      assert forall s :: s in t <==> s in multiset(l[1..]) + multiset{x};
      assert forall s :: s in t <==> s == x || s in l[1..];
      assert forall s :: s in l <==> s == l[0] || s in l[1..];
      if Disjoint(Insert(x, l)) {
        assert !Overlap(l[0], x) by { assert x in t; }
      }
      if Disjoint(l) && forall s :: s in l ==> !Overlap(x, s) {
        assert l[0] in l;
        assert forall s :: s in t ==> !Overlap(l[0], s);
      }
    }
  }

  lemma {:induction false} SortDisjoint(l: seq<Span>)
    ensures Disjoint(SortByStart(l)) <==> Disjoint(l)
  {
    if |l| > 0 {
      SortDisjoint(l[1..]);
      SortSameMembers(l[1..]);
      InsertDisjoint(l[0], SortByStart(l[1..]));
      DisjointCons(l[0], l[1..]);
      assert l == [l[0]] + l[1..];
    }
  }

  /** A chain of non-empty spans from 0 to `n` tiles `[0, n)`. */
  lemma ChainsTiles(l: seq<Span>, n: int)
    requires Chains(l + [Span(n, n)], 0)
    requires forall s :: s in l ==> s.start < s.end
    ensures Tiles(l, 0, n)
  {
    ChainsCovers(l, 0, n);
    assert forall k :: 0 <= k < |l| ==> l[k] in l;
    ChainsDisjoint(l, 0, n);
  }

  /** Whether spans tile a range does not depend on their order. */
  lemma SortTiles(l: seq<Span>, lo: int, n: int)
    ensures Tiles(SortByStart(l), lo, n) <==> Tiles(l, lo, n)
  {
    var sorted := SortByStart(l);
    SortSameMembers(l);
    SortDisjoint(l);
    forall i
      ensures Covered(sorted, i) <==> Covered(l, i)
    {
      if Covered(l, i) {
        var s :| s in l && s.start <= i < s.end;
        assert s in sorted;
      }
      if Covered(sorted, i) {
        var s :| s in sorted && s.start <= i < s.end;
        assert s in l;
      }
    }
  }

  /**
    For the non-empty spans a definition match captures, `_check_duplicates`
    passes exactly when they tile the whole definition `[0, n)`: any
    overwritten duplicate spec leaves a gap and is reported.
  */
  lemma CheckDuplicatesTiles(spans: seq<Span>, n: int)
    requires 0 <= n
    requires forall s :: s in spans ==> s.start < s.end
    ensures Chains(AccountedFor(spans, n), 0) <==> Tiles(spans, 0, n)
  {
    var sorted := SortByStart(spans);
    SortSameMembers(spans);
    SortTiles(spans, 0, n);
    if Chains(AccountedFor(spans, n), 0) {
      ChainsTiles(sorted, n);
    }
    if Tiles(spans, 0, n) {
      SortByStartSorted(spans);
      TilesChain(sorted, 0, n);
    }
  }

  // ---------------------------------------------------------------------
  // Default groups and the `%L` shortcuts of a regex

  /** DEFAULT_GROUPS: the regex and the format spec of the group names known in advance. */
  const DefaultGroups: map<string, (string, string)> := map[
    "I" := (@"\d+", "d"),
    "Y" := (@"\d{4}", "04d"),
    "m" := (@"\d\d", "02d"),
    "d" := (@"\d\d", "02d"),
    "j" := (@"\d{3}", "03d"),
    "H" := (@"\d\d", "02d"),
    "M" := (@"\d\d", "02d"),
    "S" := (@"\d\d", "02d"),
    "x" := ("%Y%m%d", "08d"),
    "X" := ("%H%M%S", "06d"),
    "F" := ("%Y-%m-%d", "s"),
    "B" := ("[a-zA-Z]*", "s"),
    "text" := (@"\w", "s"),
    "char" := (@"\S*", "s")]

  /** No `%x`, `%X` or `%F`: the shortcuts whose own default regex holds shortcuts. */
  predicate NoNestedShortcut(s: string) {
    forall i :: 0 <= i < |s| - 1 && s[i] == '%' ==> s[i + 1] != 'x' && s[i + 1] != 'X' && s[i + 1] != 'F'
  }

  /** Only the date and time shortcuts expand into further shortcuts, and those expand no further. */
  lemma DefaultRegexShortcuts()
    ensures forall name :: name in DefaultGroups ==> NoNestedShortcut(DefaultGroups[name].0)
    ensures forall c :: [c] in DefaultGroups && c != 'x' && c != 'X' && c != 'F' ==> '%' !in DefaultGroups[[c]].0
  {
  }

  /** A shortcut allowed inside a default regex expands to a regex without `%`. */
  lemma NestedShortcutPlain(s: string)
    requires NoNestedShortcut(s) && |s| >= 2 && s[0] == '%' && [s[1]] in DefaultGroups
    ensures '%' !in DefaultGroups[[s[1]]].0
  {
    DefaultRegexShortcuts();
  }

  /**
    `re.sub("%([a-zA-Z%])", replace, s)`, scanning left to right: `%%`
    gives `%`, a known letter its default regex (expanded in turn when it
    holds a `%`), an unknown letter KeyError. `nested` marks the expansion
    of a default regex, which holds no nested shortcut.
  */
  function ReplaceIn(s: string, nested: bool): (r: Result<string>)
    requires nested ==> NoNestedShortcut(s)
    ensures r.Err? ==> r.error == KeyError
    decreases if nested then 0 else 1, |s|
  {
    if |s| == 0 then Ok("")
    else if s[0] == '%' && |s| >= 2 && (IsLetter(s[1]) || s[1] == '%') then
      var head :-
        if s[1] == '%' then Ok("%")
        else if [s[1]] !in DefaultGroups then Err(KeyError)
        else if '%' in DefaultGroups[[s[1]]].0 then
          if nested then NestedShortcutPlain(s); assert false; Err(KeyError)
          else DefaultRegexShortcuts(); ReplaceIn(DefaultGroups[[s[1]]].0, true)
        else Ok(DefaultGroups[[s[1]]].0);
      var rest :- ReplaceIn(s[2..], nested);
      Ok(head + rest)
    else
      var rest :- ReplaceIn(s[1..], nested);
      Ok([s[0]] + rest)
  }

  /** `_replace_regex_defaults`. */
  function ReplaceDefaults(s: string): Result<string> {
    ReplaceIn(s, false)
  }

  /** Doubling every `%` is undone by the expansion: `%%` is how a literal `%` is written. */
  lemma {:induction false} ReplaceEscapedPercent(s: string)
    ensures ReplaceDefaults(EscapePercent(s)) == Ok(s)
  {
    if |s| > 0 {
      ReplaceEscapedPercent(s[1..]);
      var e := EscapePercent(s);
      if s[0] == '%' {
        assert e == "%%" + EscapePercent(s[1..]);
        assert e[2..] == EscapePercent(s[1..]);
      } else {
        assert e == [s[0]] + EscapePercent(s[1..]);
        assert e[1..] == EscapePercent(s[1..]);
      }
      assert [s[0]] + s[1..] == s;
    }
  }

  /** A regex without `%` is kept as it is. */
  lemma ReplaceWithoutPercent(s: string)
    requires '%' !in s
    ensures ReplaceDefaults(s) == Ok(s)
  {
    ReplaceEscapedPercent(s);
  }

  /** The text `p` in front of a successful expansion. */
  function Prepend(p: string, r: Result<string>): Result<string> {
    if r.Ok? then Ok(p + r.value) else r
  }

  lemma ReplaceInPlain(c: char, t: string, nested: bool)
    requires c != '%'
    requires nested ==> NoNestedShortcut([c] + t) && NoNestedShortcut(t)
    ensures ReplaceIn([c] + t, nested) == Prepend([c], ReplaceIn(t, nested))
  {
    assert ([c] + t)[1..] == t;
  }

  lemma ReplaceInShortcut(c: char, t: string, nested: bool)
    requires c == '%' || ([c] in DefaultGroups && IsLetter(c) && '%' !in DefaultGroups[[c]].0)
    requires nested ==> NoNestedShortcut(['%', c] + t) && NoNestedShortcut(t)
    ensures ReplaceIn(['%', c] + t, nested)
         == Prepend(if c == '%' then "%" else DefaultGroups[[c]].0, ReplaceIn(t, nested))
  {
    assert (['%', c] + t)[2..] == t;
  }

  /** A `%` followed by neither a letter nor `%` is not a shortcut and is copied through. */
  lemma ReplaceInLonePercent(t: string, nested: bool)
    requires |t| == 0 || (!IsLetter(t[0]) && t[0] != '%')
    requires nested ==> NoNestedShortcut(['%'] + t) && NoNestedShortcut(t)
    ensures ReplaceIn(['%'] + t, nested) == Prepend("%", ReplaceIn(t, nested))
  {
    assert (['%'] + t)[1..] == t;
  }

  /** A letter that names no default group raises KeyError, whatever follows it. */
  lemma ReplaceInUnknownLetter(c: char, t: string, nested: bool)
    requires IsLetter(c) && [c] !in DefaultGroups
    requires nested ==> NoNestedShortcut(['%', c] + t)
    ensures ReplaceIn(['%', c] + t, nested) == Err(KeyError)
  {
  }

  /** `-100%%` expands to `-100%`. */
  lemma ReplaceDigitsAndPercent(t: string)
    requires t == "-100%%"
    ensures ReplaceDefaults(t) == Ok("-100%")
  {
    var p0, p1, p2, p3, e := "0%%", "00%%", "100%%", "%%", "";
    assert p3 == ['%', '%'] + e;
    ReplaceInShortcut('%', e, false);
    assert "%" + "" == "%";
    assert p0 == ['0'] + p3;
    ReplaceInPlain('0', p3, false);
    assert "0" + "%" == "0%";
    assert p1 == ['0'] + p0;
    ReplaceInPlain('0', p0, false);
    assert "0" + "0%" == "00%";
    assert p2 == ['1'] + p1;
    ReplaceInPlain('1', p1, false);
    assert "1" + "00%" == "100%";
    assert t == ['-'] + p2;
    ReplaceInPlain('-', p2, false);
    assert "-" + "100%" == "-100%";
  }

  /** `%Y-100%%` expands to `\d{4}-100%`. */
  lemma ReplaceYearAndPercent(s: string)
    requires s == "%Y-100%%"
    ensures ReplaceDefaults(s) == Ok(@"\d{4}-100%")
  {
    var t := "-100%%";
    ReplaceDigitsAndPercent(t);
    assert DefaultGroups["Y"].0 == @"\d{4}";
    assert s == ['%', 'Y'] + t;
    ReplaceInShortcut('Y', t, false);
    assert @"\d{4}" + "-100%" == @"\d{4}-100%";
  }

  lemma ReplaceInNestedShortcut(c: char, rep: string, t: string)
    requires [c] in DefaultGroups && IsLetter(c) && DefaultGroups[[c]].0 == rep
    requires '%' in rep && NoNestedShortcut(rep) && ReplaceIn(rep, true).Ok?
    ensures ReplaceIn(['%', c] + t, false) == Prepend(ReplaceIn(rep, true).value, ReplaceIn(t, false))
  {
    assert (['%', c] + t)[2..] == t;
  }

  /** `%m%d` expands to `\d\d\d\d` inside a default regex. */
  /** The digit shortcuts of a date, and their default regexes, which hold no `%`. */
  lemma DigitShortcuts()
    ensures ['Y'] in DefaultGroups && DefaultGroups[['Y']].0 == @"\d{4}" && '%' !in @"\d{4}"
    ensures ['m'] in DefaultGroups && DefaultGroups[['m']].0 == @"\d\d" && '%' !in @"\d\d"
    ensures ['d'] in DefaultGroups && DefaultGroups[['d']].0 == @"\d\d"
  {
    assert ['Y'] == "Y" && ['m'] == "m" && ['d'] == "d";
  }

  lemma MonthDayExpands(md: string)
    requires md == "%m%d"
    ensures NoNestedShortcut(md)
    ensures ReplaceIn(md, true) == Ok(@"\d\d\d\d")
  {
    var dd, empty := "%d", "";
    DigitShortcuts();
    assert NoNestedShortcut(dd) && NoNestedShortcut(md) && NoNestedShortcut(empty);
    assert dd == ['%', 'd'] + empty;
    ReplaceInShortcut('d', empty, true);
    assert @"\d\d" + "" == @"\d\d";
    assert md == ['%', 'm'] + dd;
    ReplaceInShortcut('m', dd, true);
    assert @"\d\d" + @"\d\d" == @"\d\d\d\d";
  }

  /** `%Y%m%d`, the default regex of `x`, expands to `\d{4}\d\d\d\d`. */
  lemma DateDefaultExpands(d: string)
    requires d == "%Y%m%d"
    ensures NoNestedShortcut(d)
    ensures ReplaceIn(d, true) == Ok(@"\d{4}\d\d\d\d")
  {
    var md := "%m%d";
    MonthDayExpands(md);
    DigitShortcuts();
    assert NoNestedShortcut(d);
    assert d == ['%', 'Y'] + md;
    ReplaceInShortcut('Y', md, true);
    assert @"\d{4}" + @"\d\d\d\d" == @"\d{4}\d\d\d\d";
  }

  /** `%x` expands through `%Y%m%d` to `\d{4}\d\d\d\d`. */
  lemma ReplaceDateShortcut(s: string)
    requires s == "%x"
    ensures ReplaceDefaults(s) == Ok(@"\d{4}\d\d\d\d")
  {
    var d := "%Y%m%d";
    assert DefaultGroups["x"].0 == d;
    DateDefaultExpands(d);
    var e := "";
    assert s == ['%', 'x'] + e;
    ReplaceInNestedShortcut('x', d, e);
    assert @"\d{4}\d\d\d\d" + "" == @"\d{4}\d\d\d\d";
  }

  /** `%e` is no known shortcut: KeyError. */
  lemma ReplaceUnknownShortcut(s: string)
    requires s == "%e"
    ensures ReplaceDefaults(s) == Err(KeyError)
  {
    assert "e" !in DefaultGroups;
    assert s == ['%', 'e'] + [];
    ReplaceInUnknownLetter('e', [], false);
  }

  // ---------------------------------------------------------------------
  // Resolving a definition

  /**
    The fullmatch of a definition against PATTERN: the span of the name and
    of the last captured spec of each kind, in the pattern's group order.
  */
  datatype DefinitionMatch = DefinitionMatch(
    name: Span,
    fmt: Option<Span>,
    rgx: Option<Span>,
    boolSpec: Option<Span>,
    opt: Option<Span>,
    discard: Option<Span>)

  predicate SpanIn(definition: string, sp: Span) {
    0 <= sp.start <= sp.end <= |definition|
  }

  /** The regex engine reports offsets inside the definition. */
  predicate InBounds(definition: string, m: DefinitionMatch) {
    && SpanIn(definition, m.name)
    && (m.fmt.Some? ==> SpanIn(definition, m.fmt.value))
    && (m.rgx.Some? ==> SpanIn(definition, m.rgx.value))
    && (m.boolSpec.Some? ==> SpanIn(definition, m.boolSpec.value))
    && (m.opt.Some? ==> SpanIn(definition, m.opt.value))
    && (m.discard.Some? ==> SpanIn(definition, m.discard.value))
  }

  function OptSpan(sp: Option<Span>): seq<Span> {
    if sp.Some? then [sp.value] else []
  }

  /** The spans `_check_duplicates` collects, in `groupdict()` order. */
  function CapturedSpans(m: DefinitionMatch): seq<Span> {
    [m.name] + OptSpan(m.fmt) + OptSpan(m.rgx) + OptSpan(m.boolSpec) + OptSpan(m.opt) + OptSpan(m.discard)
  }

  /** A spec's text once `:key=` is removed from the front. */
  function SpecText(definition: string, sp: Option<Span>, key: string): Option<string>
    requires sp.Some? ==> SpanIn(definition, sp.value)
  {
    if sp.Some? then Some(RemovePrefix(definition[sp.value.start..sp.value.end], ":" + key + "=")) else None
  }

  /** Python truthiness of an optional string: present and non-empty. */
  predicate Truthy(s: Option<string>) {
    s.Some? && |s.value| > 0
  }

  /** The resolved attributes of a group. */
  datatype Definition = Definition(
    name: string,
    rgx: string,
    fmt: Format,
    discard: bool,
    optional: bool,
    options: Option<(string, string)>)

  /** `get_format("s")`, the format of a group before its definition is read. */
  const InitialFormat := Format("s", 's', ' ', '>', '-', false, false, 0, "", 6)

  lemma InitialFormatOf(spec: string)
    requires spec == "s"
    ensures FormatOf(spec) == Ok(InitialFormat)
  {
    var m := SpecMatch(None, None, None, false, false, false, None, None, None, 's');
    assert Render(m) == "s";
    FormatOfExample(spec, m, InitialFormat);
  }

  /** The regex and format a name starts from: its default group, or "" and `s`. */
  function Seed(name: string): Result<(string, Format)> {
    if name in DefaultGroups then
      var f :- FormatOf(DefaultGroups[name].1);
      Ok((DefaultGroups[name].0, f))
    else Ok(("", InitialFormat))
  }

  /** `:bool=A:B` split on its first `:`, a missing second part being "". */
  function BoolParts(b: string): (r: seq<string>)
    ensures |r| == 2
  {
    var parts := SplitOnce(b, ':');
    if |parts| == 1 then parts + [""] else parts
  }

  /** The captured specs of a definition, `:key=` removed, and its flags. */
  datatype Specs = Specs(
    name: string,
    fmt: Option<string>,
    rgx: Option<string>,
    boolSpec: Option<string>,
    discard: bool,
    opt: bool)

  function SpecsOf(definition: string, d: DefinitionMatch): Specs
    requires InBounds(definition, d)
  {
    Specs(definition[d.name.start..d.name.end],
          SpecText(definition, d.fmt, "fmt"),
          SpecText(definition, d.rgx, "rgx"),
          SpecText(definition, d.boolSpec, "bool"),
          d.discard.Some?,
          d.opt.Some?)
  }

  /** The definition passes the match and the duplicate check. */
  predicate Accepted(definition: string, m: Option<DefinitionMatch>) {
    && m.Some?
    && InBounds(definition, m.value)
    && Chains(AccountedFor(CapturedSpans(m.value), |definition|), 0)
  }

  /**
    The attributes given by accepted specs: the default group seeds the
    regex and format, `:fmt=` replaces the format (and the regex, unless
    `:rgx=` is given), `:bool=` sets the regex to its alternation, `:rgx=`
    sets it last, and the `%L` shortcuts are expanded.
  */
  function ResolveSpecs(sp: Specs): Result<Definition> {
    var seed :- Seed(sp.name);
    var formatted :- FmtStage(sp, seed);
    var alternation := BoolStage(sp, formatted.0);
    var rgx :- ReplaceDefaults(if Truthy(sp.rgx) then sp.rgx.value else alternation.0);
    Ok(Definition(sp.name, rgx, formatted.1, sp.discard, sp.opt, alternation.1))
  }

  /** `:fmt=` replaces the format and, unless `:rgx=` is given, the regex. */
  function FmtStage(sp: Specs, seed: (string, Format)): Result<(string, Format)> {
    if Truthy(sp.fmt) then
      var fmt :- FormatOf(sp.fmt.value);
      if Truthy(sp.rgx) then Ok((seed.0, fmt))
      else
        var generated :- GenerateExpression(fmt);
        Ok((generated, fmt))
    else Ok(seed)
  }

  /** `:bool=` sets the options and the regex to their alternation. */
  function BoolStage(sp: Specs, rgx: string): (string, Option<(string, string)>) {
    if sp.boolSpec.Some? then
      var parts := BoolParts(sp.boolSpec.value);
      (Join("|", parts), Some((parts[1], parts[0])))
    else (rgx, None)
  }

  /**
    `_parse_group_definition`: a definition PATTERN does not match, or
    with a duplicate spec, is a GroupParseError; otherwise its specs are
    resolved.
  */
  function ResolveDefinition(definition: string, m: Option<DefinitionMatch>): Result<Definition>
    requires m.Some? ==> InBounds(definition, m.value)
  {
    if !Accepted(definition, m) then Err(GroupParseError)
    else ResolveSpecs(SpecsOf(definition, m.value))
  }

  /** A definition is resolved only once accepted, from the specs it holds. */
  lemma ResolveDefinitionCases(definition: string, m: Option<DefinitionMatch>)
    requires m.Some? ==> InBounds(definition, m.value)
    ensures !Accepted(definition, m) ==> ResolveDefinition(definition, m) == Err(GroupParseError)
    ensures Accepted(definition, m) ==> ResolveDefinition(definition, m) == ResolveSpecs(SpecsOf(definition, m.value))
  {
  }

  lemma FormatOfErrorKinds(spec: string)
    ensures FormatOf(spec).Err? ==> FormatOf(spec).error == ValueError || FormatOf(spec).error == KeyError
  {
  }

  /** Resolving accepted specs fails only with the ValueError or KeyError of a format or a shortcut. */
  lemma ResolveSpecsErrors(sp: Specs)
    ensures ResolveSpecs(sp).Err? ==> ResolveSpecs(sp).error == ValueError || ResolveSpecs(sp).error == KeyError
  {
    SeedErrors(sp.name);
    var seed := Seed(sp.name);
    if seed.Ok? {
      FmtStageErrors(sp, seed.value);
    }
  }

  lemma SeedErrors(name: string)
    ensures Seed(name).Err? ==> Seed(name).error == ValueError || Seed(name).error == KeyError
  {
    if name in DefaultGroups {
      FormatOfErrorKinds(DefaultGroups[name].1);
    }
  }

  lemma FmtStageErrors(sp: Specs, seed: (string, Format))
    ensures FmtStage(sp, seed).Err? ==> FmtStage(sp, seed).error == ValueError || FmtStage(sp, seed).error == KeyError
  {
    if Truthy(sp.fmt) {
      FormatOfErrorKinds(sp.fmt.value);
    }
  }

  /**
    GroupParseError is raised exactly when the definition does not match
    PATTERN or holds a duplicate spec.
  */
  lemma ResolveErrors(definition: string, m: Option<DefinitionMatch>)
    requires m.Some? ==> InBounds(definition, m.value)
    ensures ResolveDefinition(definition, m) == Err(GroupParseError) <==> !Accepted(definition, m)
  {
    if Accepted(definition, m) {
      ResolveSpecsErrors(SpecsOf(definition, m.value));
    }
  }

  /** `:rgx=` wins over the default, `:fmt=` and `:bool=`: the regex is its expansion. */
  lemma RgxSpecWins(sp: Specs)
    requires Truthy(sp.rgx)
    requires ResolveSpecs(sp).Ok?
    ensures ReplaceDefaults(sp.rgx.value) == Ok(ResolveSpecs(sp).value.rgx)
  {
  }

  /**
    `:fmt=` replaces the format; without `:rgx=` and `:bool=` the regex is
    then the one generated from that format.
  */
  lemma FmtSpecReplaces(sp: Specs)
    requires Truthy(sp.fmt)
    requires ResolveSpecs(sp).Ok?
    ensures FormatOf(sp.fmt.value) == Ok(ResolveSpecs(sp).value.fmt)
    ensures !Truthy(sp.rgx) && sp.boolSpec.None? ==>
      && GenerateExpression(ResolveSpecs(sp).value.fmt).Ok?
      && ReplaceDefaults(GenerateExpression(ResolveSpecs(sp).value.fmt).value) == Ok(ResolveSpecs(sp).value.rgx)
  {
  }

  /**
    Without `:fmt=`, the format is the default group's (or `s` for an
    unknown name); without any of `:fmt=`, `:rgx=`, `:bool=` the regex is
    the default group's, expanded (or "" for an unknown name).
  */
  lemma DefaultSeeds(sp: Specs)
    requires !Truthy(sp.fmt)
    requires ResolveSpecs(sp).Ok?
    ensures sp.name in DefaultGroups ==> FormatOf(DefaultGroups[sp.name].1) == Ok(ResolveSpecs(sp).value.fmt)
    ensures sp.name !in DefaultGroups ==> ResolveSpecs(sp).value.fmt == InitialFormat
    ensures !Truthy(sp.rgx) && sp.boolSpec.None? && sp.name in DefaultGroups ==>
      ReplaceDefaults(DefaultGroups[sp.name].0) == Ok(ResolveSpecs(sp).value.rgx)
    ensures !Truthy(sp.rgx) && sp.boolSpec.None? && sp.name !in DefaultGroups ==>
      ResolveSpecs(sp).value.rgx == ""
  {
    ReplaceWithoutPercent("");
  }

  /** `s.split(":", maxsplit=1)` of `a:b`, when `a` holds no `:`. */
  lemma SplitOnceAt(a: string, b: string)
    requires ':' !in a
    ensures SplitOnce(a + ":" + b, ':') == [a, b]
  {
    var t := a + ":" + b;
    var sp := SplitOnce(t, ':');
    assert t[|a|] == ':';
    assert sp[0] == t[..|a|] == a;
    assert sp[1] == t[|a| + 1..] == b;
  }

  /**
    `:bool=A:B` splits on the first `:` only: the options are `(B, A)`
    (the False then the True choice) and, without `:rgx=`, the regex
    expands `A|B`; a bare `:bool=A` gives `("", A)` and `A|`.
  */
  lemma BoolOptions(sp: Specs, a: string, b: string)
    requires ':' !in a
    requires sp.boolSpec == Some(a + ":" + b) || (sp.boolSpec == Some(a) && b == "")
    requires ResolveSpecs(sp).Ok?
    ensures ResolveSpecs(sp).value.options == Some((b, a))
    ensures !Truthy(sp.rgx) ==> ReplaceDefaults(a + "|" + b) == Ok(ResolveSpecs(sp).value.rgx)
  {
    if sp.boolSpec == Some(a + ":" + b) {
      SplitOnceAt(a, b);
    }
    assert BoolParts(sp.boolSpec.value) == [a, b];
    assert Join("|", [a, b]) == a + "|" + b;
  }

  /**
    The "no regex" check compares the regex with None, but it starts as "":
    a name without default and without specs is accepted with an empty regex.
  */
  lemma EmptyRegexAccepted(sp: Specs)
    requires sp.name !in DefaultGroups
    requires sp.fmt.None? && sp.rgx.None? && sp.boolSpec.None?
    ensures ResolveSpecs(sp) == Ok(Definition(sp.name, "", InitialFormat, sp.discard, sp.opt, None))
  {
    ReplaceWithoutPercent("");
  }

  // ---------------------------------------------------------------------
  // Fixing a group to values

  /**
    The values a fix stands for: a boolean picks one of the `:bool=`
    options (ValueError without them), a single value is a one-element
    list, and an empty list is a ValueError.
  */
  function FixItems(fix: FixArg, options: Option<(string, string)>): (r: Result<seq<Value>>)
    ensures r.Err? <==> (fix.One? && fix.v.Bool? && options.None?) || (fix.Many? && |fix.vs| == 0)
    ensures r.Err? ==> r.error == ValueError
    ensures r.Ok? ==> |r.value| >= 1
    ensures r.Ok? && fix.One? && fix.v.Bool? ==>
      r.value == [Str(if fix.v.b then options.value.1 else options.value.0)]
    ensures r.Ok? && fix.One? && !fix.v.Bool? ==> r.value == [fix.v]
    ensures r.Ok? && fix.Many? ==> r.value == fix.vs
  {
    match fix
    case One(v) =>
      if v.Bool? then
        if options.None? then Err(ValueError)
        else Ok([Str(if v.b then options.value.1 else options.value.0)])
      else Ok([v])
    case Many(vs) => if |vs| == 0 then Err(ValueError) else Ok(vs)
  }

  /** One fixed value as text: a string verbatim, anything else formatted, and escaped for a regex. */
  function FixText(v: Value, fmt: Format, forRegex: bool, render: Renderer): string {
    if v.Str? then v.s
    else if forRegex then Escape(render(fmt, v))
    else render(fmt, v)
  }

  function FixTexts(items: seq<Value>, fmt: Format, forRegex: bool, render: Renderer): (r: seq<string>)
    ensures |r| == |items|
    ensures forall i :: 0 <= i < |items| ==> r[i] == FixText(items[i], fmt, forRegex, render)
  {
    seq(|items|, i requires 0 <= i < |items| => FixText(items[i], fmt, forRegex, render))
  }

  /** The `fixed_string` that `fix_value` computes, or the error it raises. */
  function FixedStringOf(fix: FixArg, options: Option<(string, string)>, fmt: Format, forRegex: bool, render: Renderer): Result<string> {
    var items :- FixItems(fix, options);
    var fixes := FixTexts(items, fmt, forRegex, render);
    Ok(Join("|", if forRegex then fixes else fixes[..1]))
  }

  /**
    For a regex, the fixed string is the alternation of every value's
    text: splitting it on `|` gives the texts back when none holds a `|`.
  */
  lemma FixedStringAlternatives(fix: FixArg, options: Option<(string, string)>, fmt: Format, render: Renderer)
    requires FixItems(fix, options).Ok?
    requires forall i :: 0 <= i < |FixItems(fix, options).value| ==>
      '|' !in FixText(FixItems(fix, options).value[i], fmt, true, render)
    ensures FixedStringOf(fix, options, fmt, true, render).Ok?
    ensures SplitAll(FixedStringOf(fix, options, fmt, true, render).value, '|')
         == FixTexts(FixItems(fix, options).value, fmt, true, render)
  {
    var fixes := FixTexts(FixItems(fix, options).value, fmt, true, render);
    SplitJoin(fixes, '|');
  }

  /** For a filename, only the first value counts, and it is not escaped. */
  lemma FixedStringForFilename(fix: FixArg, options: Option<(string, string)>, fmt: Format, render: Renderer)
    requires FixItems(fix, options).Ok?
    ensures FixedStringOf(fix, options, fmt, false, render)
         == Ok(FixText(FixItems(fix, options).value[0], fmt, false, render))
  {
  }

  /** A formatted value fixed in a regex is escaped text: unescaping it gives the formatted value. */
  lemma FixedValueEscaped(v: Value, fmt: Format, options: Option<(string, string)>, render: Renderer)
    requires !v.Str? && !v.Bool?
    ensures FixedStringOf(One(v), options, fmt, true, render).Ok?
    ensures Unescape(FixedStringOf(One(v), options, fmt, true, render).value) == render(fmt, v)
  {
    UnescapeEscape(render(fmt, v));
  }

  /** A boolean picks its option verbatim: `options[fix]`. */
  lemma FixedBoolean(b: bool, options: (string, string), fmt: Format, forRegex: bool, render: Renderer)
    ensures FixedStringOf(One(Bool(b)), Some(options), fmt, forRegex, render)
         == Ok(if b then options.1 else options.0)
  {
  }

  /** `"(" + rgx + ")"`, then `?` when the group is optional. */
  function Wrap(rgx: string, optional: bool): (r: string)
    ensures |r| >= 2 && Unwrap(r) == (rgx, optional)
  {
    var r := "(" + rgx + ")" + (if optional then "?" else "");
    assert r[1..|r| - (if optional then 2 else 1)] == rgx;
    r
  }

  /** Reads a wrapped regex back: its inner regex and whether it is optional. */
  function Unwrap(r: string): (string, bool)
    requires |r| >= 2
  {
    if r[|r| - 1] == '?' && |r| >= 3 then (r[1..|r| - 2], true) else (r[1..|r| - 1], false)
  }

  // ---------------------------------------------------------------------
  // The group object

  /** A group `%(definition)` at position `idx` of a pattern. */
  class Group {
    const definition: string
    const idx: int
    /**
      The group's value parser. `group.py` defines no `parse` method, so as
      written every call raises AttributeError; the parser is a parameter of
      which that always-failing one is an instance.
    */
    const parse: string -> Result<Value>

    var name: string
    var rgx: string
    var fmt: Format
    var discard: bool
    var options: Option<(string, string)>
    var optional: bool
    var fixedValue: Option<FixArg>
    var fixedString: Option<string>

    /** The attributes the definition sets. */
    function Attributes(): Definition
      reads this
    {
      Definition(name, rgx, fmt, discard, optional, options)
    }

    /** The attributes before the definition is read. */
    constructor (definition: string, idx: int, parse: string -> Result<Value>)
      ensures this.definition == definition && this.idx == idx && this.parse == parse
      ensures Attributes() == Definition("", "", InitialFormat, false, false, None)
      ensures fixedValue.None? && fixedString.None?
    {
      this.definition := definition;
      this.idx := idx;
      this.parse := parse;
      name := "";
      rgx := "";
      fmt := InitialFormat;
      discard := false;
      options := None;
      optional := false;
      fixedValue := None;
      fixedString := None;
    }

    /** `_parse_group_definition`, given the fullmatch of the definition against PATTERN. */
    method ParseDefinition(m: Option<DefinitionMatch>) returns (err: Option<Error>)
      requires m.Some? ==> InBounds(definition, m.value)
      requires rgx == "" && fmt == InitialFormat
      modifies this
      ensures ResolveDefinition(definition, m).Ok? ==> err.None? && Attributes() == ResolveDefinition(definition, m).value
      ensures ResolveDefinition(definition, m).Err? ==> err == Some(ResolveDefinition(definition, m).error)
      ensures fixedValue == old(fixedValue) && fixedString == old(fixedString)
    {
      var specs := ReadSpecs(m);
      ResolveDefinitionCases(definition, m);
      if specs.None? {
        return Some(GroupParseError);
      }
      err := ApplySpecs(specs.value);
    }

    /** The match and duplicate checks of `_parse_group_definition`, giving the specs they accept. */
    method ReadSpecs(m: Option<DefinitionMatch>) returns (specs: Option<Specs>)
      requires m.Some? ==> InBounds(definition, m.value)
      ensures specs.Some? <==> Accepted(definition, m)
      ensures specs.Some? ==> specs.value == SpecsOf(definition, m.value)
    {
      if m.None? {
        return None;
      }
      var ok := CheckDuplicates(CapturedSpans(m.value), |definition|);
      if !ok {
        return None;
      }
      return Some(SpecsOf(definition, m.value));
    }

    /**
      The resolution part of `_parse_group_definition`: default, `:fmt=`,
      `:bool=`, `:rgx=`, then the `%L` expansion, each setting attributes.
    */
    method ApplySpecs(sp: Specs) returns (err: Option<Error>)
      requires rgx == "" && fmt == InitialFormat
      modifies this
      ensures ResolveSpecs(sp).Ok? ==> err.None? && Attributes() == ResolveSpecs(sp).value
      ensures ResolveSpecs(sp).Err? ==> err == Some(ResolveSpecs(sp).error)
      ensures fixedValue == old(fixedValue) && fixedString == old(fixedString)
    {
      name := sp.name;
      err := ApplyDefault();
      if err.Some? {
        return;
      }
      discard := sp.discard;
      optional := sp.opt;
      err := ApplyFormat(sp);
      if err.Some? {
        return;
      }
      ApplyOptions(sp);
      err := ApplyRegex(sp);
    }

    /** A known name seeds the regex and the format from its default group. */
    method ApplyDefault() returns (err: Option<Error>)
      requires rgx == "" && fmt == InitialFormat
      modifies this
      ensures Seed(name).Ok? ==> err.None? && (rgx, fmt) == Seed(name).value
      ensures Seed(name).Err? ==> err == Some(Seed(name).error)
      ensures name == old(name) && discard == old(discard) && optional == old(optional) && options == old(options)
      ensures fixedValue == old(fixedValue) && fixedString == old(fixedString)
    {
      if name in DefaultGroups {
        rgx := DefaultGroups[name].0;
        var f := GetFormat(DefaultGroups[name].1);
        if f.Err? {
          return Some(f.error);
        }
        fmt := f.value;
      }
      return None;
    }

    /** `:fmt=` replaces the format, and the regex unless `:rgx=` is given. */
    method ApplyFormat(sp: Specs) returns (err: Option<Error>)
      modifies this
      ensures FmtStage(sp, old((rgx, fmt))).Ok? ==> err.None? && (rgx, fmt) == FmtStage(sp, old((rgx, fmt))).value
      ensures FmtStage(sp, old((rgx, fmt))).Err? ==> err == Some(FmtStage(sp, old((rgx, fmt))).error)
      ensures name == old(name) && discard == old(discard) && optional == old(optional) && options == old(options)
      ensures fixedValue == old(fixedValue) && fixedString == old(fixedString)
    {
      if Truthy(sp.fmt) {
        var f := GetFormat(sp.fmt.value);
        if f.Err? {
          return Some(f.error);
        }
        fmt := f.value;
        if !Truthy(sp.rgx) {
          var g := GenerateExpression(fmt);
          if g.Err? {
            return Some(g.error);
          }
          rgx := g.value;
        }
      }
      return None;
    }

    /** `:bool=A:B` sets the options `(B, A)` and the regex `A|B`. */
    method ApplyOptions(sp: Specs)
      modifies this
      ensures (rgx, options) == BoolStage(sp, old(rgx))
      ensures name == old(name) && fmt == old(fmt) && discard == old(discard) && optional == old(optional)
      ensures fixedValue == old(fixedValue) && fixedString == old(fixedString)
    {
      options := None;
      if sp.boolSpec.Some? {
        var parts := SplitOnce(sp.boolSpec.value, ':');
        if |parts| == 1 {
          parts := parts + [""];
        }
        options := Some((parts[1], parts[0]));
        rgx := Join("|", parts);
      }
    }

    /** `:rgx=` replaces the regex, whose `%L` shortcuts are then expanded. */
    method ApplyRegex(sp: Specs) returns (err: Option<Error>)
      modifies this
      ensures var r := ReplaceDefaults(if Truthy(sp.rgx) then sp.rgx.value else old(rgx));
        && (r.Ok? ==> err.None? && rgx == r.value)
        && (r.Err? ==> err == Some(r.error))
      ensures name == old(name) && fmt == old(fmt) && discard == old(discard) && optional == old(optional)
      ensures options == old(options)
      ensures fixedValue == old(fixedValue) && fixedString == old(fixedString)
    {
      if Truthy(sp.rgx) {
        rgx := sp.rgx.value;
      }
      var expanded := ReplaceDefaults(rgx);
      if expanded.Err? {
        return Some(expanded.error);
      }
      rgx := expanded.value;
      return None;
    }

    /** `format`: a value rendered through the group's format. */
    function FormatValue(v: Value, render: Renderer): string
      reads this
    {
      render(fmt, v)
    }

    /** `fix_value`: fixes the group to `fix`, for a regex or for a filename. */
    method FixValue(fix: FixArg, forRegex: bool, render: Renderer) returns (err: Option<Error>)
      modifies this
      ensures fixedValue == Some(fix)
      ensures Attributes() == old(Attributes())
      ensures FixedStringOf(fix, options, fmt, forRegex, render).Ok? ==>
        && err.None?
        && fixedString == Some(FixedStringOf(fix, options, fmt, forRegex, render).value)
        && GetRegex() == Wrap(fixedString.value, optional)
      ensures FixedStringOf(fix, options, fmt, forRegex, render).Err? ==>
        err == Some(FixedStringOf(fix, options, fmt, forRegex, render).error) && fixedString == old(fixedString)
    {
      fixedValue := Some(fix);
      var items: seq<Value>;
      if fix.One? && fix.v.Bool? {
        if options.None? {
          return Some(ValueError);
        }
        items := [Str(if fix.v.b then options.value.1 else options.value.0)];
      } else if fix.One? {
        items := [fix.v];
      } else {
        items := fix.vs;
      }
      if |items| == 0 {
        return Some(ValueError);
      }
      var fixes: seq<string> := [];
      for i := 0 to |items|
        invariant fixes == FixTexts(items[..i], fmt, forRegex, render)
      {
        var out: string;
        if items[i].Str? {
          out := items[i].s;
        } else {
          out := FormatValue(items[i], render);
          if forRegex {
            out := Escape(out);
          }
        }
        fixes := fixes + [out];
      }
      assert items[..|items|] == items;
      if !forRegex {
        fixes := fixes[..1];
      }
      fixedString := Some(Join("|", fixes));
      assert FixItems(fix, options) == Ok(items);
      return None;
    }

    /** `unfix`: the group's regex is its compiled one again. */
    method Unfix()
      modifies this
      ensures fixedValue.None? && fixedString.None?
      ensures Attributes() == old(Attributes())
      ensures GetRegex() == Wrap(rgx, optional)
    {
      fixedValue := None;
      fixedString := None;
    }

    /** `get_regex`: the fixed string when set, else the regex, as one capturing group. */
    function GetRegex(): (r: string)
      reads this
      ensures |r| >= 2 && Unwrap(r) == (if fixedString.Some? then fixedString.value else rgx, optional)
    {
      Wrap(if fixedString.Some? then fixedString.value else rgx, optional)
    }
  }

  /** `Group(definition, idx)`: a new group, or the error reading its definition raises. */
  method NewGroup(definition: string, idx: int, parse: string -> Result<Value>, m: Option<DefinitionMatch>)
    returns (r: Result<Group>)
    requires m.Some? ==> InBounds(definition, m.value)
    ensures ResolveDefinition(definition, m).Ok? ==>
      && r.Ok? && fresh(r.value)
      && r.value.definition == definition && r.value.idx == idx && r.value.parse == parse
      && r.value.Attributes() == ResolveDefinition(definition, m).value
      && r.value.fixedValue.None? && r.value.fixedString.None?
    ensures ResolveDefinition(definition, m).Err? ==> r == Err(ResolveDefinition(definition, m).error)
  {
    var g := new Group(definition, idx, parse);
    var err := g.ParseDefinition(m);
    if err.Some? {
      return Err(err.value);
    }
    return Ok(g);
  }
}
