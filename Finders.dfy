/**
  `finder.py`: the `Finder` object. It scans a pre-regex for `%(...)`
  matchers, turns it into a regex, fixes matchers to values, generates
  filenames and groups scanned files by the values of their matchers.
*/
module Finders {
  import opened Common
  import opened Strings
  import opened Matchers

  /**
    The parts of the Python runtime the finder calls into: the fullmatch of
    a matcher string against `Matcher.REGEX`, the fullmatch of a filename
    against the finder regex (the captures, in order), and the old format
    objects.
  */
  datatype Engine = Engine(
    matcherFields: string -> Option<MatcherFields>,
    fullmatch: (string, string) -> Option<seq<Capture>>,
    ops: FormatOps)

  /** A scanned file: its name relative to the root and its matches. */
  type FileMatches = (string, OldMatches)

  // ---------------------------------------------------------------------
  // Python list helpers

  /** `s[k] = v` on a list: negative indices count from the end. */
  function PySet<T>(s: seq<T>, k: int, v: T): (r: Result<seq<T>>)
    ensures r.Ok? <==> -|s| <= k < |s|
    ensures r.Err? ==> r.error == IndexError
    ensures 0 <= k < |s| ==> r == Ok(s[k := v])
    ensures r.Ok? ==> |r.value| == |s|
  {
    if 0 <= k < |s| then Ok(s[k := v])
    else if -|s| <= k < 0 then Ok(s[|s| + k := v])
    else Err(IndexError)
  }

  /** The concatenation of a list of lists. */
  function Flatten<T>(ss: seq<seq<T>>): (r: seq<T>)
  {
    if |ss| == 0 then [] else Flatten(ss[..|ss| - 1]) + ss[|ss| - 1]
  }

  lemma {:induction false} FlattenAppend<T>(ss: seq<seq<T>>, tt: seq<seq<T>>)
    ensures Flatten(ss + tt) == Flatten(ss) + Flatten(tt)
    decreases |tt|
  {
    if |tt| > 0 {
      assert (ss + tt)[..|ss + tt| - 1] == ss + tt[..|tt| - 1];
      FlattenAppend(ss, tt[..|tt| - 1]);
    } else {
      assert ss + tt == ss;
    }
  }

  /** Appending `x` to the list at position `i` adds `x` to the flattened multiset. */
  lemma {:induction false} FlattenGrow<T>(ss: seq<seq<T>>, i: nat, x: T)
    requires i < |ss|
    ensures multiset(Flatten(ss[i := ss[i] + [x]])) == multiset(Flatten(ss)) + multiset{x}
  {
    var before, after := ss[..i], ss[i + 1..];
    assert ss == before + [ss[i]] + after;
    assert ss[i := ss[i] + [x]] == before + [ss[i] + [x]] + after;
    FlattenAppend(before + [ss[i]], after);
    FlattenAppend(before, [ss[i]]);
    FlattenAppend(before + [ss[i] + [x]], after);
    FlattenAppend(before, [ss[i] + [x]]);
    assert Flatten([ss[i]]) == ss[i] by { assert [ss[i]][..0] == []; }
    assert Flatten([ss[i] + [x]]) == ss[i] + [x] by { assert [ss[i] + [x]][..0] == []; }
  }

  // ---------------------------------------------------------------------
  // The `_fixed_matchers` dictionary

  /**
    A Python dict from matcher index to fixed value: its entries and the
    order in which the keys were first inserted, which is the order of
    iteration.
  */
  datatype Fixes = Fixes(values: map<int, FixArg>, order: seq<int>) {
    /** Every key listed once, and exactly the keys of the entries. */
    ghost predicate Valid() {
      && (forall i, j :: 0 <= i < j < |order| ==> order[i] != order[j])
      && (forall k :: k in values <==> k in order)
    }
  }

  /** Every key in the order has a value. */
  lemma OrderedKeys(d: Fixes)
    requires d.Valid()
    ensures forall t :: 0 <= t < |d.order| ==> d.order[t] in d.values
  {
    forall t | 0 <= t < |d.order| ensures d.order[t] in d.values {
      assert d.order[t] in d.order;
    }
  }

  /** `{}`. */
  const NoFixes := Fixes(map[], [])

  /** The list without `k`. */
  function Without(s: seq<int>, k: int): (r: seq<int>)
    ensures forall x :: x in r <==> x in s && x != k
    ensures (forall i, j :: 0 <= i < j < |s| ==> s[i] != s[j]) ==> forall i, j :: 0 <= i < j < |r| ==> r[i] != r[j]
  {
    if |s| == 0 then []
    else
      var rest := Without(s[1..], k);
      assert forall x :: x in s[1..] ==> x in s;
      assert forall x :: x in s ==> x == s[0] || x in s[1..];
      if s[0] == k then rest
      else
        var r := [s[0]] + rest;
        assert (forall i, j :: 0 <= i < j < |s| ==> s[i] != s[j]) ==> forall i, j :: 0 <= i < j < |r| ==> r[i] != r[j] by {
          if forall i, j :: 0 <= i < j < |s| ==> s[i] != s[j] {
            assert forall i, j :: 0 <= i < j < |s| - 1 ==> s[1..][i] != s[1..][j];
            assert s[0] !in s[1..];
            assert forall j :: 1 <= j < |r| ==> r[j] in rest;
          }
        }
        r
  }

  /** `d[k] = v`: a new key goes last, an existing key keeps its place. */
  function Put(d: Fixes, k: int, v: FixArg): (r: Fixes)
    requires d.Valid()
    ensures r.Valid()
    ensures r.values == d.values[k := v]
    ensures r.order == if k in d.values then d.order else d.order + [k]
  {
    Fixes(d.values[k := v], if k in d.values then d.order else d.order + [k])
  }

  /** `d.pop(k, None)`: the entry of `k` is gone, the others keep their order. */
  function Pop(d: Fixes, k: int): (r: Fixes)
    requires d.Valid()
    ensures r.Valid()
    ensures r.values == d.values - {k}
    ensures forall x :: x in r.order <==> x in d.order && x != k
  {
    Fixes(d.values - {k}, Without(d.order, k))
  }

  // ---------------------------------------------------------------------
  // get_matchers

  /**
    `Finder.get_matchers`: the matchers a key selects, by index (Python
    indexing) or by name / `group:name`.
  */
  function GetMatchers(ms: seq<Matcher>, key: Key): (r: Result<seq<Matcher>>)
    ensures MatchersIndices(ms, key).Err? ==> r == Err(MatchersIndices(ms, key).error)
    ensures key.IntKey? ==> r == (if -|ms| <= key.i < |ms| then Ok([PyIndex(ms, key.i).value]) else Err(IndexError))
    ensures key.StrKey? ==>
      var (name, group) := KeyParts(key.s);
      && (r.Ok? <==> exists k :: 0 <= k < |ms| && Answers(ms[k], name, group))
      && (r.Ok? ==> forall j :: 0 <= j < |r.value| ==> Answers(r.value[j], name, group))
  {
    var selected :- MatchersIndices(ms, key);
    if key.StrKey? then
      var (name, group) := KeyParts(key.s);
      assert forall i :: 0 <= i < |selected| ==> selected[i] in selected;
      PickAll(ms, selected)
    else
      PickOne(ms, key.i);
      PickAll(ms, selected)
  }

  lemma PickOne(ms: seq<Matcher>, i: int)
    ensures PickAll(ms, [i]) == if -|ms| <= i < |ms| then Ok([PyIndex(ms, i).value]) else Err(IndexError)
  {
    var pick := PickAll(ms, [i]);
    if pick.Ok? {
      assert pick.value == [PyIndex(ms, i).value];
    }
  }

  /** Every matcher answering a name key is selected. */
  lemma {:induction false} NameKeySelectsAll(ms: seq<Matcher>, s: string, k: nat)
    requires k < |ms| && Answers(ms[k], KeyParts(s).0, KeyParts(s).1)
    ensures GetMatchers(ms, StrKey(s)).Ok? && ms[k] in GetMatchers(ms, StrKey(s)).value
  {
    var selected := MatchersIndices(ms, StrKey(s)).value;
    assert k in selected;
    var p :| 0 <= p < |selected| && selected[p] == k;
    assert GetMatchers(ms, StrKey(s)).value[p] == ms[k];
  }

  // ---------------------------------------------------------------------
  // set_pregex

  /** `pregex.replace("%(k)", z)` for each replacement, in order. */
  function ApplyReplacements(pregex: string, replacements: seq<(string, string)>): string
    decreases |replacements|
  {
    if |replacements| == 0 then pregex
    else
      var (k, z) := replacements[0];
      ApplyReplacements(Replace(pregex, "%(" + k + ")", z), replacements[1..])
  }

  /** The pre-regex a finder keeps: stripped, then with the replacements made. */
  function PreparePregex(pregex: string, replacements: seq<(string, string)>): string {
    ApplyReplacements(Strip(pregex), replacements)
  }

  /**
    A marker (such as `%(k)`) surrounded by text without `%` is replaced by
    its replacement text and nothing else changes.
  */
  lemma {:induction false} ReplaceMarker(a: string, pat: string, z: string, b: string)
    requires |pat| > 0 && pat[0] == '%'
    requires '%' !in a && '%' !in b
    ensures Replace(a + pat + b, pat, z) == a + z + b
    decreases |a|
  {
    var s := a + pat + b;
    if |a| == 0 {
      assert s == pat + b;
      assert s[..|pat|] == pat;
      assert s[|pat|..] == b;
      ReplaceAbsent(b, pat, z);
    } else {
      assert s[..|pat|][0] == a[0] != '%';
      assert s[1..] == a[1..] + pat + b;
      ReplaceMarker(a[1..], pat, z, b);
      assert [a[0]] + a[1..] == a;
      assert [a[0]] + (a[1..] + z + b) == a + z + b;
    }
  }

  // ---------------------------------------------------------------------
  // _scan_pregex: finding the matchers

  /** Position `q` holds the parenthesis of a `%(`. */
  predicate IsStart(p: string, q: int) {
    1 <= q < |p| && p[q - 1] == '%' && p[q] == '('
  }

  /** The parenthesis positions of the `%(` in `p`, from position `i` on. */
  function StartsFrom(p: string, i: nat): (r: seq<int>)
    ensures forall j :: 0 <= j < |r| ==> i < r[j] < |p| && p[r[j] - 1] == '%' && p[r[j]] == '('
    ensures forall q :: i < q && IsStart(p, q) ==> q in r
    ensures forall j, k :: 0 <= j < k < |r| ==> r[j] < r[k]
    decreases |p| - i
  {
    if i + 1 >= |p| then []
    else if p[i] == '%' && p[i + 1] == '(' then
      var rest := StartsFrom(p, i + 2);
      assert !IsStart(p, i + 2);
      [i + 1] + rest
    else
      StartsFrom(p, i + 1)
  }

  /**
    `[m.start() + 1 for m in re.finditer(r'%\(', pregex)]`: the position of
    the parenthesis of every `%(`, in order (two occurrences never overlap).
  */
  function Starts(p: string): (r: seq<int>)
    ensures forall j :: 0 <= j < |r| ==> 1 <= r[j] < |p| && p[r[j] - 1] == '%' && p[r[j]] == '('
    ensures forall q :: IsStart(p, q) ==> q in r
    ensures forall j, k :: 0 <= j < k < |r| ==> r[j] < r[k]
  {
    StartsFrom(p, 0)
  }

  /** The change of nesting depth a character causes. */
  function Step(c: char): int {
    if c == '(' then 1 else if c == ')' then -1 else 0
  }

  /** The change of nesting depth across `s`: opening minus closing parentheses. */
  function Depth(s: string): int {
    if |s| == 0 then 0 else Step(s[0]) + Depth(s[1..])
  }

  lemma {:induction false} DepthSnoc(s: string, c: char)
    ensures Depth(s + [c]) == Depth(s) + Step(c)
  {
    if |s| > 0 {
      assert (s + [c])[1..] == s[1..] + [c];
      DepthSnoc(s[1..], c);
    } else {
      assert (s + [c])[1..] == [];
    }
  }

  /** The nesting level after reading `p[from..q]` inclusive, starting at `level`. */
  function Level(p: string, from: nat, q: nat, level: int): int
    requires from <= q < |p|
  {
    level + Depth(p[from..q + 1])
  }

  /**
    The scan of `_scan_pregex` from position `pos` at nesting `level`: the
    position of the first `)` that brings the level to zero.
  */
  function CloseFrom(p: string, pos: nat, level: int): (r: Option<nat>)
    requires level >= 1
    ensures r.Some? ==>
      && pos <= r.value < |p| && p[r.value] == ')'
      && Level(p, pos, r.value, level) == 0
      && forall q :: pos <= q < r.value ==> Level(p, pos, q, level) > 0
    ensures r.None? ==> forall q :: pos <= q < |p| ==> Level(p, pos, q, level) > 0
    decreases |p| - pos
  {
    if pos >= |p| then None
    else
      var next := level + Step(p[pos]);
      assert Level(p, pos, pos, level) == next by {
        assert p[pos..pos + 1] == [p[pos]];
        assert Depth([p[pos]]) == Step(p[pos]) by { assert [p[pos]][1..] == []; }
      }
      assert forall q :: pos < q < |p| ==> Level(p, pos, q, level) == Level(p, pos + 1, q, next) by {
        forall q | pos < q < |p| ensures Level(p, pos, q, level) == Level(p, pos + 1, q, next) {
          assert p[pos..q + 1][1..] == p[pos + 1..q + 1];
        }
      }
      if next == 0 then Some(pos)
      else CloseFrom(p, pos + 1, next)
  }

  /** The end of the matcher opened at `start`: the `)` closing its parenthesis. */
  function MatcherEnd(p: string, start: nat): Option<nat>
    requires start < |p|
  {
    CloseFrom(p, start + 1, 1)
  }

  /** The inner loop of `_scan_pregex`: the nesting level counted character by character. */
  method FindMatcherEnd(p: string, start: nat) returns (end: Option<nat>)
    requires start < |p|
    ensures end == MatcherEnd(p, start)
  {
    var level := 1;
    var i := start + 1;
    while i < |p|
      invariant start + 1 <= i <= |p|
      invariant level >= 1
      invariant CloseFrom(p, i, level) == MatcherEnd(p, start)
    {
      var c := p[i];
      if c == '(' {
        level := level + 1;
      } else if c == ')' {
        level := level - 1;
        if level == 0 {
          return Some(i);
        }
      }
      i := i + 1;
    }
    return None;
  }

  // ---------------------------------------------------------------------
  // _scan_pregex: the matchers and the segments

  /** `p[a..b]` is the matcher `%(text)`. */
  predicate Span(p: string, a: int, b: int, text: string) {
    0 <= a <= b <= |p| && p[a..b] == "%(" + text + ")"
  }

  /**
    What the loop of `_scan_pregex` has built: the matchers, in the order of
    their `%(`, each with the index of its `%(` among all of them, and the
    split points around their spans.
  */
  ghost predicate Layout(p: string, starts: seq<int>, ms: seq<Matcher>, splits: seq<int>) {
    && |splits| == 2 * |ms| + 1 && splits[0] == 0
    && (forall j :: 0 <= j < |ms| ==> 0 <= ms[j].idx < |starts|)
    && (forall j, k :: 0 <= j < k < |ms| ==> ms[j].idx < ms[k].idx)
    && (forall j :: 0 <= j < |ms| ==>
          splits[2 * j + 1] == starts[ms[j].idx] - 1 && Span(p, splits[2 * j + 1], splits[2 * j + 2], ms[j].source))
  }

  /** Each matcher is the one its own text and index build. */
  ghost predicate Built(engine: Engine, ms: seq<Matcher>) {
    forall j :: 0 <= j < |ms| ==>
      NewMatcher(ms[j].source, ms[j].idx, engine.matcherFields(ms[j].source), engine.ops) == Ok(ms[j])
  }

  /** Appending the matcher of the `idx`-th `%(`, which ends at `e`, keeps the layout. */
  lemma LayoutExtend(p: string, starts: seq<int>, ms: seq<Matcher>, splits: seq<int>, idx: nat, e: nat, m: Matcher)
    requires idx < |starts| && 1 <= starts[idx] < e < |p| && p[starts[idx] - 1] == '%' && p[starts[idx]] == '(' && p[e] == ')'
    requires Layout(p, starts, ms, splits)
    requires forall j :: 0 <= j < |ms| ==> ms[j].idx < idx
    requires m.idx == idx && m.source == p[starts[idx] + 1..e]
    ensures Layout(p, starts, ms + [m], splits + [starts[idx] - 1, e + 1])
  {
    var start := starts[idx];
    var ms', splits' := ms + [m], splits + [start - 1, e + 1];
    assert p[start - 1..e + 1] == "%(" + m.source + ")" by {
      assert p[start - 1..e + 1] == [p[start - 1]] + [p[start]] + p[start + 1..e] + [p[e]];
    }
    assert forall j :: 0 <= j < |ms| ==> ms'[j] == ms[j] && splits'[2 * j + 1] == splits[2 * j + 1] && splits'[2 * j + 2] == splits[2 * j + 2];
  }

  /**
    The loop of `_scan_pregex` from the `idx`-th `%(` on: a `%(` without a
    closing parenthesis is a ValueError, a text that is not a matcher is
    skipped (its index is still used up), any other matcher error is raised.
  */
  function ScanFrom(p: string, starts: seq<int>, idx: nat, ms: seq<Matcher>, splits: seq<int>, engine: Engine)
    : (r: Result<(seq<Matcher>, seq<int>)>)
    requires forall j :: 0 <= j < |starts| ==> 1 <= starts[j] < |p| && p[starts[j] - 1] == '%' && p[starts[j]] == '('
    requires idx <= |starts|
    decreases |starts| - idx
  {
    if idx == |starts| then Ok((ms, splits))
    else
      var start := starts[idx];
      var end := MatcherEnd(p, start);
      if end.None? then Err(ValueError)
      else
        var e := end.value;
        var text := p[start + 1..e];
        var made := NewMatcher(text, idx, engine.matcherFields(text), engine.ops);
        if made.Ok? then
          ScanFrom(p, starts, idx + 1, ms + [made.value], splits + [start - 1, e + 1], engine)
        else if made.error == InvalidMatcher then
          ScanFrom(p, starts, idx + 1, ms, splits, engine)
        else
          Err(made.error)
  }

  /**
    A successful scan from the `idx`-th `%(` keeps the layout and adds only
    matchers that their own text and index build, each with the splits
    around its span.
  */
  lemma {:induction false} ScanKeeps(p: string, starts: seq<int>, idx: nat, ms: seq<Matcher>, splits: seq<int>, engine: Engine)
    requires forall j :: 0 <= j < |starts| ==> 1 <= starts[j] < |p| && p[starts[j] - 1] == '%' && p[starts[j]] == '('
    requires idx <= |starts|
    requires Layout(p, starts, ms, splits) && Built(engine, ms)
    requires forall j :: 0 <= j < |ms| ==> ms[j].idx < idx
    ensures var r := ScanFrom(p, starts, idx, ms, splits, engine);
      r.Ok? ==> Layout(p, starts, r.value.0, r.value.1) && Built(engine, r.value.0)
    decreases |starts| - idx
  {
    if idx < |starts| {
      var end := MatcherEnd(p, starts[idx]);
      if end.None? {
        ScanFails(p, starts, ms, splits, idx, end, Err(ValueError), engine);
      } else {
        var start, e := starts[idx], end.value;
        var made := NewMatcher(p[start + 1..e], idx, engine.matcherFields(p[start + 1..e]), engine.ops);
        ScanFails(p, starts, ms, splits, idx, end, made, engine);
        if made.Ok? {
          ScanExtend(p, starts, ms, splits, idx, e, made.value, engine);
          ScanKeeps(p, starts, idx + 1, ms + [made.value], splits + [start - 1, e + 1], engine);
          ScanGoesOn(p, starts, ms, splits, idx, e, made.value, engine);
        } else if made.error == InvalidMatcher {
          ScanKeeps(p, starts, idx + 1, ms, splits, engine);
        }
      }
    }
  }

  /** A successful scan from the `idx`-th `%(` found the closing parenthesis of every `%(` from there on. */
  lemma {:induction false} ScanEnds(p: string, starts: seq<int>, idx: nat, ms: seq<Matcher>, splits: seq<int>, engine: Engine)
    requires forall j :: 0 <= j < |starts| ==> 1 <= starts[j] < |p| && p[starts[j] - 1] == '%' && p[starts[j]] == '('
    requires idx <= |starts|
    ensures ScanFrom(p, starts, idx, ms, splits, engine).Ok? ==> forall i :: idx <= i < |starts| ==> MatcherEnd(p, starts[i]).Some?
    decreases |starts| - idx
  {
    if idx < |starts| {
      var ms', splits' := ScanStep(p, starts, idx, ms, splits, engine);
      ScanEnds(p, starts, idx + 1, ms', splits', engine);
    }
  }

  /**
    A scan that succeeds past the `idx`-th `%(` found its end, and goes on
    from the next one with some matchers and splits.
  */
  lemma ScanStep(p: string, starts: seq<int>, idx: nat, ms: seq<Matcher>, splits: seq<int>, engine: Engine)
    returns (ms': seq<Matcher>, splits': seq<int>)
    requires forall j :: 0 <= j < |starts| ==> 1 <= starts[j] < |p| && p[starts[j] - 1] == '%' && p[starts[j]] == '('
    requires idx < |starts|
    ensures ScanFrom(p, starts, idx, ms, splits, engine).Ok? ==>
      MatcherEnd(p, starts[idx]).Some? && ScanFrom(p, starts, idx, ms, splits, engine) == ScanFrom(p, starts, idx + 1, ms', splits', engine)
  {
    ms', splits' := ms, splits;
    var end := MatcherEnd(p, starts[idx]);
    if end.None? {
      ScanFails(p, starts, ms, splits, idx, end, Err(ValueError), engine);
    } else {
      var start, e := starts[idx], end.value;
      var made := NewMatcher(p[start + 1..e], idx, engine.matcherFields(p[start + 1..e]), engine.ops);
      ScanFails(p, starts, ms, splits, idx, end, made, engine);
      if made.Ok? {
        ScanGoesOn(p, starts, ms, splits, idx, e, made.value, engine);
        ms', splits' := ms + [made.value], splits + [start - 1, e + 1];
      }
    }
  }

  /** A matcher that its own text and index build can join the matchers built so. */
  lemma BuiltExtend(engine: Engine, ms: seq<Matcher>, m: Matcher)
    requires Built(engine, ms)
    requires NewMatcher(m.source, m.idx, engine.matcherFields(m.source), engine.ops) == Ok(m)
    ensures Built(engine, ms + [m])
  {
    assert forall j :: 0 <= j < |ms| ==> (ms + [m])[j] == ms[j];
  }

  /** The `i`-th slice between split points: up to the next split point, or to the end. */
  function Segment(p: string, splits: seq<int>, i: nat): string
    requires i < |splits| && 0 <= splits[i]
    requires i + 1 < |splits| ==> 0 <= splits[i + 1]
  {
    Slice(p, splits[i], if i + 1 < |splits| then splits[i + 1] else |p|)
  }

  /** `[pregex[i:j] for i, j in zip(splits, splits[1:] + [None])]`. */
  function SegmentsOf(p: string, splits: seq<int>): (r: seq<string>)
    requires forall i :: 0 <= i < |splits| ==> 0 <= splits[i] <= |p|
    ensures |r| == |splits|
    ensures forall i :: 0 <= i < |splits| ==> r[i] == Segment(p, splits, i)
  {
    seq(|splits|, i requires 0 <= i < |splits| => Segment(p, splits, i))
  }

  /** The split points of a layout lie inside the pre-regex. */
  lemma LayoutBounds(p: string, starts: seq<int>, ms: seq<Matcher>, splits: seq<int>)
    requires Layout(p, starts, ms, splits)
    ensures forall i :: 0 <= i < |splits| ==> 0 <= splits[i] <= |p|
  {
    forall i | 0 <= i < |splits| ensures 0 <= splits[i] <= |p| {
      if i > 0 {
        var j := (i - 1) / 2;
        assert i == 2 * j + 1 || i == 2 * j + 2;
        assert Span(p, splits[2 * j + 1], splits[2 * j + 2], ms[j].source);
      }
    }
  }

  /**
    `self._segments[2*idx+1] = m.get_regex()` for the matchers from the
    `i`-th on: each odd slot becomes its matcher's regex.
  */
  function RegexSlotsFrom(segs: seq<string>, ms: seq<Matcher>, i: nat): (r: Result<seq<string>>)
    requires |segs| == 2 * |ms| + 1 && i <= |ms|
    ensures r.Ok? <==> forall j :: i <= j < |ms| ==> GetRegex(ms[j]).Ok?
    ensures r.Ok? ==>
      && |r.value| == |segs|
      && (forall j :: i <= j < |ms| ==> r.value[2 * j + 1] == GetRegex(ms[j]).value)
      && (forall j :: 0 <= j < |segs| && (j % 2 == 0 || j < 2 * i) ==> r.value[j] == segs[j])
    decreases |ms| - i
  {
    if i == |ms| then Ok(segs)
    else
      var rgx :- GetRegex(ms[i]);
      RegexSlotsFrom(segs[2 * i + 1 := rgx], ms, i + 1)
  }

  /** The loop of `_scan_pregex` over every `%(`: the matchers and the split points. */
  function Found(p: string, engine: Engine): Result<(seq<Matcher>, seq<int>)> {
    ScanFrom(p, Starts(p), 0, [], [0], engine)
  }

  /** The matchers and splits found follow the layout of the pre-regex, and every `%(` has an end. */
  lemma FoundLaysOut(p: string, engine: Engine)
    ensures var r := Found(p, engine);
      r.Ok? ==>
        && Layout(p, Starts(p), r.value.0, r.value.1) && Built(engine, r.value.0)
        && (forall i :: 0 <= i < |Starts(p)| ==> MatcherEnd(p, Starts(p)[i]).Some?)
  {
    ScanKeeps(p, Starts(p), 0, [], [0], engine);
    ScanEnds(p, Starts(p), 0, [], [0], engine);
  }

  /** `_scan_pregex`, as a value: the matchers and the segments. */
  function Scan(p: string, engine: Engine): (r: Result<(seq<Matcher>, seq<string>)>)
    ensures r.Ok? ==> |r.value.1| == 2 * |r.value.0| + 1
  {
    var found :- Found(p, engine);
    FoundLaysOut(p, engine);
    LayoutBounds(p, Starts(p), found.0, found.1);
    var segs :- RegexSlotsFrom(SegmentsOf(p, found.1), found.0, 0);
    Ok((found.0, segs))
  }

  /** Once the matchers are found, the scan is the filling of their slots in the segments. */
  lemma ScanOfFound(p: string, engine: Engine, ms: seq<Matcher>, splits: seq<int>)
    requires Found(p, engine) == Ok((ms, splits))
    ensures forall i :: 0 <= i < |splits| ==> 0 <= splits[i] <= |p|
    ensures |SegmentsOf(p, splits)| == 2 * |ms| + 1
    ensures RegexSlotsFrom(SegmentsOf(p, splits), ms, 0).Err? ==>
      Scan(p, engine) == Err(RegexSlotsFrom(SegmentsOf(p, splits), ms, 0).error)
    ensures RegexSlotsFrom(SegmentsOf(p, splits), ms, 0).Ok? ==>
      Scan(p, engine) == Ok((ms, RegexSlotsFrom(SegmentsOf(p, splits), ms, 0).value))
  {
    FoundLaysOut(p, engine);
    LayoutBounds(p, Starts(p), ms, splits);
  }

  /** The split points of a successful scan, and the matchers, segments and layout they come with. */
  lemma ScanSplits(p: string, engine: Engine) returns (splits: seq<int>)
    requires Scan(p, engine).Ok?
    ensures Found(p, engine) == Ok((Scan(p, engine).value.0, splits))
    ensures forall i :: 0 <= i < |splits| ==> 0 <= splits[i] <= |p|
    ensures RegexSlotsFrom(SegmentsOf(p, splits), Scan(p, engine).value.0, 0) == Ok(Scan(p, engine).value.1)
  {
    var found := Found(p, engine).value;
    FoundLaysOut(p, engine);
    LayoutBounds(p, Starts(p), found.0, found.1);
    splits := found.1;
  }

  /**
    A successful scan has one matcher per `%(` whose text is a matcher, in
    the order of the `%(` and built from that text, after every `%(` found
    its closing parenthesis; the segments alternate text and matcher regex.
  */
  lemma ScanShape(p: string, engine: Engine)
    requires Scan(p, engine).Ok?
    ensures forall q :: IsStart(p, q) ==> MatcherEnd(p, q).Some?
    ensures var (ms, segs) := Scan(p, engine).value;
      && |segs| == 2 * |ms| + 1
      && (forall j :: 0 <= j < |ms| ==> segs[2 * j + 1] == GetRegex(ms[j]).value)
      && Built(engine, ms)
      && (forall j :: 0 <= j < |ms| ==> 0 <= ms[j].idx < |Starts(p)| && IsStart(p, Starts(p)[ms[j].idx]))
      && (forall j, k :: 0 <= j < k < |ms| ==> ms[j].idx < ms[k].idx)
  {
    var splits := ScanSplits(p, engine);
    FoundLaysOut(p, engine);
    forall q | IsStart(p, q) ensures MatcherEnd(p, q).Some? {
      assert q in Starts(p);
    }
  }

  /** A pre-regex whose first `%(` is never closed raises ValueError. */
  lemma UnclosedMatcher(p: string, engine: Engine)
    requires |Starts(p)| > 0 && MatcherEnd(p, Starts(p)[0]).None?
    ensures Scan(p, engine) == Err(ValueError)
  {
  }

  /** The segments with each matcher slot holding the text `%(...)` of its matcher. */
  function WithMatcherText(segs: seq<string>, ms: seq<Matcher>): (r: seq<string>)
    requires |segs| == 2 * |ms| + 1
    ensures |r| == |segs|
  {
    seq(|segs|, i requires 0 <= i < |segs| => if i % 2 == 1 then "%(" + ms[i / 2].source + ")" else segs[i])
  }

  /** A `%(` after the start of a matcher span without `%(` inside comes after the whole span. */
  lemma OpeningAt(s: string, i: int)
    requires 0 <= i && i + 1 < |s| && s[i] == '%' && s[i + 1] == '('
    ensures Contains(s, "%(")
  {
    assert OccursAt(s, "%(", i) by { assert s[i..i + 2] == [s[i], s[i + 1]]; }
  }

  lemma SpanBefore(p: string, a: int, b: int, src: string, a': int)
    requires Span(p, a, b, src) && !Contains(src, "%(")
    requires a < a' && a' + 1 < |p| && p[a'] == '%' && p[a' + 1] == '('
    ensures b <= a'
  {
    var t := p[a..b];
    assert t == "%(" + src + ")";
    assert |src| == b - a - 3;
    assert p[a + 1] == t[1] == '(' && p[b - 1] == t[|t| - 1] == ')';
    forall k | 0 <= k < |src| ensures p[a + 2 + k] == src[k] {
      assert t[2 + k] == p[a + 2 + k];
      assert t[2 + k] == src[k];
    }
    if a' < b {
      assert a' != a + 1 && a' != b - 1 && a' != b - 2;
      OpeningAt(src, a' - a - 2);
      assert false;
    }
  }

  /**
    When no matcher holds a `%(` of its own, the matcher spans come one after
    the other: the split points never go back.
  */
  lemma {:induction false} SplitsSorted(p: string, starts: seq<int>, ms: seq<Matcher>, splits: seq<int>)
    requires forall j :: 0 <= j < |starts| ==> 1 <= starts[j] < |p| && p[starts[j] - 1] == '%' && p[starts[j]] == '('
    requires forall j, k :: 0 <= j < k < |starts| ==> starts[j] < starts[k]
    requires Layout(p, starts, ms, splits)
    requires forall j :: 0 <= j < |ms| ==> !Contains(ms[j].source, "%(")
    ensures forall i :: 0 <= i < |splits| - 1 ==> splits[i] <= splits[i + 1]
  {
    forall i | 0 <= i < |splits| - 1 ensures splits[i] <= splits[i + 1] {
      if i % 2 == 1 {
        var j := i / 2;
        assert Span(p, splits[2 * j + 1], splits[2 * j + 2], ms[j].source);
      } else if i > 0 {
        var j := i / 2 - 1;
        assert i == 2 * j + 2;
        var a' := starts[ms[j + 1].idx] - 1;
        assert starts[ms[j].idx] < starts[ms[j + 1].idx];
        SpanBefore(p, splits[2 * j + 1], splits[2 * j + 2], ms[j].source, a');
      } else {
        assert Span(p, splits[1], splits[2], ms[0].source);
      }
    }
  }

  /** Joining the slices between sorted split points gives back the text from the first one on. */
  lemma {:induction false} JoinSlices(p: string, splits: seq<int>)
    requires |splits| >= 1
    requires forall i :: 0 <= i < |splits| ==> 0 <= splits[i] <= |p|
    requires forall i :: 0 <= i < |splits| - 1 ==> splits[i] <= splits[i + 1]
    ensures Join("", SegmentsOf(p, splits)) == p[splits[0]..]
  {
    var segs := SegmentsOf(p, splits);
    var a := splits[0];
    if |splits| == 1 {
      assert segs[0] == p[a..];
    } else {
      var b := splits[1];
      var tail := splits[1..];
      assert forall i :: 0 <= i < |tail| ==> tail[i] == splits[i + 1];
      SegmentsTail(p, splits);
      JoinSlices(p, tail);
      JoinFirst(segs, p[a..b], p[b..]);
      assert p[a..] == p[a..b] + p[b..];
    }
  }

  /** Joining with no separator puts the first part before the join of the others. */
  lemma JoinFirst(parts: seq<string>, x: string, y: string)
    requires |parts| >= 2 && parts[0] == x && Join("", parts[1..]) == y
    ensures Join("", parts) == x + y
  {
    assert Join("", parts) == parts[0] + "" + Join("", parts[1..]);
  }

  /** The slices after the first split point are those of the remaining split points. */
  lemma SegmentsTail(p: string, splits: seq<int>)
    requires |splits| >= 2
    requires forall i :: 0 <= i < |splits| ==> 0 <= splits[i] <= |p|
    requires splits[0] <= splits[1]
    ensures SegmentsOf(p, splits)[0] == p[splits[0]..splits[1]]
    ensures SegmentsOf(p, splits)[1..] == SegmentsOf(p, splits[1..])
  {
    var segs, rest := SegmentsOf(p, splits), SegmentsOf(p, splits[1..]);
    forall i | 0 <= i < |rest| ensures segs[1..][i] == rest[i] {
      assert splits[1..][i] == splits[i + 1];
    }
  }

  /**
    Without nested matchers, writing every matcher's own `%(...)` back into
    its slot gives back the pre-regex: the segments are the text around the
    matchers.
  */
  lemma ScanRebuilds(p: string, engine: Engine)
    requires Scan(p, engine).Ok?
    requires forall j :: 0 <= j < |Scan(p, engine).value.0| ==> !Contains(Scan(p, engine).value.0[j].source, "%(")
    ensures p == Join("", WithMatcherText(Scan(p, engine).value.1, Scan(p, engine).value.0))
  {
    var ms, segs := Scan(p, engine).value.0, Scan(p, engine).value.1;
    var splits := ScanSplits(p, engine);
    FoundRebuilds(p, engine, ms, splits);
    RegexSlotsKeep(SegmentsOf(p, splits), ms, segs);
    MatcherTextSlots(p, ms, splits, segs);
  }

  /** The raw slices of a scan without nested matchers join back into the pre-regex, with each matcher's `%(...)` in its slot. */
  lemma FoundRebuilds(p: string, engine: Engine, ms: seq<Matcher>, splits: seq<int>)
    requires Found(p, engine) == Ok((ms, splits))
    requires forall j :: 0 <= j < |ms| ==> !Contains(ms[j].source, "%(")
    ensures |splits| == 2 * |ms| + 1 && forall i :: 0 <= i < |splits| ==> 0 <= splits[i] <= |p|
    ensures Join("", SegmentsOf(p, splits)) == p
    ensures forall i :: 0 <= i < |splits| && i % 2 == 1 ==> SegmentsOf(p, splits)[i] == "%(" + ms[i / 2].source + ")"
  {
    FoundLaysOut(p, engine);
    LayoutRebuilds(p, Starts(p), ms, splits);
  }

  /** Any layout of matchers without nested starts rebuilds the text it was cut from. */
  lemma LayoutRebuilds(p: string, starts: seq<int>, ms: seq<Matcher>, splits: seq<int>)
    requires forall j :: 0 <= j < |starts| ==> 1 <= starts[j] < |p| && p[starts[j] - 1] == '%' && p[starts[j]] == '('
    requires forall j, k :: 0 <= j < k < |starts| ==> starts[j] < starts[k]
    requires Layout(p, starts, ms, splits)
    requires forall j :: 0 <= j < |ms| ==> !Contains(ms[j].source, "%(")
    ensures |splits| == 2 * |ms| + 1 && forall i :: 0 <= i < |splits| ==> 0 <= splits[i] <= |p|
    ensures Join("", SegmentsOf(p, splits)) == p
    ensures forall i :: 0 <= i < |splits| && i % 2 == 1 ==> SegmentsOf(p, splits)[i] == "%(" + ms[i / 2].source + ")"
  {
    LayoutBounds(p, starts, ms, splits);
    SplitsSorted(p, starts, ms, splits);
    JoinSlices(p, splits);
    assert p[splits[0]..] == p;
    LayoutSlots(p, starts, ms, splits);
  }

  /** Writing the matcher texts back into the regex segments gives the raw slices. */
  lemma MatcherTextSlots(p: string, ms: seq<Matcher>, splits: seq<int>, segs: seq<string>)
    requires |splits| == 2 * |ms| + 1
    requires forall i :: 0 <= i < |splits| ==> 0 <= splits[i] <= |p|
    requires forall i :: 0 <= i < |splits| && i % 2 == 1 ==> SegmentsOf(p, splits)[i] == "%(" + ms[i / 2].source + ")"
    requires |segs| == |splits| && forall i :: 0 <= i < |segs| && i % 2 == 0 ==> segs[i] == SegmentsOf(p, splits)[i]
    ensures WithMatcherText(segs, ms) == SegmentsOf(p, splits)
  {
    var raw, back := SegmentsOf(p, splits), WithMatcherText(segs, ms);
    forall i | 0 <= i < |segs| ensures back[i] == raw[i] {
      if i % 2 == 0 {
        assert back[i] == segs[i];
      }
    }
  }

  /** Putting the regexes in the matcher slots leaves the text between them alone. */
  lemma RegexSlotsKeep(segs0: seq<string>, ms: seq<Matcher>, segs: seq<string>)
    requires |segs0| == 2 * |ms| + 1
    requires RegexSlotsFrom(segs0, ms, 0) == Ok(segs)
    ensures |segs| == |segs0| && forall i :: 0 <= i < |segs| && i % 2 == 0 ==> segs[i] == segs0[i]
  {
  }

  /** In a layout, the slice in each matcher slot is that matcher's `%(...)`. */
  lemma LayoutSlots(p: string, starts: seq<int>, ms: seq<Matcher>, splits: seq<int>)
    requires Layout(p, starts, ms, splits)
    requires forall i :: 0 <= i < |splits| ==> 0 <= splits[i] <= |p|
    ensures forall i :: 0 <= i < |splits| && i % 2 == 1 ==> SegmentsOf(p, splits)[i] == "%(" + ms[i / 2].source + ")"
  {
    var raw := SegmentsOf(p, splits);
    forall i | 0 <= i < |splits| && i % 2 == 1 ensures raw[i] == "%(" + ms[i / 2].source + ")" {
      var j := i / 2;
      assert i == 2 * j + 1;
      assert Span(p, splits[2 * j + 1], splits[2 * j + 2], ms[j].source);
      assert raw[2 * j + 1] == Segment(p, splits, 2 * j + 1);
    }
  }

  // ---------------------------------------------------------------------
  // Writing fixed values into the matcher slots

  /**
    The loop over the fixed matchers (in dict order, from the `i`-th key)
    that writes `slot(idx, value)` into segment `2*idx+1`; the first value
    that cannot be written, or a slot outside the list, raises.
  */
  function WriteSlots(segs: seq<string>, d: Fixes, i: nat, slot: (int, FixArg) -> Result<string>): (r: Result<seq<string>>)
    requires d.Valid() && i <= |d.order|
    ensures r.Ok? <==> forall t :: i <= t < |d.order| ==>
      slot(d.order[t], d.values[d.order[t]]).Ok? && -|segs| <= 2 * d.order[t] + 1 < |segs|
    ensures r.Ok? ==> |r.value| == |segs|
    ensures r.Ok? && (forall t :: i <= t < |d.order| ==> d.order[t] >= 0) ==>
      forall j :: 0 <= j < |segs| ==>
        r.value[j] == if j % 2 == 1 && j / 2 in d.order[i..] then slot(j / 2, d.values[j / 2]).value else segs[j]
    decreases |d.order| - i
  {
    if i == |d.order| then Ok(segs)
    else
      var idx := d.order[i];
      assert idx in d.values;
      var text :- slot(idx, d.values[idx]);
      var segs' :- PySet(segs, 2 * idx + 1, text);
      assert forall x :: x in d.order[i..] <==> x == idx || x in d.order[i + 1..] by {
        assert d.order[i..] == [idx] + d.order[i + 1..];
      }
      assert idx !in d.order[i + 1..];
      WriteSlots(segs', d, i + 1, slot)
  }

  // ---------------------------------------------------------------------
  // _update_regex

  /** The segments with the text outside the matchers escaped, unless it is regex already. */
  function EscapeOutside(segs: seq<string>, useRegex: bool): (r: seq<string>)
    ensures |r| == |segs|
  {
    seq(|segs|, i requires 0 <= i < |segs| => if i % 2 == 1 || useRegex then segs[i] else Escape(segs[i]))
  }

  /**
    One value of a fixed matcher in its regex slot: a string is taken as
    regex, anything else is formatted with the matcher's format and escaped.
  */
  function Alternative(ms: seq<Matcher>, idx: int, v: Value, ops: FormatOps): (r: Result<string>)
    ensures v.Str? ==> r == Ok(v.s)
    ensures !v.Str? ==> (r.Ok? <==> PyIndex(ms, idx).Ok? && PyIndex(ms, idx).value.fmt.Some?)
    ensures !v.Str? && r.Ok? ==> Unescape(r.value) == ops.render(PyIndex(ms, idx).value.fmt.value, v)
    ensures !v.Str? && PyIndex(ms, idx).Ok? && PyIndex(ms, idx).value.fmt.None? ==> r == Err(AttributeError)
  {
    if v.Str? then Ok(v.s)
    else
      var m :- PyIndex(ms, idx);
      if m.fmt.None? then Err(AttributeError)
      else
        UnescapeEscape(ops.render(m.fmt.value, v));
        Ok(Escape(ops.render(m.fmt.value, v)))
  }

  /** The alternatives of a list of values, in order; the first failure raises. */
  function Alternatives(ms: seq<Matcher>, idx: int, vs: seq<Value>, ops: FormatOps): (r: Result<seq<string>>)
    ensures r.Ok? <==> forall i :: 0 <= i < |vs| ==> Alternative(ms, idx, vs[i], ops).Ok?
    ensures r.Ok? ==> |r.value| == |vs| && forall i :: 0 <= i < |vs| ==> r.value[i] == Alternative(ms, idx, vs[i], ops).value
  {
    if |vs| == 0 then Ok([])
    else
      var first :- Alternative(ms, idx, vs[0], ops);
      var rest :- Alternatives(ms, idx, vs[1..], ops);
      assert forall i :: 1 <= i < |vs| ==> vs[1..][i - 1] == vs[i];
      Ok([first] + rest)
  }

  /** The texts of a list of strings. */
  function Texts(vs: seq<Value>): (r: seq<string>)
    requires forall i :: 0 <= i < |vs| ==> vs[i].Str?
    ensures |r| == |vs| && forall i :: 0 <= i < |vs| ==> r[i] == vs[i].s
  {
    seq(|vs|, i requires 0 <= i < |vs| => vs[i].s)
  }

  /** A bool fixed on a matcher with a pair of options stands for one of the options. */
  function OptionValue(ms: seq<Matcher>, idx: int, value: FixArg): (r: Result<FixArg>)
  {
    if value.One? && value.v.Bool? then
      var m :- PyIndex(ms, idx);
      Ok(if m.opt.OptPair? then One(Str(if value.v.b then m.opt.b else m.opt.a)) else value)
    else Ok(value)
  }

  /**
    The regex `_update_regex` writes for a fixed matcher: its values as
    alternatives inside a group. A bool on a matcher with a pair of options
    gives that option, a string is used as is, and other values are
    formatted and escaped.
  */
  function SlotRegex(ms: seq<Matcher>, idx: int, value: FixArg, ops: FormatOps): (r: Result<string>)
    ensures value.One? && value.v.Str? ==> r == Ok("(" + value.v.s + ")")
    ensures value.Many? && (forall i :: 0 <= i < |value.vs| ==> value.vs[i].Str?) ==>
      r == Ok("(" + Join("|", Texts(value.vs)) + ")")
    ensures value.One? && value.v.Bool? && 0 <= idx < |ms| && ms[idx].opt.OptPair? ==>
      r == Ok("(" + (if value.v.b then ms[idx].opt.b else ms[idx].opt.a) + ")")
    ensures value.One? && !value.v.Str? && 0 <= idx < |ms| && !ms[idx].opt.OptPair? ==>
      r == if ms[idx].fmt.Some? then Ok("(" + Escape(ops.render(ms[idx].fmt.value, value.v)) + ")") else Err(AttributeError)
  {
    var v :- OptionValue(ms, idx, value);
    var alts :- Alternatives(ms, idx, if v.One? then [v.v] else v.vs, ops);
    assert value.Many? && (forall i :: 0 <= i < |value.vs| ==> value.vs[i].Str?) ==> alts == Texts(value.vs);
    Ok("(" + Join("|", alts) + ")")
  }

  /**
    A list of strings without `|` is written as alternatives that split back
    into the strings.
  */
  lemma SlotAlternatives(ms: seq<Matcher>, idx: int, vs: seq<Value>, ops: FormatOps)
    requires |vs| >= 1 && forall i :: 0 <= i < |vs| ==> vs[i].Str? && '|' !in vs[i].s
    ensures var r := SlotRegex(ms, idx, Many(vs), ops).value;
      SplitAll(r[1..|r| - 1], '|') == Texts(vs)
  {
    var r := SlotRegex(ms, idx, Many(vs), ops).value;
    assert r[1..|r| - 1] == Join("|", Texts(vs));
    SplitJoin(Texts(vs), '|');
  }

  /** The slot writer of `_update_regex`. */
  function RegexSlot(ms: seq<Matcher>, ops: FormatOps): (int, FixArg) -> Result<string> {
    (k, v) => SlotRegex(ms, k, v, ops)
  }

  /**
    `_update_regex`, as a value: the text outside matchers escaped (unless
    the finder uses regex), the fixed matchers written in, all joined.
  */
  function RegexFor(useRegex: bool, segments: seq<string>, ms: seq<Matcher>, d: Fixes, ops: FormatOps): (r: Result<string>)
    requires d.Valid()
  {
    var segs :- WriteSlots(EscapeOutside(segments, useRegex), d, 0, RegexSlot(ms, ops));
    Ok(Join("", segs))
  }

  /** Without fixed matchers the regex is the escaped text around the matcher regexes. */
  lemma RegexWithoutFixes(useRegex: bool, segments: seq<string>, ms: seq<Matcher>, ops: FormatOps)
    ensures RegexFor(useRegex, segments, ms, NoFixes, ops) == Ok(Join("", EscapeOutside(segments, useRegex)))
  {
  }

  // ---------------------------------------------------------------------
  // fix_matcher / fix_matchers / unfix_matchers

  /** Whether fixing the selection `sel` fixes index `k` (a discarded matcher only with `fixDiscard`). */
  predicate Fixable(sel: seq<Matcher>, k: int, fixDiscard: bool) {
    exists j :: 0 <= j < |sel| && sel[j].idx == k && (fixDiscard || !sel[j].discard)
  }

  /** `_fix_matcher_no_update` once the matchers are selected: each one is set to `v`. */
  function FixSelected(d: Fixes, sel: seq<Matcher>, v: FixArg, fixDiscard: bool): (r: Fixes)
    requires d.Valid()
    ensures r.Valid()
    ensures forall k :: k in r.values <==> k in d.values || Fixable(sel, k, fixDiscard)
    ensures forall k :: k in r.values ==> r.values[k] == if Fixable(sel, k, fixDiscard) then v else d.values[k]
    ensures d.order <= r.order
    decreases |sel|
  {
    if |sel| == 0 then d
    else
      var d' := if !fixDiscard && sel[0].discard then d else Put(d, sel[0].idx, v);
      FixableStep(sel, fixDiscard);
      FixSelected(d', sel[1..], v, fixDiscard)
  }

  /** A selection fixes what its head fixes and what its tail fixes. */
  lemma FixableStep(sel: seq<Matcher>, fixDiscard: bool)
    requires |sel| > 0
    ensures forall k :: Fixable(sel, k, fixDiscard) <==>
      (sel[0].idx == k && (fixDiscard || !sel[0].discard)) || Fixable(sel[1..], k, fixDiscard)
  {
    forall k ensures Fixable(sel, k, fixDiscard) ==>
        (sel[0].idx == k && (fixDiscard || !sel[0].discard)) || Fixable(sel[1..], k, fixDiscard) {
      if Fixable(sel, k, fixDiscard) {
        var j :| 0 <= j < |sel| && sel[j].idx == k && (fixDiscard || !sel[j].discard);
        if j > 0 { assert sel[1..][j - 1] == sel[j]; }
      }
    }
    forall k ensures Fixable(sel[1..], k, fixDiscard) ==> Fixable(sel, k, fixDiscard) {
      if Fixable(sel[1..], k, fixDiscard) {
        var j :| 0 <= j < |sel[1..]| && sel[1..][j].idx == k && (fixDiscard || !sel[1..][j].discard);
        assert sel[j + 1] == sel[1..][j];
      }
    }
  }

  /** Whether the selection `sel` holds a matcher of index `k`. */
  predicate Picks(sel: seq<Matcher>, k: int) {
    exists j :: 0 <= j < |sel| && sel[j].idx == k
  }

  /** The loop of `unfix_matchers` over the selected matchers: each entry is popped. */
  function PopSelected(d: Fixes, sel: seq<Matcher>): (r: Fixes)
    requires d.Valid()
    ensures r.Valid()
    ensures forall k :: k in r.values <==> k in d.values && !Picks(sel, k)
    ensures forall k :: k in r.values ==> r.values[k] == d.values[k]
    decreases |sel|
  {
    if |sel| == 0 then d
    else
      var r := PopSelected(Pop(d, sel[0].idx), sel[1..]);
      assert forall k :: Picks(sel, k) <==> sel[0].idx == k || Picks(sel[1..], k) by {
        forall k ensures Picks(sel, k) ==> sel[0].idx == k || Picks(sel[1..], k) {
          if Picks(sel, k) {
            var j :| 0 <= j < |sel| && sel[j].idx == k;
            if j > 0 { assert sel[1..][j - 1] == sel[j]; }
          }
        }
        forall k ensures Picks(sel[1..], k) ==> Picks(sel, k) {
          if Picks(sel[1..], k) {
            var j :| 0 <= j < |sel[1..]| && sel[1..][j].idx == k;
            assert sel[j + 1] == sel[1..][j];
          }
        }
      }
      r
  }

  /** Whether fix `i` of the list fixes index `k`. */
  predicate FixesIndex(ms: seq<Matcher>, fixes: seq<(Key, FixArg)>, i: int, k: int, fixDiscard: bool)
    requires 0 <= i < |fixes|
  {
    GetMatchers(ms, fixes[i].0).Ok? && Fixable(GetMatchers(ms, fixes[i].0).value, k, fixDiscard)
  }

  /**
    The loop of `fix_matchers` over its fixes, in order: each key selects
    matchers that are set to its value. The first key that selects nothing
    raises, and the fixes before it stay.
  */
  function FixEach(ms: seq<Matcher>, d: Fixes, fixes: seq<(Key, FixArg)>, fixDiscard: bool): (r: (Fixes, Option<Error>))
    requires d.Valid()
    ensures r.0.Valid() && d.order <= r.0.order
    ensures r.1.None? <==> forall i :: 0 <= i < |fixes| ==> GetMatchers(ms, fixes[i].0).Ok?
    ensures r.1.Some? ==> exists i :: 0 <= i < |fixes| && GetMatchers(ms, fixes[i].0) == Err(r.1.value)
    decreases |fixes|
  {
    if |fixes| == 0 then (d, None)
    else
      match GetMatchers(ms, fixes[0].0)
      case Err(e) => (d, Some(e))
      case Ok(sel) =>
        var r := FixEach(ms, FixSelected(d, sel, fixes[0].1, fixDiscard), fixes[1..], fixDiscard);
        KeysShift(ms, fixes);
        r
  }

  /** The keys of `fixes` are its first key and the keys of its tail. */
  lemma KeysShift(ms: seq<Matcher>, fixes: seq<(Key, FixArg)>)
    requires |fixes| > 0
    ensures (forall i :: 0 <= i < |fixes| ==> GetMatchers(ms, fixes[i].0).Ok?) <==>
      GetMatchers(ms, fixes[0].0).Ok? && forall i :: 0 <= i < |fixes[1..]| ==> GetMatchers(ms, fixes[1..][i].0).Ok?
    ensures forall e :: (exists i :: 0 <= i < |fixes[1..]| && GetMatchers(ms, fixes[1..][i].0) == Err(e)) ==>
      exists i :: 0 <= i < |fixes| && GetMatchers(ms, fixes[i].0) == Err(e)
  {
    assert forall i :: 1 <= i < |fixes| ==> fixes[1..][i - 1] == fixes[i];
  }

  /** After `fix_matchers` succeeds, an index holds the value of the last fix that selects it. */
  lemma {:induction false} FixEachLastWins(ms: seq<Matcher>, d: Fixes, fixes: seq<(Key, FixArg)>, fixDiscard: bool, i: int, k: int)
    requires d.Valid()
    requires FixEach(ms, d, fixes, fixDiscard).1.None?
    requires 0 <= i < |fixes| && FixesIndex(ms, fixes, i, k, fixDiscard)
    requires forall j :: i < j < |fixes| ==> !FixesIndex(ms, fixes, j, k, fixDiscard)
    ensures k in FixEach(ms, d, fixes, fixDiscard).0.values
    ensures FixEach(ms, d, fixes, fixDiscard).0.values[k] == fixes[i].1
    decreases |fixes|
  {
    var sel := GetMatchers(ms, fixes[0].0).value;
    var d' := FixSelected(d, sel, fixes[0].1, fixDiscard);
    var rest := fixes[1..];
    assert FixEach(ms, d, fixes, fixDiscard) == FixEach(ms, d', rest, fixDiscard);
    if i > 0 {
      assert rest[i - 1] == fixes[i];
      forall j | i - 1 < j < |rest| ensures !FixesIndex(ms, rest, j, k, fixDiscard) {
        assert rest[j] == fixes[j + 1];
        assert !FixesIndex(ms, fixes, j + 1, k, fixDiscard);
      }
      FixEachLastWins(ms, d', rest, fixDiscard, i - 1, k);
    } else {
      assert Fixable(sel, k, fixDiscard);
      assert k in d'.values && d'.values[k] == fixes[0].1;
      forall j | 0 <= j < |rest| ensures !FixesIndex(ms, rest, j, k, fixDiscard) {
        assert rest[j] == fixes[j + 1];
        assert !FixesIndex(ms, fixes, j + 1, k, fixDiscard);
      }
      FixEachUntouched(ms, d', rest, fixDiscard, k);
    }
  }

  /** After `fix_matchers` succeeds, an index that no fix selects keeps its entry. */
  lemma {:induction false} FixEachUntouched(ms: seq<Matcher>, d: Fixes, fixes: seq<(Key, FixArg)>, fixDiscard: bool, k: int)
    requires d.Valid()
    requires FixEach(ms, d, fixes, fixDiscard).1.None?
    requires forall j :: 0 <= j < |fixes| ==> !FixesIndex(ms, fixes, j, k, fixDiscard)
    ensures k in FixEach(ms, d, fixes, fixDiscard).0.values <==> k in d.values
    ensures k in d.values ==> FixEach(ms, d, fixes, fixDiscard).0.values[k] == d.values[k]
    decreases |fixes|
  {
    if |fixes| > 0 {
      var sel := GetMatchers(ms, fixes[0].0).value;
      var d' := FixSelected(d, sel, fixes[0].1, fixDiscard);
      var rest := fixes[1..];
      assert FixEach(ms, d, fixes, fixDiscard) == FixEach(ms, d', rest, fixDiscard);
      assert !FixesIndex(ms, fixes, 0, k, fixDiscard);
      forall j | 0 <= j < |rest| ensures !FixesIndex(ms, rest, j, k, fixDiscard) {
        assert rest[j] == fixes[j + 1];
        assert !FixesIndex(ms, fixes, j + 1, k, fixDiscard);
      }
      FixEachUntouched(ms, d', rest, fixDiscard, k);
    }
  }

  /**
    The loop of `unfix_matchers` over its keys, in order: the matchers each
    key selects lose their fixed value; the first key that selects nothing
    raises, and the keys before it stay unfixed.
  */
  function UnfixEach(ms: seq<Matcher>, d: Fixes, keys: seq<Key>): (r: (Fixes, Option<Error>))
    requires d.Valid()
    ensures r.0.Valid() && Unfixed(ms, d, keys, r)
    decreases |keys|
  {
    if |keys| == 0 then (d, None)
    else
      match GetMatchers(ms, keys[0])
      case Err(e) => (d, Some(e))
      case Ok(sel) =>
        var r := UnfixEach(ms, PopSelected(d, sel), keys[1..]);
        UnfixedStep(ms, d, keys, sel, r);
        r
  }

  /**
    What `unfix_matchers` leaves after the keys: the fixes that remain are
    unchanged; it fails exactly when a key selects nothing, with that key's
    error; and when it does not fail, exactly the fixes of the matchers no
    key selects remain.
  */
  ghost predicate Unfixed(ms: seq<Matcher>, d: Fixes, keys: seq<Key>, r: (Fixes, Option<Error>)) {
    && (forall k :: k in r.0.values ==> k in d.values && r.0.values[k] == d.values[k])
    && (r.1.None? <==> forall i :: 0 <= i < |keys| ==> GetMatchers(ms, keys[i]).Ok?)
    && (r.1.Some? ==> exists i :: 0 <= i < |keys| && GetMatchers(ms, keys[i]) == Err(r.1.value))
    && (r.1.None? ==> forall k :: k in r.0.values <==>
         (k in d.values && forall i :: 0 <= i < |keys| ==> !Picks(GetMatchers(ms, keys[i]).value, k)))
  }

  /** Unfixing the first key's matchers, then the other keys, unfixes for all the keys. */
  lemma UnfixedStep(ms: seq<Matcher>, d: Fixes, keys: seq<Key>, sel: seq<Matcher>, r: (Fixes, Option<Error>))
    requires d.Valid() && |keys| > 0 && GetMatchers(ms, keys[0]) == Ok(sel)
    requires Unfixed(ms, PopSelected(d, sel), keys[1..], r)
    ensures Unfixed(ms, d, keys, r)
  {
    var rest := keys[1..];
    assert forall i :: 1 <= i < |keys| ==> rest[i - 1] == keys[i];
    SelectsStep(ms, keys, r.1);
    if r.1.None? {
      forall k ensures k in r.0.values <==>
        (k in d.values && forall i :: 0 <= i < |keys| ==> !Picks(GetMatchers(ms, keys[i]).value, k))
      {
        assert (forall i :: 0 <= i < |keys| ==> !Picks(GetMatchers(ms, keys[i]).value, k)) <==>
          !Picks(sel, k) && (forall i :: 0 <= i < |rest| ==> !Picks(GetMatchers(ms, rest[i]).value, k));
      }
    }
  }

  /** Failing exactly when one of the keys after a first one that selects something selects nothing, with its error, is failing so for all of them. */
  lemma SelectsStep(ms: seq<Matcher>, keys: seq<Key>, err: Option<Error>)
    requires |keys| > 0 && GetMatchers(ms, keys[0]).Ok?
    requires err.None? <==> forall i :: 0 <= i < |keys| - 1 ==> GetMatchers(ms, keys[1..][i]).Ok?
    requires err.Some? ==> exists i :: 0 <= i < |keys| - 1 && GetMatchers(ms, keys[1..][i]) == Err(err.value)
    ensures err.None? <==> forall i :: 0 <= i < |keys| ==> GetMatchers(ms, keys[i]).Ok?
    ensures err.Some? ==> exists i :: 0 <= i < |keys| && GetMatchers(ms, keys[i]) == Err(err.value)
  {
    var rest := keys[1..];
    assert forall i :: 1 <= i < |keys| ==> rest[i - 1] == keys[i];
    if err.Some? {
      var i :| 0 <= i < |rest| && GetMatchers(ms, rest[i]) == Err(err.value);
      assert GetMatchers(ms, keys[i + 1]) == Err(err.value);
    }
  }

  // ---------------------------------------------------------------------
  // get_filename

  /** The value a fix gives a filename: the first of a list, the value itself otherwise. */
  function FirstValue(value: FixArg): (r: Result<Value>)
    ensures value.One? ==> r == Ok(value.v)
    ensures value.Many? ==> r == if |value.vs| == 0 then Err(IndexError) else Ok(value.vs[0])
  {
    if value.One? then Ok(value.v)
    else if |value.vs| == 0 then Err(IndexError)
    else Ok(value.vs[0])
  }

  /**
    The text `get_filename` writes for a fixed matcher: a bool picks one of
    the matcher's pair of options (anything else cannot be indexed by a bool,
    a TypeError); a list gives its first item; a string is used as is; any
    other value is formatted with the matcher's format.
  */
  function FilenameValue(ms: seq<Matcher>, idx: int, value: FixArg, ops: FormatOps): (r: Result<string>)
    ensures value.One? && value.v.Str? ==> r == Ok(value.v.s)
    ensures value.Many? && |value.vs| == 0 ==> r == Err(IndexError)
    ensures value.Many? && |value.vs| > 0 && value.vs[0].Str? ==> r == Ok(value.vs[0].s)
    ensures value.One? && value.v.Bool? && 0 <= idx < |ms| ==>
      r == if ms[idx].opt.OptPair? then Ok(if value.v.b then ms[idx].opt.b else ms[idx].opt.a) else Err(TypeError)
    ensures value.One? && value.v.Num? && 0 <= idx < |ms| ==>
      r == if ms[idx].fmt.Some? then Ok(ops.render(ms[idx].fmt.value, value.v)) else Err(AttributeError)
  {
    if value.One? && value.v.Bool? then
      var m :- PyIndex(ms, idx);
      if m.opt.OptPair? then Ok(if value.v.b then m.opt.b else m.opt.a) else Err(TypeError)
    else
      var v :- FirstValue(value);
      if v.Str? then Ok(v.s)
      else
        var m :- PyIndex(ms, idx);
        if m.fmt.None? then Err(AttributeError) else Ok(ops.render(m.fmt.value, v))
  }

  /**
    What a filename holds for a fixed matcher is what the fixed regex accepts
    there: the option chosen by a bool, the first of a list of strings, or
    the formatted number, which the regex holds escaped.
  */
  lemma FilenameFitsRegex(ms: seq<Matcher>, idx: int, value: FixArg, ops: FormatOps)
    requires 0 <= idx < |ms|
    requires SlotRegex(ms, idx, value, ops).Ok? && FilenameValue(ms, idx, value, ops).Ok?
    ensures var rx := SlotRegex(ms, idx, value, ops).value;
      var text := FilenameValue(ms, idx, value, ops).value;
      && |rx| >= 2
      && (value.One? && value.v.Bool? ==> rx[1..|rx| - 1] == text)
      && (value.One? && value.v.Num? ==> Unescape(rx[1..|rx| - 1]) == text)
      && (value.Many? && (forall i :: 0 <= i < |value.vs| ==> value.vs[i].Str? && '|' !in value.vs[i].s) ==>
            SplitAll(rx[1..|rx| - 1], '|')[0] == text)
  {
    if value.One? && value.v.Num? {
      UnescapeEscape(ops.render(ms[idx].fmt.value, value.v));
    }
    if value.Many? && (forall i :: 0 <= i < |value.vs| ==> value.vs[i].Str? && '|' !in value.vs[i].s) {
      SlotAlternatives(ms, idx, value.vs, ops);
    }
  }

  /** The slot writer of `get_filename`. */
  function FilenameSlot(ms: seq<Matcher>, ops: FormatOps): (int, FixArg) -> Result<string> {
    (k, v) => FilenameValue(ms, k, v, ops)
  }

  /** `get_filename`'s copy of the fixed matchers with its own fixes applied over it. */
  function Overlay(ms: seq<Matcher>, d: Fixes, fixes: seq<(Key, FixArg)>): (r: Result<Fixes>)
    requires d.Valid()
    ensures r.Ok? ==> r.value.Valid()
    ensures r.Ok? <==> forall i :: 0 <= i < |fixes| ==> GetMatchers(ms, fixes[i].0).Ok?
    ensures r.Ok? ==> r.value == FixEach(ms, d, fixes, true).0
  {
    var (o, e) := FixEach(ms, d, fixes, true);
    if e.Some? then Err(e.value) else Ok(o)
  }

  /**
    The test of `get_filename` that all matchers are fixed, as written: it
    asks whether `any` index missing from the fixes is truthy, so index 0,
    the first matcher, is never reported.
  */
  predicate SomeUnfixedAsWritten(n: nat, fixed: Fixes) {
    exists i :: 1 <= i < n && i !in fixed.values
  }

  /** The intended test: some matcher, the first one included, is not fixed. */
  predicate SomeUnfixed(n: nat, fixed: Fixes) {
    exists i :: 0 <= i < n && i !in fixed.values
  }

  /** The segments with every fixed matcher's text written in, joined. */
  function WrittenFilename(ms: seq<Matcher>, segments: seq<string>, o: Fixes, ops: FormatOps): Result<string>
    requires o.Valid()
  {
    var segs :- WriteSlots(segments, o, 0, FilenameSlot(ms, ops));
    Ok(Join("", segs))
  }

  /** `get_filename` as written, with the unfixed test that skips the first matcher. */
  function FilenameAsWritten(useRegex: bool, ms: seq<Matcher>, segments: seq<string>, d: Fixes, fixes: seq<(Key, FixArg)>, ops: FormatOps): (r: Result<string>)
    requires d.Valid()
    ensures useRegex ==> r == Err(ValueError)
    ensures !useRegex && Overlay(ms, d, fixes).Ok? && SomeUnfixedAsWritten(|ms|, Overlay(ms, d, fixes).value) ==> r == Err(TypeError)
  {
    if useRegex then Err(ValueError)
    else
      var o :- Overlay(ms, d, fixes);
      if SomeUnfixedAsWritten(|ms|, o) then Err(TypeError)
      else WrittenFilename(ms, segments, o, ops)
  }

  /**
    `get_filename` as intended: with regex outside the matchers no filename
    can be built, and a filename is only built once every matcher is fixed.
  */
  function Filename(useRegex: bool, ms: seq<Matcher>, segments: seq<string>, d: Fixes, fixes: seq<(Key, FixArg)>, ops: FormatOps): (r: Result<string>)
    requires d.Valid()
    ensures useRegex ==> r == Err(ValueError)
    ensures !useRegex && Overlay(ms, d, fixes).Ok? && SomeUnfixed(|ms|, Overlay(ms, d, fixes).value) ==> r == Err(TypeError)
    ensures r.Ok? ==> Overlay(ms, d, fixes).Ok? && forall i :: 0 <= i < |ms| ==> i in Overlay(ms, d, fixes).value.values
  {
    if useRegex then Err(ValueError)
    else
      var o :- Overlay(ms, d, fixes);
      if SomeUnfixed(|ms|, o) then Err(TypeError)
      else WrittenFilename(ms, segments, o, ops)
  }

  /** The two tests disagree only when the first matcher is the one left unfixed. */
  lemma FilenameAsWrittenAgrees(useRegex: bool, ms: seq<Matcher>, segments: seq<string>, d: Fixes, fixes: seq<(Key, FixArg)>, ops: FormatOps)
    requires d.Valid()
    requires |ms| == 0 || (Overlay(ms, d, fixes).Ok? ==> 0 in Overlay(ms, d, fixes).value.values)
    ensures FilenameAsWritten(useRegex, ms, segments, d, fixes, ops) == Filename(useRegex, ms, segments, d, fixes, ops)
  {
    var ov := Overlay(ms, d, fixes);
    if !useRegex && ov.Ok? {
      SomeUnfixedAgrees(|ms|, ov.value);
    }
  }

  /** The first matcher fixed, both unfixed tests agree. */
  lemma SomeUnfixedAgrees(n: nat, o: Fixes)
    requires n == 0 || 0 in o.values
    ensures SomeUnfixed(n, o) == SomeUnfixedAsWritten(n, o)
  {
    if SomeUnfixed(n, o) {
      var i :| 0 <= i < n && i !in o.values;
      assert 1 <= i;
    }
  }

  /**
    With every matcher fixed to a string, the filename is the text around
    the matchers with the strings in their places.
  */
  lemma FilenameOfStrings(ms: seq<Matcher>, segments: seq<string>, d: Fixes, texts: seq<string>, ops: FormatOps)
    requires d.Valid() && |segments| == 2 * |ms| + 1 && |texts| == |ms|
    requires forall k :: k in d.values <==> 0 <= k < |ms|
    requires forall k :: 0 <= k < |ms| ==> d.values[k] == One(Str(texts[k]))
    ensures Filename(false, ms, segments, d, [], ops) ==
      Ok(Join("", seq(|segments|, j requires 0 <= j < |segments| => if j % 2 == 1 then texts[j / 2] else segments[j])))
  {
    assert Overlay(ms, d, []) == Ok(d);
    assert !SomeUnfixed(|ms|, d);
    assert Filename(false, ms, segments, d, [], ops) == WrittenFilename(ms, segments, d, ops);
    StringsWritten(ms, segments, d, texts, ops);
  }

  /** Writing string fixes for every matcher puts each string in its matcher's slot. */
  lemma StringsWritten(ms: seq<Matcher>, segments: seq<string>, d: Fixes, texts: seq<string>, ops: FormatOps)
    requires d.Valid() && |segments| == 2 * |ms| + 1 && |texts| == |ms|
    requires forall k :: k in d.values <==> 0 <= k < |ms|
    requires forall k :: 0 <= k < |ms| ==> d.values[k] == One(Str(texts[k]))
    ensures WriteSlots(segments, d, 0, FilenameSlot(ms, ops)) ==
      Ok(seq(|segments|, j requires 0 <= j < |segments| => if j % 2 == 1 then texts[j / 2] else segments[j]))
  {
    var slot := FilenameSlot(ms, ops);
    OrderedKeys(d);
    forall t | 0 <= t < |d.order| ensures d.order[t] in d.values && slot(d.order[t], d.values[d.order[t]]).Ok? && 0 <= d.order[t] < |ms| {
      assert slot(d.order[t], d.values[d.order[t]]) == FilenameValue(ms, d.order[t], d.values[d.order[t]], ops);
    }
    var w := WriteSlots(segments, d, 0, slot);
    assert w.Ok?;
    var filled := seq(|segments|, j requires 0 <= j < |segments| => if j % 2 == 1 then texts[j / 2] else segments[j]);
    forall j | 0 <= j < |segments| ensures w.value[j] == filled[j] {
      if j % 2 == 1 {
        assert j / 2 in d.values;
        assert j / 2 in d.order[0..];
        assert slot(j / 2, d.values[j / 2]) == Ok(texts[j / 2]);
      }
    }
    assert w.value == filled;
  }

  /**
    The unfixed test as written overlooks the first matcher: a finder with
    one matcher and nothing fixed gets past it, and the matcher's regex is
    left in the filename.
  */
  lemma FirstMatcherNeverReported(ms: seq<Matcher>, segments: seq<string>, ops: FormatOps)
    requires |ms| == 1 && |segments| == 3
    ensures FilenameAsWritten(false, ms, segments, NoFixes, [], ops) == Ok(segments[0] + segments[1] + segments[2])
  {
    assert Overlay(ms, NoFixes, []) == Ok(NoFixes);
    assert !SomeUnfixedAsWritten(1, NoFixes);
    assert FilenameAsWritten(false, ms, segments, NoFixes, [], ops) == Ok(Join("", segments));
    assert WriteSlots(segments, NoFixes, 0, FilenameSlot(ms, ops)) == Ok(segments);
    assert segments[1..] == [segments[1], segments[2]];
    assert segments[1..][1..] == [segments[2]];
    assert Join("", segments[1..][1..]) == segments[2];
    assert Join("", segments[1..]) == segments[1] + "" + segments[2];
    assert Join("", segments) == segments[0] + "" + Join("", segments[1..]);
    assert segments[0] + "" == segments[0] && segments[1] + "" == segments[1];
    assert segments[0] + (segments[1] + segments[2]) == segments[0] + segments[1] + segments[2];
  }

  /** With the intended test, the same finder reports its unfixed matcher. */
  lemma FirstMatcherReported(ms: seq<Matcher>, segments: seq<string>, ops: FormatOps)
    requires |ms| == 1 && |segments| == 3
    ensures Filename(false, ms, segments, NoFixes, [], ops) == Err(TypeError)
  {
    assert Overlay(ms, NoFixes, []) == Ok(NoFixes);
    assert 0 !in NoFixes.values;
  }

  // ---------------------------------------------------------------------
  // get_files: nesting by group

  /** The raw matches of the matchers of `group`, concatenated in matcher order. */
  function GroupMatch(ms: seq<OldMatch>, group: Option<string>): (r: string)
    ensures (forall i :: 0 <= i < |ms| ==> ms[i].matcher.group != group) ==> r == ""
  {
    if |ms| == 0 then ""
    else (if ms[0].matcher.group == group then GetMatch(ms[0], false).s else "") + GroupMatch(ms[1..], group)
  }

  /** With a single matcher in the group, the key is that matcher's match. */
  lemma {:induction false} GroupMatchSingle(ms: seq<OldMatch>, group: Option<string>, i: nat)
    requires i < |ms| && ms[i].matcher.group == group
    requires forall j :: 0 <= j < |ms| && j != i ==> ms[j].matcher.group != group
    ensures GroupMatch(ms, group) == ms[i].matchStr
  {
    if i == 0 {
      assert forall j :: 0 <= j < |ms[1..]| ==> ms[1..][j] == ms[j + 1];
    } else {
      assert forall j :: 0 <= j < |ms[1..]| ==> ms[1..][j] == ms[j + 1];
      GroupMatchSingle(ms[1..], group, i - 1);
    }
  }

  /** The key of a file at one level. */
  function MatchOf(f: FileMatches, group: Option<string>): string {
    GroupMatch(f.1.matches, group)
  }

  /** The keys of the files, in order. */
  function Keyed(files: seq<FileMatches>, group: Option<string>): (r: seq<string>)
    ensures |r| == |files| && forall i :: 0 <= i < |files| ==> r[i] == MatchOf(files[i], group)
  {
    seq(|files|, i requires 0 <= i < |files| => MatchOf(files[i], group))
  }

  /** The files whose key is `k`, in order. */
  function WithMatch(files: seq<FileMatches>, group: Option<string>, k: string): (r: seq<FileMatches>)
    ensures forall f :: f in r ==> f in files && MatchOf(f, group) == k
    ensures |r| == 0 <==> k !in Keyed(files, group)
  {
    if |files| == 0 then []
    else
      var f := files[|files| - 1];
      var front := WithMatch(files[..|files| - 1], group, k);
      KeyedSnoc(files, group);
      front + if MatchOf(f, group) == k then [f] else []
  }


  /**
    One level of `nest`: the distinct keys of the files and, for each, the
    files that have it, in their order.
  */
  function Grouping(files: seq<FileMatches>, group: Option<string>): (r: (seq<string>, seq<seq<FileMatches>>))
    ensures |r.0| == |r.1|
    ensures forall i, j :: 0 <= i < j < |r.0| ==> r.0[i] != r.0[j]
  {
    if |files| == 0 then ([], [])
    else
      var front := files[..|files| - 1];
      var f := files[|files| - 1];
      var k := MatchOf(f, group);
      var prev := Grouping(front, group);
      var ks, gs := prev.0, prev.1;
      if k in ks then
        var i := IndexOf(ks, k);
        (ks, gs[i := gs[i] + [f]])
      else
        (ks + [k], gs + [[f]])
  }

  /** The keys of a non-empty list are those of all but its last file, then the last file's. */
  lemma KeyedSnoc(files: seq<FileMatches>, group: Option<string>)
    requires |files| > 0
    ensures Keyed(files, group) == Keyed(files[..|files| - 1], group) + [MatchOf(files[|files| - 1], group)]
    ensures forall g :: g in files[..|files| - 1] ==> g in files
  {
    var front := files[..|files| - 1];
    assert forall i :: 0 <= i < |front| ==> front[i] == files[i];
  }

  /** One step of `WithMatch`: the last file is kept when its key is `k`. */
  lemma WithMatchSnoc(files: seq<FileMatches>, group: Option<string>, k: string)
    requires |files| > 0
    ensures WithMatch(files, group, k)
      == WithMatch(files[..|files| - 1], group, k) + if MatchOf(files[|files| - 1], group) == k then [files[|files| - 1]] else []
  {
  }

  /** One step of `Grouping`: the last file joins the group of its key, or opens a new one. */
  lemma GroupingSnoc(files: seq<FileMatches>, group: Option<string>)
    requires |files| > 0
    ensures var prev := Grouping(files[..|files| - 1], group);
      var k := MatchOf(files[|files| - 1], group);
      Grouping(files, group) == if k in prev.0 then (prev.0, prev.1[IndexOf(prev.0, k) := prev.1[IndexOf(prev.0, k)] + [files[|files| - 1]]])
        else (prev.0 + [k], prev.1 + [[files[|files| - 1]]])
  {
  }

  /** The keys are those of the files. */
  lemma {:induction false} GroupingKeys(files: seq<FileMatches>, group: Option<string>)
    ensures forall k :: k in Grouping(files, group).0 <==> k in Keyed(files, group)
  {
    if |files| > 0 {
      var front := files[..|files| - 1];
      GroupingKeys(front, group);
      KeyedSnoc(files, group);
    }
  }

  /** Each group holds the files with its key, in their order. */
  lemma {:induction false} GroupingGroups(files: seq<FileMatches>, group: Option<string>)
    ensures var r := Grouping(files, group);
      forall i :: 0 <= i < |r.0| ==> r.1[i] == WithMatch(files, group, r.0[i])
  {
    if |files| > 0 {
      var front := files[..|files| - 1];
      var f := files[|files| - 1];
      var k := MatchOf(f, group);
      var ks, gs := Grouping(front, group).0, Grouping(front, group).1;
      var r := Grouping(files, group);
      GroupingSnoc(files, group);
      GroupingGroups(front, group);
      GroupingKeys(front, group);
      forall i | 0 <= i < |r.0| ensures r.1[i] == WithMatch(files, group, r.0[i]) {
        WithMatchSnoc(files, group, r.0[i]);
        if k in ks {
          var i0 := IndexOf(ks, k);
          assert r.0 == ks && r.1 == gs[i0 := gs[i0] + [f]];
        } else if i < |ks| {
          assert r.0[i] == ks[i] && r.1[i] == gs[i];
          assert ks[i] in ks;
        } else {
          assert r.0[i] == k && r.1[i] == [f];
          assert k !in Keyed(front, group);
        }
      }
    }
  }

  /** Where the key `k` first shows in the files (their count when it does not). */
  function FirstSeen(files: seq<FileMatches>, group: Option<string>, k: string): (r: nat)
    ensures r <= |files|
  {
    if k in Keyed(files, group) then IndexOf(Keyed(files, group), k) else |files|
  }

  /** The keys come in the order in which the files first show them. */
  lemma {:induction false} GroupingOrder(files: seq<FileMatches>, group: Option<string>)
    ensures var ks := Grouping(files, group).0;
      forall i, j :: 0 <= i < j < |ks| ==> FirstSeen(files, group, ks[i]) < FirstSeen(files, group, ks[j])
  {
    if |files| > 0 {
      var front := files[..|files| - 1];
      var k := MatchOf(files[|files| - 1], group);
      var ks := Grouping(front, group).0;
      var r := Grouping(files, group).0;
      GroupingSnoc(files, group);
      GroupingOrder(front, group);
      GroupingKeys(front, group);
      forall i, j | 0 <= i < j < |r| ensures FirstSeen(files, group, r[i]) < FirstSeen(files, group, r[j]) {
        FirstSeenSnoc(files, group, r[i]);
        FirstSeenSnoc(files, group, r[j]);
        if k in ks {
          assert r == ks && r[i] in ks && r[j] in ks;
        } else if j < |ks| {
          assert r[i] == ks[i] && ks[i] in ks;
          assert r[j] == ks[j] && ks[j] in ks;
        } else {
          assert r[i] == ks[i] && ks[i] in ks;
          assert r[j] == k;
        }
      }
    }
  }

  /** Adding a file at the end does not move where a key already seen first shows. */
  lemma FirstSeenSnoc(files: seq<FileMatches>, group: Option<string>, x: string)
    requires |files| > 0
    ensures var front := files[..|files| - 1];
      if x in Keyed(front, group) then FirstSeen(files, group, x) == FirstSeen(front, group, x) < |front|
      else FirstSeen(files, group, x) >= |front|
  {
    var front := files[..|files| - 1];
    KeyedSnoc(files, group);
    if x in Keyed(files, group) {
      IndexOfAppend(Keyed(front, group), [MatchOf(files[|files| - 1], group)], x);
    }
  }

  /** The file names of a list of files. */
  function Names(files: seq<FileMatches>): (r: seq<string>)
    ensures |r| == |files| && forall i :: 0 <= i < |files| ==> r[i] == files[i].0
  {
    if |files| == 0 then [] else Names(files[..|files| - 1]) + [files[|files| - 1].0]
  }

  /** The file names of each group. */
  function NamesEach(gs: seq<seq<FileMatches>>): (r: seq<seq<string>>)
    ensures |r| == |gs| && forall i :: 0 <= i < |gs| ==> r[i] == Names(gs[i])
  {
    seq(|gs|, i requires 0 <= i < |gs| => Names(gs[i]))
  }

  lemma GrowNames(gs: seq<seq<FileMatches>>, i: nat, f: FileMatches)
    requires i < |gs|
    ensures NamesEach(gs[i := gs[i] + [f]]) == NamesEach(gs)[i := NamesEach(gs)[i] + [f.0]]
  {
    assert Names(gs[i] + [f]) == Names(gs[i]) + [f.0];
  }

  lemma AppendNames(gs: seq<seq<FileMatches>>, f: FileMatches)
    ensures NamesEach(gs + [[f]]) == NamesEach(gs) + [[f.0]]
  {
    assert Names([f]) == [f.0] by { assert [f][..0] == []; }
    assert NamesEach(gs + [[f]])[|gs|] == [f.0];
  }

  /** The groups of one level hold every file once. */
  lemma {:induction false} GroupingPermutes(files: seq<FileMatches>, group: Option<string>)
    ensures multiset(Flatten(NamesEach(Grouping(files, group).1))) == multiset(Names(files))
  {
    if |files| > 0 {
      var front := files[..|files| - 1];
      var f := files[|files| - 1];
      var k := MatchOf(f, group);
      var ks, gs := Grouping(front, group).0, Grouping(front, group).1;
      GroupingPermutes(front, group);
      assert Names(files) == Names(front) + [f.0];
      if k in ks {
        var i := IndexOf(ks, k);
        assert Grouping(files, group).1 == gs[i := gs[i] + [f]];
        GrowNames(gs, i, f);
        FlattenGrow(NamesEach(gs), i, f.0);
      } else {
        assert Grouping(files, group).1 == gs + [[f]];
        AppendNames(gs, f);
        FlattenAppend(NamesEach(gs), [[f.0]]);
        assert Flatten([[f.0]]) == [f.0] by { assert [[f.0]][..0] == []; }
      }
    }
  }

  /** The nested lists of `get_files`: file names at the innermost level. */
  datatype Nested = Leaf(names: seq<string>) | Node(children: seq<Nested>)

  /** `nest`: the files grouped by the first group, each group nested by the others. */
  function Nest(files: seq<FileMatches>, groups: seq<Option<string>>): (r: Nested)
    ensures |groups| == 0 <==> r.Leaf?
    ensures r.Node? ==> |r.children| == |Grouping(files, groups[0]).0|
    decreases |groups|
  {
    if |groups| == 0 then Leaf(Names(files))
    else
      var gs := Grouping(files, groups[0]).1;
      Node(seq(|gs|, i requires 0 <= i < |gs| => Nest(gs[i], groups[1..])))
  }

  /** The file names of a nested list, from left to right. */
  function Leaves(t: Nested): seq<string> {
    match t
    case Leaf(names) => names
    case Node(cs) => Flatten(seq(|cs|, i requires 0 <= i < |cs| => Leaves(cs[i])))
  }

  lemma {:induction false} FlattenPointwise<T>(a: seq<seq<T>>, b: seq<seq<T>>)
    requires |a| == |b| && forall i :: 0 <= i < |a| ==> multiset(a[i]) == multiset(b[i])
    ensures multiset(Flatten(a)) == multiset(Flatten(b))
  {
    if |a| > 0 {
      FlattenPointwise(a[..|a| - 1], b[..|b| - 1]);
    }
  }

  /** Nesting loses no file and repeats none. */
  lemma {:induction false} NestPermutes(files: seq<FileMatches>, groups: seq<Option<string>>)
    ensures multiset(Leaves(Nest(files, groups))) == multiset(Names(files))
    decreases |groups|
  {
    if |groups| > 0 {
      var gs := Grouping(files, groups[0]).1;
      var cs := Nest(files, groups).children;
      var leaves := seq(|cs|, i requires 0 <= i < |cs| => Leaves(cs[i]));
      forall i | 0 <= i < |cs| ensures multiset(leaves[i]) == multiset(NamesEach(gs)[i]) {
        NestPermutes(gs[i], groups[1..]);
      }
      FlattenPointwise(leaves, NamesEach(gs));
      GroupingPermutes(files, groups[0]);
    }
  }

  /**
    The `i`-th child of a nested list holds exactly the files whose key for
    the first group is the `i`-th key.
  */
  lemma NestChild(files: seq<FileMatches>, groups: seq<Option<string>>, i: nat)
    requires |groups| > 0 && i < |Grouping(files, groups[0]).0|
    ensures var ks := Grouping(files, groups[0]).0;
      multiset(Leaves(Nest(files, groups).children[i])) == multiset(Names(WithMatch(files, groups[0], ks[i])))
  {
    GroupingGroups(files, groups[0]);
    NestPermutes(Grouping(files, groups[0]).1[i], groups[1..]);
  }

  // ---------------------------------------------------------------------
  // The loops of the finder's methods

  /** The loop of `_fix_matcher_no_update` over the selected matchers. */
  method FixInto(d: Fixes, sel: seq<Matcher>, v: FixArg, fixDiscard: bool) returns (r: Fixes)
    requires d.Valid()
    ensures r == FixSelected(d, sel, v, fixDiscard)
  {
    r := d;
    for i := 0 to |sel|
      invariant r.Valid()
      invariant FixSelected(r, sel[i..], v, fixDiscard) == FixSelected(d, sel, v, fixDiscard)
    {
      assert sel[i..][1..] == sel[i + 1..];
      if !fixDiscard && sel[i].discard {
        continue;
      }
      r := Put(r, sel[i].idx, v);
    }
    assert sel[|sel|..] == [];
  }

  /** The loop of `unfix_matchers` over the selected matchers. */
  method PopInto(d: Fixes, sel: seq<Matcher>) returns (r: Fixes)
    requires d.Valid()
    ensures r == PopSelected(d, sel)
  {
    r := d;
    for i := 0 to |sel|
      invariant r.Valid()
      invariant PopSelected(r, sel[i..]) == PopSelected(d, sel)
    {
      assert sel[i..][1..] == sel[i + 1..];
      r := Pop(r, sel[i].idx);
    }
    assert sel[|sel|..] == [];
  }

  /** The loop over the fixed matchers that writes each one's text into its slot. */
  method WriteInto(segs: seq<string>, d: Fixes, slot: (int, FixArg) -> Result<string>) returns (r: Result<seq<string>>)
    requires d.Valid()
    ensures r == WriteSlots(segs, d, 0, slot)
  {
    var cur := segs;
    ghost var goal := WriteSlots(segs, d, 0, slot);
    OrderedKeys(d);
    for t := 0 to |d.order|
      invariant WriteSlots(cur, d, t, slot) == goal
    {
      var next := WriteAt(cur, d, t, slot);
      if next.Err? {
        return next;
      }
      cur := next.value;
    }
    return Ok(cur);
  }

  /** One turn of the loop: the `t`-th fixed matcher's text is written into its slot, or raises. */
  method WriteAt(cur: seq<string>, d: Fixes, t: nat, slot: (int, FixArg) -> Result<string>) returns (r: Result<seq<string>>)
    requires d.Valid() && t < |d.order|
    ensures r.Err? ==> WriteSlots(cur, d, t, slot) == r
    ensures r.Ok? ==> WriteSlots(cur, d, t, slot) == WriteSlots(r.value, d, t + 1, slot)
  {
    OrderedKeys(d);
    var idx := d.order[t];
    var text := slot(idx, d.values[idx]);
    if text.Err? {
      return Err(text.error);
    }
    r := PySet(cur, 2 * idx + 1, text.value);
  }

  /** The loop of `nest` that sorts the files into groups by key. */
  method GroupFiles(files: seq<FileMatches>, group: Option<string>) returns (keys: seq<string>, groups: seq<seq<FileMatches>>)
    ensures (keys, groups) == Grouping(files, group)
  {
    keys, groups := [], [];
    for i := 0 to |files|
      invariant (keys, groups) == Grouping(files[..i], group)
    {
      var k := MatchOf(files[i], group);
      assert files[..i + 1][..i] == files[..i] && files[..i + 1][i] == files[i];
      GroupingSnoc(files[..i + 1], group);
      GroupStep(keys, groups, k, files[i]);
      if k !in keys {
        keys, groups := keys + [k], groups + [[]];
      }
      var at := IndexOf(keys, k);
      groups := groups[at := groups[at] + [files[i]]];
    }
    assert files[..|files|] == files;
  }

  /** A new key opens an empty group that then takes the file: the same as opening it with the file. */
  lemma GroupStep(keys: seq<string>, groups: seq<seq<FileMatches>>, k: string, f: FileMatches)
    requires |keys| == |groups|
    ensures k !in keys ==>
      var gs := groups + [[]];
      var at := IndexOf(keys + [k], k);
      at == |groups| && gs[at := gs[at] + [f]] == groups + [[f]]
  {
    if k !in keys {
      IndexOfAppend(keys, [k], k);
      var gs := groups + [[]];
      assert IndexOf(keys + [k], k) == |groups|;
      assert gs[|groups|] + [f] == [f];
      var after := gs[|groups| := [f]];
      assert |after| == |groups| + 1;
      assert forall j :: 0 <= j < |after| ==> after[j] == (groups + [[f]])[j];
    }
  }

  /** `nest`: grouping by the first group, then nesting each group by the others. */
  method NestFiles(files: seq<FileMatches>, groups: seq<Option<string>>) returns (t: Nested)
    ensures t == Nest(files, groups)
    decreases |groups|
  {
    if |groups| == 0 {
      return Leaf(Names(files));
    }
    var keys, grouped := GroupFiles(files, groups[0]);
    var children: seq<Nested> := [];
    for i := 0 to |grouped|
      invariant |children| == i
      invariant forall j :: 0 <= j < i ==> children[j] == Nest(grouped[j], groups[1..])
    {
      var child := NestFiles(grouped[i], groups[1..]);
      children := children + [child];
    }
    return Node(children);
  }

  /** One step of the scan loop when the matcher is made. */
  lemma ScanExtend(p: string, starts: seq<int>, ms: seq<Matcher>, splits: seq<int>, idx: nat, e: nat, m: Matcher, engine: Engine)
    requires forall j :: 0 <= j < |starts| ==> 1 <= starts[j] < |p| && p[starts[j] - 1] == '%' && p[starts[j]] == '('
    requires idx < |starts| && MatcherEnd(p, starts[idx]) == Some(e)
    requires Layout(p, starts, ms, splits) && Built(engine, ms)
    requires forall j :: 0 <= j < |ms| ==> ms[j].idx < idx
    requires NewMatcher(p[starts[idx] + 1..e], idx, engine.matcherFields(p[starts[idx] + 1..e]), engine.ops) == Ok(m)
    ensures Layout(p, starts, ms + [m], splits + [starts[idx] - 1, e + 1]) && Built(engine, ms + [m])
    ensures forall j :: 0 <= j < |ms + [m]| ==> (ms + [m])[j].idx < idx + 1
  {
    LayoutExtend(p, starts, ms, splits, idx, e, m);
    BuiltExtend(engine, ms, m);
    assert forall j :: 0 <= j < |ms| ==> (ms + [m])[j] == ms[j];
  }

  /** The scan goes on after a matcher is made. */
  lemma ScanGoesOn(p: string, starts: seq<int>, ms: seq<Matcher>, splits: seq<int>, idx: nat, e: nat, m: Matcher, engine: Engine)
    requires forall j :: 0 <= j < |starts| ==> 1 <= starts[j] < |p| && p[starts[j] - 1] == '%' && p[starts[j]] == '('
    requires idx < |starts| && MatcherEnd(p, starts[idx]) == Some(e)
    requires NewMatcher(p[starts[idx] + 1..e], idx, engine.matcherFields(p[starts[idx] + 1..e]), engine.ops) == Ok(m)
    ensures ScanFrom(p, starts, idx, ms, splits, engine) == ScanFrom(p, starts, idx + 1, ms + [m], splits + [starts[idx] - 1, e + 1], engine)
  {
  }

  /** The scan at the `idx`-th `%(` when its text is no matcher or raises. */
  lemma ScanFails(p: string, starts: seq<int>, ms: seq<Matcher>, splits: seq<int>, idx: nat, end: Option<nat>, made: Result<Matcher>, engine: Engine)
    requires forall j :: 0 <= j < |starts| ==> 1 <= starts[j] < |p| && p[starts[j] - 1] == '%' && p[starts[j]] == '('
    requires idx < |starts| && MatcherEnd(p, starts[idx]) == end
    requires end.Some? ==> made == NewMatcher(p[starts[idx] + 1..end.value], idx, engine.matcherFields(p[starts[idx] + 1..end.value]), engine.ops)
    ensures end.None? ==> ScanFrom(p, starts, idx, ms, splits, engine) == Err(ValueError)
    ensures end.Some? && made.Err? && made.error == InvalidMatcher ==>
      ScanFrom(p, starts, idx, ms, splits, engine) == ScanFrom(p, starts, idx + 1, ms, splits, engine)
    ensures end.Some? && made.Err? && made.error != InvalidMatcher ==>
      ScanFrom(p, starts, idx, ms, splits, engine) == Err(made.error)
  {
  }

  /** `_scan_pregex`'s search for the matchers: the scan from the first `%(` position. */
  method FindMatchers(p: string, engine: Engine) returns (ms: seq<Matcher>, splits: seq<int>, err: Option<Error>)
    ensures err.None? <==> Found(p, engine).Ok?
    ensures err.Some? ==> err.value == Found(p, engine).error
    ensures err.None? ==> Found(p, engine).value == (ms, splits)
  {
    ms, splits, err := ScanLoop(p, Starts(p), engine);
  }

  /**
    The loop of `_scan_pregex` over the `%(` positions, with the matchers
    made until it stops.
  */
  method ScanLoop(p: string, starts: seq<int>, engine: Engine) returns (ms: seq<Matcher>, splits: seq<int>, err: Option<Error>)
    requires forall j :: 0 <= j < |starts| ==> 1 <= starts[j] < |p| && p[starts[j] - 1] == '%' && p[starts[j]] == '('
    ensures err.None? <==> ScanFrom(p, starts, 0, [], [0], engine).Ok?
    ensures err.Some? ==> err.value == ScanFrom(p, starts, 0, [], [0], engine).error
    ensures err.None? ==> ScanFrom(p, starts, 0, [], [0], engine).value == (ms, splits)
  {
    ghost var goal := ScanFrom(p, starts, 0, [], [0], engine);
    ms, splits, err := [], [0], None;
    for idx := 0 to |starts|
      invariant err.None? ==> ScanFrom(p, starts, idx, ms, splits, engine) == goal
    {
      var ms', splits', stop := ScanAt(p, starts, idx, ms, splits, engine);
      if stop.Some? {
        return ms, splits, stop;
      }
      ms, splits := ms', splits';
    }
  }

  /**
    One turn of the loop of `_scan_pregex`: the matcher at the `idx`-th `%(`
    is added, skipped when its text is no matcher, or its error stops the scan.
  */
  method ScanAt(p: string, starts: seq<int>, idx: nat, ms: seq<Matcher>, splits: seq<int>, engine: Engine)
    returns (ms': seq<Matcher>, splits': seq<int>, err: Option<Error>)
    requires forall j :: 0 <= j < |starts| ==> 1 <= starts[j] < |p| && p[starts[j] - 1] == '%' && p[starts[j]] == '('
    requires idx < |starts|
    ensures err.None? ==> ScanFrom(p, starts, idx, ms, splits, engine) == ScanFrom(p, starts, idx + 1, ms', splits', engine)
    ensures err.Some? ==> ScanFrom(p, starts, idx, ms, splits, engine) == Err(err.value)
  {
    ms', splits', err := ms, splits, None;
    var start := starts[idx];
    var end := FindMatcherEnd(p, start);
    if end.None? {
      ScanFails(p, starts, ms, splits, idx, end, Err(ValueError), engine);
      return ms, splits, Some(ValueError);
    }
    var e := end.value;
    var text := p[start + 1..e];
    var made := NewMatcher(text, idx, engine.matcherFields(text), engine.ops);
    ScanFails(p, starts, ms, splits, idx, end, made, engine);
    if made.Ok? {
      ScanGoesOn(p, starts, ms, splits, idx, e, made.value, engine);
      ms', splits' := ms + [made.value], splits + [start - 1, e + 1];
    } else if made.error != InvalidMatcher {
      err := Some(made.error);
    }
  }

  /** The loop of `_scan_pregex` that puts each matcher's regex in its slot, with the segments when it stops. */
  method RegexSlotsInto(segs0: seq<string>, ms: seq<Matcher>) returns (segs: seq<string>, err: Option<Error>)
    requires |segs0| == 2 * |ms| + 1
    ensures err.None? <==> RegexSlotsFrom(segs0, ms, 0).Ok?
    ensures err.Some? ==> err.value == RegexSlotsFrom(segs0, ms, 0).error
    ensures err.None? ==> segs == RegexSlotsFrom(segs0, ms, 0).value
  {
    segs := segs0;
    for i := 0 to |ms|
      invariant |segs| == 2 * |ms| + 1
      invariant RegexSlotsFrom(segs, ms, i) == RegexSlotsFrom(segs0, ms, 0)
    {
      var rgx := GetRegex(ms[i]);
      if rgx.Err? {
        return segs, Some(rgx.error);
      }
      segs := segs[2 * i + 1 := rgx.value];
    }
    return segs, None;
  }

  // ---------------------------------------------------------------------
  // find_files, after the walk

  /** The walked files the regex matches, in walk order. */
  function Kept(walked: seq<string>, regex: string, engine: Engine): (r: seq<string>)
    ensures forall f :: f in r <==> f in walked && engine.fullmatch(regex, f).Some?
  {
    if |walked| == 0 then []
    else
      var front := walked[..|walked| - 1];
      var f := walked[|walked| - 1];
      assert forall x :: x in walked <==> x in front || x == f;
      Kept(front, regex, engine) + if engine.fullmatch(regex, f).Some? then [f] else []
  }

  /** One more walked file is kept exactly when it matches. */
  lemma KeptStep(walked: seq<string>, i: nat, regex: string, engine: Engine)
    requires i < |walked|
    ensures Kept(walked[..i + 1], regex, engine)
      == Kept(walked[..i], regex, engine) + if engine.fullmatch(regex, walked[i]).Some? then [walked[i]] else []
  {
    assert walked[..i + 1][..i] == walked[..i];
  }

  /** The names of a list with one more file end with that file's name. */
  lemma NamesSnoc(files: seq<FileMatches>, f: FileMatches)
    ensures Names(files + [f]) == Names(files) + [f.0]
  {
    assert (files + [f])[..|files|] == files;
  }

  /** Whether a file either does not match or matches with one capture per matcher. */
  predicate Fits(ms: seq<Matcher>, regex: string, engine: Engine, f: string) {
    engine.fullmatch(regex, f).None? || |engine.fullmatch(regex, f).value| == |ms|
  }

  /** Every file of the list matches, with the matches built from its captures. */
  predicate AllMatched(files: seq<FileMatches>, ms: seq<Matcher>, regex: string, engine: Engine) {
    forall j :: 0 <= j < |files| ==>
      engine.fullmatch(regex, files[j].0).Some? && Matched(ms, engine.fullmatch(regex, files[j].0).value, engine.ops, files[j].1)
  }

  lemma AllMatchedSnoc(files: seq<FileMatches>, f: FileMatches, ms: seq<Matcher>, regex: string, engine: Engine)
    requires AllMatched(files, ms, regex, engine)
    requires engine.fullmatch(regex, f.0).Some? && Matched(ms, engine.fullmatch(regex, f.0).value, engine.ops, f.1)
    ensures AllMatched(files + [f], ms, regex, engine)
  {
    var all := files + [f];
    forall j | 0 <= j < |all|
      ensures engine.fullmatch(regex, all[j].0).Some? && Matched(ms, engine.fullmatch(regex, all[j].0).value, engine.ops, all[j].1)
    {
      if j < |files| {
        assert all[j] == files[j];
      }
    }
  }

  /** The matches `get_matches` builds from the captures of a filename. */
  predicate Matched(ms: seq<Matcher>, caps: seq<Capture>, ops: FormatOps, m: OldMatches) {
    && m.matchers == ms && |m.matches| == |ms| && |caps| == |ms|
    && forall i :: 0 <= i < |ms| ==> m.matches[i] == NewOldMatch(ms[i], caps[i], ops)
  }

  /** `[m.group for m in matchers]`. */
  function GroupsOf(ms: seq<Matcher>): (r: seq<Option<string>>)
    ensures |r| == |ms| && forall j :: 0 <= j < |ms| ==> r[j] == ms[j].group
  {
    seq(|ms|, j requires 0 <= j < |ms| => ms[j].group)
  }

  // ---------------------------------------------------------------------
  // Finder

  /**
    A finder: the pre-regex and what it is scanned into (matchers and
    segments), the fixed matchers, the regex they give, and the files found
    with it. `engine` stands for the regex engine and the formatting.
  */
  class Finder {
    const root: string
    const useRegex: bool
    const engine: Engine
    var pregex: string
    var regex: string
    var matchers: seq<Matcher>
    var segments: seq<string>
    var fixed: Fixes
    var files: seq<FileMatches>
    var scanned: bool

    ghost predicate Valid()
      reads this
    {
      fixed.Valid()
    }

    /** The attributes `__init__` sets before it reads the pre-regex. */
    constructor (root: string, useRegex: bool, engine: Engine)
      ensures Valid()
      ensures this.root == root && this.useRegex == useRegex && this.engine == engine
      ensures pregex == "" && regex == "" && matchers == [] && segments == []
      ensures fixed == NoFixes && files == [] && !scanned
    {
      this.root := root;
      this.useRegex := useRegex;
      this.engine := engine;
      pregex := "";
      regex := "";
      matchers := [];
      segments := [];
      fixed := NoFixes;
      files := [];
      scanned := false;
    }

    /**
      `Finder(root, pregex, use_regex, **replacements)`: a finder whose
      pre-regex is scanned and whose regex has nothing fixed; a pre-regex
      that cannot be scanned raises.
    */
    static method Create(root: string, pregex: string, useRegex: bool, replacements: seq<(string, string)>, engine: Engine)
      returns (r: Result<Finder>)
      ensures var p := PreparePregex(pregex, replacements);
        && (r.Ok? <==> Scan(p, engine).Ok?)
        && (r.Err? ==> r.error == Scan(p, engine).error)
        && (r.Ok? ==>
              && fresh(r.value) && r.value.Valid()
              && r.value.root == root && r.value.useRegex == useRegex && r.value.engine == engine
              && r.value.pregex == p && r.value.fixed == NoFixes
              && r.value.matchers == Scan(p, engine).value.0 && r.value.segments == Scan(p, engine).value.1
              && r.value.regex == Join("", EscapeOutside(r.value.segments, useRegex))
              && !r.value.scanned && r.value.files == [])
    {
      var finder := new Finder(root, useRegex, engine);
      var err := finder.SetPregex(pregex, replacements);
      RegexWithoutFixes(useRegex, finder.segments, finder.matchers, engine.ops);
      if err.Some? {
        return Err(err.value);
      }
      err := finder.UpdateRegex();
      assert err.None?;
      return Ok(finder);
    }

    /** `set_pregex`: strip, make the replacements, scan, and compute the regex. */
    method SetPregex(pregex: string, replacements: seq<(string, string)>) returns (err: Option<Error>)
      requires Valid()
      modifies this
      ensures Valid() && fixed == old(fixed)
      ensures this.pregex == PreparePregex(pregex, replacements)
      ensures Scan(this.pregex, engine).Err? ==> err == Some(Scan(this.pregex, engine).error)
      ensures Scan(this.pregex, engine).Ok? ==>
        var scan := Scan(this.pregex, engine).value;
        && matchers == scan.0 && segments == scan.1
        && (err.None? <==> RegexFor(useRegex, scan.1, scan.0, fixed, engine.ops).Ok?)
        && (err.Some? ==> err.value == RegexFor(useRegex, scan.1, scan.0, fixed, engine.ops).error)
        && (err.None? ==> regex == RegexFor(useRegex, scan.1, scan.0, fixed, engine.ops).value && !scanned && files == [])
    {
      var p := Strip(pregex);
      for i := 0 to |replacements|
        invariant ApplyReplacements(p, replacements[i..]) == PreparePregex(pregex, replacements)
      {
        assert replacements[i..][1..] == replacements[i + 1..];
        p := Replace(p, "%(" + replacements[i].0 + ")", replacements[i].1);
      }
      assert replacements[|replacements|..] == [];
      this.pregex := p;
      err := ScanPregex();
      if err.Some? {
        return;
      }
      err := UpdateRegex();
    }

    /**
      `_scan_pregex`: the matchers of the pre-regex and its segments, with
      each matcher's slot holding its regex.
    */
    method ScanPregex() returns (err: Option<Error>)
      requires Valid()
      modifies this
      ensures Valid()
      ensures pregex == old(pregex) && fixed == old(fixed) && regex == old(regex)
      ensures files == old(files) && scanned == old(scanned)
      ensures err.None? <==> Scan(pregex, engine).Ok?
      ensures err.Some? ==> err.value == Scan(pregex, engine).error
      ensures err.None? ==> matchers == Scan(pregex, engine).value.0 && segments == Scan(pregex, engine).value.1
    {
      var ms, splits, e := FindMatchers(pregex, engine);
      matchers := ms;
      if e.Some? {
        return e;
      }
      ScanOfFound(pregex, engine, ms, splits);
      var segs;
      segs, err := RegexSlotsInto(SegmentsOf(pregex, splits), ms);
      segments := segs;
    }

    /**
      `_update_regex`: the regex of the segments with the fixed matchers
      written in. The files found with the previous regex are dropped.
    */
    method UpdateRegex() returns (err: Option<Error>)
      requires Valid()
      modifies this
      ensures Valid()
      ensures pregex == old(pregex) && matchers == old(matchers) && segments == old(segments) && fixed == old(fixed)
      ensures err.None? <==> RegexFor(useRegex, segments, matchers, fixed, engine.ops).Ok?
      ensures err.Some? ==>
        && err.value == RegexFor(useRegex, segments, matchers, fixed, engine.ops).error
        && regex == old(regex) && scanned == old(scanned) && files == old(files)
      ensures err.None? ==> regex == RegexFor(useRegex, segments, matchers, fixed, engine.ops).value && !scanned && files == []
    {
      var segs := segments;
      if !useRegex {
        for i := 0 to |segs|
          invariant |segs| == |segments|
          invariant forall j :: 0 <= j < |segs| ==> segs[j] == if j < i then EscapeOutside(segments, false)[j] else segments[j]
        {
          segs := segs[i := if i % 2 == 1 then segs[i] else Escape(segs[i])];
        }
      }
      assert segs == EscapeOutside(segments, useRegex);
      var written := WriteInto(segs, fixed, RegexSlot(matchers, engine.ops));
      if written.Err? {
        return Some(written.error);
      }
      regex := Join("", written.value);
      scanned := false;
      files := [];
      return None;
    }

    /** `_fix_matcher_no_update`: the selected matchers are fixed, the regex is not updated. */
    method FixNoUpdate(key: Key, value: FixArg, fixDiscard: bool) returns (err: Option<Error>)
      requires Valid()
      modifies this
      ensures Valid()
      ensures pregex == old(pregex) && matchers == old(matchers) && segments == old(segments)
      ensures regex == old(regex) && files == old(files) && scanned == old(scanned)
      ensures GetMatchers(matchers, key).Err? ==> err == Some(GetMatchers(matchers, key).error) && fixed == old(fixed)
      ensures GetMatchers(matchers, key).Ok? ==>
        err.None? && fixed == FixSelected(old(fixed), GetMatchers(matchers, key).value, value, fixDiscard)
    {
      var sel := GetMatchers(matchers, key);
      if sel.Err? {
        return Some(sel.error);
      }
      fixed := FixInto(fixed, sel.value, value, fixDiscard);
      return None;
    }

    /** `fix_matcher`: fix the matchers `key` selects to `value`, then update the regex. */
    method FixMatcher(key: Key, value: FixArg, fixDiscard: bool) returns (err: Option<Error>)
      requires Valid()
      modifies this
      ensures Valid()
      ensures pregex == old(pregex) && matchers == old(matchers) && segments == old(segments)
      ensures GetMatchers(matchers, key).Err? ==>
        && err == Some(GetMatchers(matchers, key).error) && fixed == old(fixed)
        && regex == old(regex) && files == old(files) && scanned == old(scanned)
      ensures GetMatchers(matchers, key).Ok? ==>
        && fixed == FixSelected(old(fixed), GetMatchers(matchers, key).value, value, fixDiscard)
        && (err.None? <==> RegexFor(useRegex, segments, matchers, fixed, engine.ops).Ok?)
        && (err.None? ==> regex == RegexFor(useRegex, segments, matchers, fixed, engine.ops).value && !scanned && files == [])
    {
      err := FixNoUpdate(key, value, fixDiscard);
      if err.Some? {
        return;
      }
      err := UpdateRegex();
    }

    /**
      `fix_matchers`: the fixes one after the other, then the regex update.
      A key that selects nothing raises; the fixes before it are kept and
      the regex is not updated.
    */
    method FixMatchers(fixes: seq<(Key, FixArg)>, fixDiscard: bool) returns (err: Option<Error>)
      requires Valid()
      modifies this
      ensures Valid()
      ensures pregex == old(pregex) && matchers == old(matchers) && segments == old(segments)
      ensures fixed == FixEach(matchers, old(fixed), fixes, fixDiscard).0
      ensures FixEach(matchers, old(fixed), fixes, fixDiscard).1.Some? ==>
        && err == FixEach(matchers, old(fixed), fixes, fixDiscard).1
        && regex == old(regex) && files == old(files) && scanned == old(scanned)
      ensures FixEach(matchers, old(fixed), fixes, fixDiscard).1.None? ==>
        && (err.None? <==> RegexFor(useRegex, segments, matchers, fixed, engine.ops).Ok?)
        && (err.None? ==> regex == RegexFor(useRegex, segments, matchers, fixed, engine.ops).value && !scanned && files == [])
    {
      for i := 0 to |fixes|
        invariant Valid()
        invariant FixEach(matchers, fixed, fixes[i..], fixDiscard) == FixEach(matchers, old(fixed), fixes, fixDiscard)
        invariant pregex == old(pregex) && matchers == old(matchers) && segments == old(segments)
        invariant regex == old(regex) && files == old(files) && scanned == old(scanned)
      {
        assert fixes[i..][1..] == fixes[i + 1..];
        err := FixNoUpdate(fixes[i].0, fixes[i].1, fixDiscard);
        if err.Some? {
          return;
        }
      }
      assert fixes[|fixes|..] == [];
      err := UpdateRegex();
    }

    /**
      `unfix_matchers`: without keys every fix goes; otherwise the matchers
      each key selects are unfixed, a key that selects nothing raising with
      the keys before it unfixed and the regex not updated.
    */
    method UnfixMatchers(keys: seq<Key>) returns (err: Option<Error>)
      requires Valid()
      modifies this
      ensures Valid()
      ensures pregex == old(pregex) && matchers == old(matchers) && segments == old(segments)
      ensures |keys| == 0 ==> fixed == NoFixes
      ensures |keys| > 0 ==> fixed == UnfixEach(matchers, old(fixed), keys).0
      ensures |keys| > 0 && UnfixEach(matchers, old(fixed), keys).1.Some? ==>
        && err == UnfixEach(matchers, old(fixed), keys).1
        && regex == old(regex) && files == old(files) && scanned == old(scanned)
      ensures |keys| == 0 || UnfixEach(matchers, old(fixed), keys).1.None? ==>
        && (err.None? <==> RegexFor(useRegex, segments, matchers, fixed, engine.ops).Ok?)
        && (err.None? ==> regex == RegexFor(useRegex, segments, matchers, fixed, engine.ops).value && !scanned && files == [])
    {
      if |keys| == 0 {
        fixed := NoFixes;
      } else {
        err := PopKeys(keys);
        if err.Some? {
          return;
        }
      }
      err := UpdateRegex();
    }

    /** The loop of `unfix_matchers` over the keys: the fixes of each key's matchers are popped. */
    method PopKeys(keys: seq<Key>) returns (err: Option<Error>)
      requires Valid()
      modifies this
      ensures Valid()
      ensures (fixed, err) == UnfixEach(matchers, old(fixed), keys)
      ensures pregex == old(pregex) && matchers == old(matchers) && segments == old(segments)
      ensures regex == old(regex) && files == old(files) && scanned == old(scanned)
    {
      ghost var goal := UnfixEach(matchers, fixed, keys);
      for i := 0 to |keys|
        invariant Valid()
        invariant UnfixEach(matchers, fixed, keys[i..]) == goal
        invariant pregex == old(pregex) && matchers == old(matchers) && segments == old(segments)
        invariant regex == old(regex) && files == old(files) && scanned == old(scanned)
      {
        assert keys[i..][1..] == keys[i + 1..];
        var sel := GetMatchers(matchers, keys[i]);
        if sel.Err? {
          return Some(sel.error);
        }
        fixed := PopInto(fixed, sel.value);
      }
      assert keys[|keys|..] == [];
      return None;
    }

    /**
      `get_matches` for a filename relative to the root: the regex must be
      set; a filename it does not match raises ValueError.
    */
    method GetMatches(filename: string) returns (r: Result<OldMatches>)
      ensures regex == "" ==> r == Err(AttributeError)
      ensures regex != "" && engine.fullmatch(regex, filename).None? ==> r == Err(ValueError)
      ensures regex != "" && engine.fullmatch(regex, filename).Some? ==>
        var caps := engine.fullmatch(regex, filename).value;
        && (|caps| != |matchers| ==> r == Err(IndexError))
        && (|caps| == |matchers| ==> r.Ok? && Matched(matchers, caps, engine.ops, r.value))
    {
      if regex == "" {
        return Err(AttributeError);
      }
      r := NewOldMatches(matchers, engine.fullmatch(regex, filename), engine.ops);
    }

    /**
      `get_filename` for a filename relative to the root: the stored fixes
      with `fixes` over them, every matcher's slot filled in.
    */
    method GetFilename(fixes: seq<(Key, FixArg)>) returns (r: Result<string>)
      requires Valid()
      ensures r == Filename(useRegex, matchers, segments, fixed, fixes, engine.ops)
    {
      if useRegex {
        return Err(ValueError);
      }
      var overlay := fixed;
      for i := 0 to |fixes|
        invariant overlay.Valid()
        invariant FixEach(matchers, overlay, fixes[i..], true) == FixEach(matchers, fixed, fixes, true)
      {
        assert fixes[i..][1..] == fixes[i + 1..];
        var sel := GetMatchers(matchers, fixes[i].0);
        if sel.Err? {
          return Err(sel.error);
        }
        overlay := FixInto(overlay, sel.value, fixes[i].1, true);
      }
      assert fixes[|fixes|..] == [];
      if SomeUnfixed(|matchers|, overlay) {
        return Err(TypeError);
      }
      var written := WriteInto(segments, overlay, FilenameSlot(matchers, engine.ops));
      assert Filename(useRegex, matchers, segments, fixed, fixes, engine.ops) == WrittenFilename(matchers, segments, overlay, engine.ops);
      if written.Err? {
        return Err(written.error);
      }
      return Ok(Join("", written.value));
    }

    /**
      The part of `find_files` after the walk: `walked` stands for the
      relative paths the walk collects, sorted. Each is kept with its
      matches when the regex matches it.
    */
    method FindFiles(walked: seq<string>) returns (err: Option<Error>)
      modifies this
      ensures pregex == old(pregex) && matchers == old(matchers) && segments == old(segments)
      ensures fixed == old(fixed) && regex == old(regex)
      ensures err.None? <==> regex != "" && forall i :: 0 <= i < |walked| ==> Fits(matchers, regex, engine, walked[i])
      ensures err.Some? ==> err.value == (if regex == "" then AttributeError else IndexError)
      ensures err.Some? ==> files == old(files) && scanned == old(scanned)
      ensures err.None? ==>
        && scanned && Names(files) == Kept(walked, regex, engine)
        && forall j :: 0 <= j < |files| ==>
             engine.fullmatch(regex, files[j].0).Some? && Matched(matchers, engine.fullmatch(regex, files[j].0).value, engine.ops, files[j].1)
    {
      if regex == "" {
        return Some(AttributeError);
      }
      var found;
      found, err := MatchWalked(walked);
      if err.None? {
        scanned := true;
        files := found;
      }
    }

    /**
      The loop of `find_files` over the walked files: a file the regex does
      not match is skipped, any other error of `get_matches` is raised.
    */
    method MatchWalked(walked: seq<string>) returns (found: seq<FileMatches>, err: Option<Error>)
      requires regex != ""
      ensures err.None? <==> forall i :: 0 <= i < |walked| ==> Fits(matchers, regex, engine, walked[i])
      ensures err.Some? ==> err.value == IndexError
      ensures err.None? ==>
        && Names(found) == Kept(walked, regex, engine)
        && forall j :: 0 <= j < |found| ==>
             engine.fullmatch(regex, found[j].0).Some? && Matched(matchers, engine.fullmatch(regex, found[j].0).value, engine.ops, found[j].1)
    {
      found := [];
      for i := 0 to |walked|
        invariant Names(found) == Kept(walked[..i], regex, engine)
        invariant forall j :: 0 <= j < i ==> Fits(matchers, regex, engine, walked[j])
        invariant AllMatched(found, matchers, regex, engine)
      {
        var found', stop := MatchOne(walked, i, found);
        if stop.Some? {
          return found, stop;
        }
        found := found';
      }
      assert walked[..|walked|] == walked;
      return found, None;
    }

    /** One turn of the loop of `find_files`: the `i`-th walked file is kept, skipped, or raises. */
    method MatchOne(walked: seq<string>, i: nat, found: seq<FileMatches>) returns (found': seq<FileMatches>, err: Option<Error>)
      requires regex != "" && i < |walked|
      requires Names(found) == Kept(walked[..i], regex, engine) && AllMatched(found, matchers, regex, engine)
      ensures err.None? <==> Fits(matchers, regex, engine, walked[i])
      ensures err.Some? ==> err.value == IndexError
      ensures err.None? ==> Names(found') == Kept(walked[..i + 1], regex, engine) && AllMatched(found', matchers, regex, engine)
    {
      KeptStep(walked, i, regex, engine);
      var m := GetMatches(walked[i]);
      if m.Err? {
        if m.error == ValueError {
          return found, None;
        }
        return found, Some(m.error);
      }
      NamesSnoc(found, (walked[i], m.value));
      AllMatchedSnoc(found, (walked[i], m.value), matchers, regex, engine);
      return found + [(walked[i], m.value)], None;
    }

    /**
      `get_files` for paths relative to the root: the files (found with
      `walked` when not scanned yet), flat or nested by the groups of
      `nested`; a level that is no matcher's group raises KeyError.
    */
    method GetFiles(nested: Option<seq<Option<string>>>, walked: seq<string>) returns (r: Result<Nested>)
      modifies this
      ensures pregex == old(pregex) && matchers == old(matchers) && segments == old(segments)
      ensures fixed == old(fixed) && regex == old(regex)
      ensures old(scanned) ==> files == old(files) && scanned
      // an unscanned finder first finds its files among the walked ones
      ensures !old(scanned) ==>
        (scanned <==> regex != "" && forall i :: 0 <= i < |walked| ==> Fits(matchers, regex, engine, walked[i]))
      ensures !old(scanned) && scanned ==>
        && Names(files) == Kept(walked, regex, engine)
        && forall j :: 0 <= j < |files| ==>
             engine.fullmatch(regex, files[j].0).Some? && Matched(matchers, engine.fullmatch(regex, files[j].0).value, engine.ops, files[j].1)
      ensures !scanned ==> files == old(files) && r == Err(if regex == "" then AttributeError else IndexError)
      ensures r.Ok? ==> scanned
      ensures r.Ok? && nested.None? ==> r.value == Leaf(Names(files))
      ensures r.Ok? && nested.Some? ==> r.value == Nest(files, nested.value)
      ensures scanned && nested.Some? ==>
        (r.Ok? <==> forall i :: 0 <= i < |nested.value| ==> nested.value[i] in GroupsOf(matchers))
      ensures scanned && r.Err? && nested.Some? ==> r.error == KeyError
    {
      if !scanned {
        var err := FindFiles(walked);
        if err.Some? {
          return Err(err.value);
        }
      }
      if nested.None? {
        return Ok(Leaf(Names(files)));
      }
      var ms := matchers;
      var groups := GroupsOf(ms);
      for i := 0 to |nested.value|
        invariant forall k :: 0 <= k < i ==> nested.value[k] in groups
      {
        if nested.value[i] !in groups {
          return Err(KeyError);
        }
      }
      var t := NestFiles(files, nested.value);
      return Ok(t);
    }
  }
}
