/**
  `matcher.py`: the older generation of group handling, still used by the
  finder and the date library. A `Matcher` is built once from the text of a
  `%(...)` span and never changed afterwards; old-style `Match` objects parse
  eagerly, and `Matches` selects them by index, name or `group:name`.
*/
module Matchers {
  import opened Common
  import opened Strings
  import opened Util
  import Format

  /**
    The format object `Format(spec)` a matcher builds (`Format` is the
    alias of `get_format`), keyed by the format string: the error building
    it raises (None when it builds), its regex generation, its parser (None
    when parsing fails or gives None) and its rendering of a value. The
    first two are those of the format module exactly when
    `FollowsGetFormat` holds.
  */
  datatype FormatOps = FormatOps(
    construct: string -> Option<Error>,
    generate: string -> Result<string>,
    parse: (string, string) -> Option<Value>,
    render: (string, Value) -> string)

  /**
    The named groups of the fullmatch of a matcher string against
    `Matcher.REGEX` (None for a group that did not participate).
  */
  datatype MatcherFields = MatcherFields(
    group: Option<string>,
    name: Option<string>,
    fmt: Option<string>,
    opt: Option<string>,
    optA: Option<string>,
    optB: Option<string>,
    rgx: Option<string>,
    discard: Option<string>)

  /** The `opt` attribute: unset, `True`, or the pair of literals. */
  datatype Opt = NoOpt | OptTrue | OptPair(a: string, b: string)

  datatype Matcher = Matcher(
    idx: int,
    group: Option<string>,
    name: string,
    rgx: string,
    discard: bool,
    fmt: Option<string>,
    opt: Opt,
    source: string)

  /** `Matcher.DEFAULT_ELTS`: default regex and default format per element name. */
  const DefaultElts: map<string, (string, string)> := map[
    "I" := (@"\d+", "d"),
    "Y" := (@"\d{4}", "04d"),
    "m" := (@"\d\d", "02d"),
    "d" := (@"\d\d", "02d"),
    "j" := (@"\d{3}", "03d"),
    "H" := (@"\d\d", "02d"),
    "M" := (@"\d\d", "02d"),
    "S" := (@"\d\d", "02d"),
    "x" := ("%Y%m%d", "08d"),
    "X" := ("%H%M%S", "06d"),
    "F" := ("%Y-%m-%d", "s"),
    "B" := ("[a-zA-Z]*", "s"),
    "text" := (@"\w", "s"),
    "char" := (@"\S*", "s")
  ]

  /**
    The error `Format(spec)` raises, None when it builds: `Format` is the
    alias of `get_format`.
  */
  function BuildError(spec: string): (r: Option<Error>)
    ensures r.None? <==> Format.FormatOf(spec).Ok?
    ensures r.Some? ==> r.value == Format.FormatOf(spec).error
  {
    match Format.FormatOf(spec)
    case Ok(_) => None
    case Err(e) => Some(e)
  }

  /** `Format(spec).generate_expression()`: building may raise, then generating. */
  function Generate(spec: string): (r: Result<string>)
    ensures Format.FormatOf(spec).Err? ==> r == Err(Format.FormatOf(spec).error)
    ensures Format.FormatOf(spec).Ok? ==> r == Format.GenerateExpression(Format.FormatOf(spec).value)
  {
    var f :- Format.FormatOf(spec);
    Format.GenerateExpression(f)
  }

  /** `construct` and `generate` are those of `get_format` and its `generate_expression`. */
  ghost predicate FollowsGetFormat(ops: FormatOps) {
    forall spec :: ops.construct(spec) == BuildError(spec) && ops.generate(spec) == Generate(spec)
  }

  /** The format operations of the format module, with a given parser and rendering. */
  function GetFormatOps(parse: (string, string) -> Option<Value>, render: (string, Value) -> string): (ops: FormatOps)
    ensures FollowsGetFormat(ops) && ops.parse == parse && ops.render == render
  {
    FormatOps(BuildError, Generate, parse, render)
  }

  /**
    The regex a matcher has before `:opt` and `:rgx=` are looked at: the one
    generated from an explicit format when no regex is given, else the
    name's default; generating it may raise.
  */
  function SeedRegex(f: MatcherFields, name: string, ops: FormatOps): Result<Option<string>> {
    if f.fmt.Some? && f.rgx.None? then
      var g :- ops.generate(f.fmt.value);
      Ok(Some(g))
    else if name in DefaultElts then Ok(Some(DefaultElts[name].0))
    else Ok(None)
  }

  /**
    The error building the formats raises: first the name's default format,
    then the explicit one.
  */
  function FormatError(f: MatcherFields, name: string, ops: FormatOps): Option<Error> {
    if name in DefaultElts && ops.construct(DefaultElts[name].1).Some? then ops.construct(DefaultElts[name].1)
    else if f.fmt.Some? then ops.construct(f.fmt.value)
    else None
  }

  /**
    `Matcher(matcher, idx)`: `set_matcher` given the fullmatch of the
    matcher string against `REGEX` (None when it does not match).
  */
  function NewMatcher(matcher: string, idx: int, m: Option<MatcherFields>, ops: FormatOps): (r: Result<Matcher>)
    ensures m.None? ==> r == Err(InvalidMatcher)
    ensures m.Some? && m.value.name.None? ==> r == Err(NameError)
    ensures m.Some? && m.value.name.Some? && (m.value.rgx == Some("") || m.value.fmt == Some("")) ==> r == Err(ValueError)
    ensures r.Ok? ==>
      var f := m.value;
      && r.value.idx == idx && r.value.source == matcher && r.value.group == f.group
      && Some(r.value.name) == f.name && r.value.discard == f.discard.Some?
      // the format: an explicit one, else the default of a known name
      && (f.fmt.Some? ==> r.value.fmt == f.fmt)
      && (f.fmt.None? ==> r.value.fmt == (if r.value.name in DefaultElts then Some(DefaultElts[r.value.name].1) else None))
      // `:opt=A:B` keeps the order (A, B); a bare `:opt` means True
      && (f.opt.None? <==> r.value.opt == NoOpt)
      && (f.opt.Some? && (f.optA.Some? || f.optB.Some?) ==>
            r.value.opt == OptPair(f.optA.GetOr(""), f.optB.GetOr("")))
      && (f.opt.Some? && f.optA.None? && f.optB.None? ==> r.value.opt == OptTrue)
      // every format it names was built
      && FormatError(f, r.value.name, ops).None?
      // an explicit regex wins over everything
      && (f.rgx.Some? ==> r.value.rgx == f.rgx.value)
      && (f.rgx.None? && r.value.opt.OptPair? ==> r.value.rgx == r.value.opt.a + "|" + r.value.opt.b)
      // otherwise the regex generated from an explicit format, else the name's default
      && (f.rgx.None? && !r.value.opt.OptPair? && f.fmt.Some? ==> ops.generate(f.fmt.value) == Ok(r.value.rgx))
      && (f.rgx.None? && !r.value.opt.OptPair? && f.fmt.None? ==>
            r.value.name in DefaultElts && r.value.rgx == DefaultElts[r.value.name].0)
    // building a format raises before any regex is looked at
    ensures m.Some? && m.value.name.Some? && m.value.rgx != Some("") && m.value.fmt != Some("")
      && FormatError(m.value, m.value.name.value, ops).Some?
      ==> r == Err(FormatError(m.value, m.value.name.value, ops).value)
    ensures m.Some? && m.value.name.Some? && m.value.rgx.None? && m.value.fmt.Some? && m.value.fmt != Some("")
      && FormatError(m.value, m.value.name.value, ops).None? && ops.generate(m.value.fmt.value).Err?
      ==> r == Err(ops.generate(m.value.fmt.value).error)
    ensures m.Some? && r.Err? && r.error == KeyError ==>
      (m.value.name.Some? && FormatError(m.value, m.value.name.value, ops) == Some(KeyError))
      || (m.value.fmt.Some? && ops.generate(m.value.fmt.value) == Err(KeyError))
      || (m.value.rgx.None? && m.value.fmt.None? && m.value.name.Some? && m.value.name.value !in DefaultElts
          && !(m.value.opt.Some? && (m.value.optA.Some? || m.value.optB.Some?)))
    ensures m.Some? && m.value.name.Some? && m.value.rgx.None? && m.value.fmt.None?
      && m.value.name.value !in DefaultElts && (m.value.opt.None? || m.value.optA == m.value.optB == None)
      ==> r == Err(KeyError)
  {
    if m.None? then Err(InvalidMatcher)
    else
      var f := m.value;
      if f.name.None? then Err(NameError)
      else if f.rgx == Some("") then Err(ValueError)
      else if f.fmt == Some("") then Err(ValueError)
      else
        var name := f.name.value;
        var fmt := if f.fmt.Some? then f.fmt else if name in DefaultElts then Some(DefaultElts[name].1) else None;
        var built := FormatError(f, name, ops);
        if built.Some? then Err(built.value)
        else
          var seeded :- SeedRegex(f, name, ops);
          var opt :=
            if f.opt.None? then NoOpt
            else if f.optA.Some? || f.optB.Some? then OptPair(f.optA.GetOr(""), f.optB.GetOr(""))
            else OptTrue;
          var optioned := if opt.OptPair? then Some(opt.a + "|" + opt.b) else seeded;
          var rgx := if f.rgx.Some? then f.rgx else optioned;
          if rgx.None? then Err(KeyError)
          else Ok(Matcher(idx, f.group, name, rgx.value, f.discard.Some?, fmt, opt, matcher))
  }

  /** `0Nd` for a single non-zero digit N builds: a zero-padded integer format. */
  lemma ZeroPaddedIntegerBuilds(w: char)
    requires '1' <= w <= '9'
    ensures Format.FormatOf(['0', w, 'd']).Ok?
  {
    var m := Format.SpecMatch(None, None, None, false, false, true, Some([w]), None, None, 'd');
    assert Format.Render(m) == ['0', w, 'd'];
    Format.FormatOfRendered(m);
  }

  /** Every default format of `DEFAULT_ELTS` builds and generates a regex. */
  lemma DefaultFormatBuilds(name: string)
    requires name in DefaultElts
    ensures Format.FormatOf(DefaultElts[name].1).Ok?
    ensures Generate(DefaultElts[name].1).Ok?
  {
    var spec := DefaultElts[name].1;
    assert spec in {"d", "04d", "02d", "03d", "08d", "06d", "s"};
    if spec == "d" || spec == "s" {
      var m := Format.SpecMatch(None, None, None, false, false, false, None, None, None, spec[0]);
      assert Format.Render(m) == spec;
      Format.FormatOfRendered(m);
    } else {
      ZeroPaddedIntegerBuilds(spec[1]);
      assert spec == ['0', spec[1], 'd'];
    }
    Format.GenerateExpressionTotal(spec);
  }

  /**
    A known name without `:fmt=`, `:rgx=` or `:opt` always gives a matcher,
    with the name's default regex and default format.
  */
  lemma DefaultMatcher(matcher: string, idx: int, f: MatcherFields, name: string, ops: FormatOps)
    requires FollowsGetFormat(ops)
    requires f.name == Some(name) && name in DefaultElts
    requires f.fmt.None? && f.rgx.None? && f.opt.None?
    ensures NewMatcher(matcher, idx, Some(f), ops)
      == Ok(Matcher(idx, f.group, name, DefaultElts[name].0, f.discard.Some?, Some(DefaultElts[name].1), NoOpt, matcher))
  {
    DefaultFormatBuilds(name);
    assert FormatError(f, name, ops).None?;
    assert SeedRegex(f, name, ops) == Ok(Some(DefaultElts[name].0));
  }

  /** `%(Y)` is a matcher for four digits. */
  lemma YearMatcher(f: MatcherFields, ops: FormatOps)
    requires FollowsGetFormat(ops)
    requires f == MatcherFields(None, Some("Y"), None, None, None, None, None, None)
    ensures NewMatcher("Y", 0, Some(f), ops) == Ok(Matcher(0, None, "Y", @"\d{4}", false, Some("04d"), NoOpt, "Y"))
  {
    assert DefaultElts["Y"] == (@"\d{4}", "04d");
    DefaultMatcher("Y", 0, f, "Y", ops);
  }

  /** An explicit format that does not build makes the matcher raise its error. */
  lemma ExplicitFormatFails(matcher: string, idx: int, f: MatcherFields, ops: FormatOps)
    requires FollowsGetFormat(ops)
    requires f.name.Some? && f.rgx != Some("")
    requires f.fmt.Some? && f.fmt.value != "" && Format.FormatOf(f.fmt.value).Err?
    ensures NewMatcher(matcher, idx, Some(f), ops) == Err(Format.FormatOf(f.fmt.value).error)
  {
    if f.name.value in DefaultElts {
      DefaultFormatBuilds(f.name.value);
    }
  }

  /** `:fmt=q` names a type without a Format class: KeyError, whatever the name. */
  lemma UnknownTypeMatcher(matcher: string, idx: int, f: MatcherFields, ops: FormatOps)
    requires FollowsGetFormat(ops)
    requires f.name.Some? && f.rgx != Some("") && f.fmt == Some("q")
    ensures NewMatcher(matcher, idx, Some(f), ops) == Err(KeyError)
  {
    Format.UnknownTypeFormat("q");
    ExplicitFormatFails(matcher, idx, f, ops);
  }

  /**
    An explicit format that builds always generates a regex, and without
    `:rgx=` or `:opt=A:B` that regex is the matcher's.
  */
  lemma ExplicitFormatRegex(matcher: string, idx: int, f: MatcherFields, ops: FormatOps)
    requires FollowsGetFormat(ops)
    requires f.name.Some? && f.rgx.None?
    requires f.fmt.Some? && f.fmt.value != "" && Format.FormatOf(f.fmt.value).Ok?
    requires f.opt.None? || (f.optA.None? && f.optB.None?)
    ensures NewMatcher(matcher, idx, Some(f), ops).Ok?
    ensures Format.GenerateExpression(Format.FormatOf(f.fmt.value).value) == Ok(NewMatcher(matcher, idx, Some(f), ops).value.rgx)
  {
    if f.name.value in DefaultElts {
      DefaultFormatBuilds(f.name.value);
    }
    Format.GenerateExpressionTotal(f.fmt.value);
  }

  /** `%(x:fmt=05.3f)` matches a zero-padded float with three decimals. */
  lemma ZeroPaddedFloatMatcher(matcher: string, idx: int, f: MatcherFields, ops: FormatOps)
    requires FollowsGetFormat(ops)
    requires f.name.Some? && f.rgx.None? && f.opt.None? && f.fmt == Some("05.3f")
    ensures NewMatcher(matcher, idx, Some(f), ops).Ok?
    ensures NewMatcher(matcher, idx, Some(f), ops).value.rgx == @"-?0*\d+\.\d{3}"
  {
    Format.ZeroPaddedFloatFormat("05.3f");
    Format.ZeroPaddedFloatRegex();
    ExplicitFormatRegex(matcher, idx, f, ops);
  }

  // ---------------------------------------------------------------------
  // get_regex

  /**
    The replacement of one `%c` in `Matcher.get_regex`: `%%` is a percent
    sign, a known single letter its default regex. A default that itself
    holds `%` (x, X and F) is passed back to `self.get_regex`, which takes no
    argument: a TypeError.
  */
  function Replacement(c: char): (r: Result<string>)
    ensures c == '%' ==> r == Ok("%")
    ensures c != '%' && [c] !in DefaultElts ==> r == Err(KeyError)
    ensures r.Ok? ==> '%' !in r.value || c == '%'
    ensures c == 'x' || c == 'X' || c == 'F' ==> r == Err(TypeError)
  {
    if c == '%' then Ok("%")
    else if [c] in DefaultElts then
      var rep := DefaultElts[[c]].0;
      if '%' in rep then Err(TypeError) else Ok(rep)
    else Err(KeyError)
  }

  /** `re.sub("%([a-zA-Z%])", replace, s)`: left to right, the first failure wins. */
  function Substitute(s: string): (r: Result<string>)
    ensures r.Err? ==> r.error == KeyError || r.error == TypeError
  {
    if |s| == 0 then Ok("")
    else if s[0] == '%' && |s| >= 2 && (IsLetter(s[1]) || s[1] == '%') then
      var head :- Replacement(s[1]);
      var tail :- Substitute(s[2..]);
      Ok(head + tail)
    else
      var tail :- Substitute(s[1..]);
      Ok([s[0]] + tail)
  }

  /** A regex without `%` goes through unchanged. */
  lemma {:induction false} SubstituteWithoutPercent(s: string)
    requires '%' !in s
    ensures Substitute(s) == Ok(s)
  {
    if |s| > 0 {
      SubstituteWithoutPercent(s[1..]);
      assert [s[0]] + s[1..] == s;
    }
  }

  /** A literal `%` written `%%` comes back as itself. */
  lemma {:induction false} SubstituteEscapedPercent(s: string)
    ensures Substitute(EscapePercent(s)) == Ok(s)
  {
    if |s| > 0 {
      SubstituteEscapedPercent(s[1..]);
      var e := EscapePercent(s);
      if s[0] == '%' {
        assert e == "%%" + EscapePercent(s[1..]);
        assert e[2..] == EscapePercent(s[1..]);
      } else {
        assert e == [s[0]] + EscapePercent(s[1..]);
        assert e[1..] == EscapePercent(s[1..]);
      }
      assert [s[0]] + s[1..] == s;
    }
  }

  /** A custom regex referring to `%x`, `%X` or `%F` cannot be expanded: TypeError. */
  lemma {:induction false} CompositeReferenceFails(prefix: string, c: char, rest: string)
    requires '%' !in prefix
    requires c == 'x' || c == 'X' || c == 'F'
    ensures Substitute(prefix + ['%', c] + rest) == Err(TypeError)
  {
    if |prefix| == 0 {
      var s := ['%', c] + rest;
      assert s[2..] == rest;
    } else {
      CompositeReferenceFails(prefix[1..], c, rest);
      assert (prefix + ['%', c] + rest)[1..] == prefix[1..] + ['%', c] + rest;
    }
  }

  /**
    `Matcher.get_regex`: the expanded regex in a capturing group, made
    optional only when `opt` is True (not for a pair of literals).
  */
  function GetRegex(m: Matcher): (r: Result<string>)
    ensures r.Err? <==> Substitute(m.rgx).Err?
    ensures r.Ok? ==>
      && |r.value| >= 2 && r.value[0] == '('
      && (r.value[|r.value| - 1] == '?' <==> m.opt == OptTrue)
      && r.value[|r.value| - 1 - (if m.opt == OptTrue then 1 else 0)] == ')'
      && r.value[1..|r.value| - 1 - (if m.opt == OptTrue then 1 else 0)] == Substitute(m.rgx).value
  {
    var rgx :- Substitute(m.rgx);
    Ok("(" + rgx + ")" + (if m.opt == OptTrue then "?" else ""))
  }

  // ---------------------------------------------------------------------
  // Old Match and Matches

  /** An old-style match: parsed eagerly when the matcher has a format. */
  datatype OldMatch = OldMatch(matcher: Matcher, matchStr: string, start: int, end: int, parsed: Option<Value>)

  /** `Match(matcher, match, i)` for the capture of group `i`. */
  function NewOldMatch(matcher: Matcher, cap: Capture, ops: FormatOps): (r: OldMatch)
    ensures r.matcher == matcher && r.matchStr == cap.text && r.start == cap.start && r.end == cap.end
    ensures matcher.fmt.None? ==> r.parsed.None?
    ensures matcher.fmt.Some? ==> r.parsed == ops.parse(matcher.fmt.value, cap.text)
  {
    OldMatch(matcher, cap.text, cap.start, cap.end,
      if matcher.fmt.Some? then ops.parse(matcher.fmt.value, cap.text) else None)
  }

  /** Old `Match.get_match`: the parsed value when asked for and present, else the matched string. */
  function GetMatch(m: OldMatch, parsed: bool): (r: Value)
    ensures r != Str(m.matchStr) ==> parsed && m.parsed == Some(r)
    ensures parsed && m.parsed.Some? ==> r == m.parsed.value
    ensures !parsed ==> r == Str(m.matchStr)
  {
    if parsed && m.parsed.Some? then m.parsed.value else Str(m.matchStr)
  }

  datatype OldMatches = OldMatches(matches: seq<OldMatch>, matchers: seq<Matcher>)

  /**
    The old `Matches(matchers, filename, pattern)` given the fullmatch of the
    filename (None when it does not match): ValueError for no match,
    IndexError when the counts differ, else one eagerly parsed match per
    matcher.
  */
  method NewOldMatches(matchers: seq<Matcher>, captures: Option<seq<Capture>>, ops: FormatOps)
    returns (r: Result<OldMatches>)
    ensures captures.None? ==> r == Err(ValueError)
    ensures captures.Some? && |captures.value| != |matchers| ==> r == Err(IndexError)
    ensures captures.Some? && |captures.value| == |matchers| ==>
      && r.Ok? && r.value.matchers == matchers && |r.value.matches| == |matchers|
      && forall i :: 0 <= i < |matchers| ==> r.value.matches[i] == NewOldMatch(matchers[i], captures.value[i], ops)
  {
    if captures.None? {
      return Err(ValueError);
    }
    var caps := captures.value;
    if |caps| != |matchers| {
      return Err(IndexError);
    }
    var matches: seq<OldMatch> := [];
    for i := 0 to |matchers|
      invariant |matches| == i
      invariant forall j :: 0 <= j < i ==> matches[j] == NewOldMatch(matchers[j], caps[j], ops)
    {
      matches := matches + [NewOldMatch(matchers[i], caps[i], ops)];
    }
    return Ok(OldMatches(matches, matchers));
  }

  // ---------------------------------------------------------------------
  // get_matchers_indices

  /**
    A key `name` or `group:name`, split on `:`: the group is the text before
    the first `:`, the name the text up to the next one (the rest is ignored).
  */
  function KeyParts(key: string): (r: (string, Option<string>))
    ensures ':' !in key ==> r == (key, None)
    ensures ':' in key ==>
      var i := FirstIndex(key, ':');
      r == (SplitAll(key[i + 1..], ':')[0], Some(key[..i]))
  {
    if ':' in key then
      var i := FirstIndex(key, ':');
      assert key == key[..i] + [':'] + key[i + 1..];
      SplitAfterPart(key[..i], ':', key[i + 1..]);
      var k := SplitAll(key, ':');
      (k[1], Some(k[0]))
    else
      SplitNoSeparator(key, ':');
      (key, None)
  }

  /** Whether a matcher answers to a name and, when given, a group. */
  predicate Answers(m: Matcher, name: string, group: Option<string>) {
    m.name == name && (group.None? || group == m.group)
  }

  /** The indices, in order, of the matchers answering to `name` (and `group`). */
  function AnsweringIndices(matchers: seq<Matcher>, name: string, group: Option<string>): (r: seq<int>)
    ensures StrictlyIncreasing(r)
    ensures forall k :: k in r <==> 0 <= k < |matchers| && Answers(matchers[k], name, group)
  {
    if |matchers| == 0 then []
    else
      var front := AnsweringIndices(matchers[..|matchers| - 1], name, group);
      assert forall k :: 0 <= k < |matchers| - 1 ==> matchers[..|matchers| - 1][k] == matchers[k];
      assert forall i :: 0 <= i < |front| ==> front[i] in front;
      if Answers(matchers[|matchers| - 1], name, group) then front + [|matchers| - 1] else front
  }

  /** `get_matchers_indices`, as a value. */
  function MatchersIndices(matchers: seq<Matcher>, key: Key): (r: Result<seq<int>>)
    ensures key.IntKey? ==> r == Ok([key.i])
    ensures key.OtherKey? ==> r == Err(TypeError)
    ensures key.StrKey? ==>
      var (name, group) := KeyParts(key.s);
      && (r.Err? <==> forall k :: 0 <= k < |matchers| ==> !Answers(matchers[k], name, group))
      && (r.Err? ==> r.error == IndexError)
      && (r.Ok? ==> r.value == AnsweringIndices(matchers, name, group))
  {
    match key
    case IntKey(i) => Ok([i])
    case StrKey(s) =>
      var (name, group) := KeyParts(s);
      var selected := AnsweringIndices(matchers, name, group);
      if |selected| == 0 then Err(IndexError)
      else
        assert selected[0] in selected;
        Ok(selected)
    case OtherKey => Err(TypeError)
  }

  /** `get_matchers_indices`: the loop appending each answering index. */
  method GetMatchersIndices(matchers: seq<Matcher>, key: Key) returns (r: Result<seq<int>>)
    ensures r == MatchersIndices(matchers, key)
  {
    match key {
      case IntKey(i) =>
        return Ok([i]);
      case StrKey(s) =>
        var (name, group) := KeyParts(s);
        var selected: seq<int> := [];
        for i := 0 to |matchers|
          invariant selected == AnsweringIndices(matchers[..i], name, group)
        {
          assert matchers[..i + 1][..i] == matchers[..i];
          if Answers(matchers[i], name, group) {
            selected := selected + [i];
          }
        }
        assert matchers[..|matchers|] == matchers;
        if |selected| == 0 {
          return Err(IndexError);
        }
        return Ok(selected);
      case OtherKey =>
        return Err(TypeError);
    }
  }

  /** A `group:name` key selects exactly the matchers with that group and that name. */
  lemma {:induction false} GroupNameKey(matchers: seq<Matcher>, group: string, name: string)
    requires ':' !in group && ':' !in name
    requires exists k :: 0 <= k < |matchers| && matchers[k].name == name && matchers[k].group == Some(group)
    ensures MatchersIndices(matchers, StrKey(group + ":" + name)).Ok?
    ensures forall k :: k in MatchersIndices(matchers, StrKey(group + ":" + name)).value <==>
      0 <= k < |matchers| && matchers[k].name == name && matchers[k].group == Some(group)
  {
    var key := group + ":" + name;
    assert key[..|group|] == group && key[|group|] == ':';
    FirstIndexAfter(group, ':', name);
    assert key[|group| + 1..] == name;
    SplitNoSeparator(name, ':');
  }

  /** What `Matches.get_matches` returns: the one match itself, or the list. */
  datatype OneOrMany<T> = Single(item: T) | List(items: seq<T>)

  /** Old `Matches.get_matches` (and `matches[key]`). */
  function GetMatches(ms: OldMatches, key: Key): (r: Result<OneOrMany<OldMatch>>)
    ensures MatchersIndices(ms.matchers, key).Err? ==> r == Err(MatchersIndices(ms.matchers, key).error)
    ensures MatchersIndices(ms.matchers, key).Ok? ==>
      var picked := PickAll(ms.matches, MatchersIndices(ms.matchers, key).value);
      && (r.Err? <==> picked.Err?)
      && (r.Ok? && |picked.value| == 1 ==> r.value == Single(picked.value[0]))
      && (r.Ok? && |picked.value| != 1 ==> r.value == List(picked.value))
  {
    var selected :- MatchersIndices(ms.matchers, key);
    var matches :- PickAll(ms.matches, selected);
    if |matches| == 1 then Ok(Single(matches[0])) else Ok(List(matches))
  }
}
