/**
  Format specifications (`format.py`): parsing a spec of the Python format
  mini-language `[[fill]align][sign][z][#][0][width][grouping][.precision]type`,
  resolving it into a `Format` record with its defaults, and building from
  that record a regular expression matching the strings the spec produces.
*/
module Format {
  import opened Common
  import opened Strings

  predicate IsAlign(c: char) { c == '<' || c == '>' || c == '=' || c == '^' }

  predicate IsSign(c: char) { c == '-' || c == '+' || c == ' ' }

  predicate IsGrouping(c: char) { c == ',' || c == '_' }

  // ---------------------------------------------------------------------
  // The grammar FORMAT_REGEX

  /**
    The groups FORMAT_REGEX captures; `None` is a group that did not take
    part in the match. `precision` holds the digits after the '.'.
  */
  datatype SpecMatch = SpecMatch(
    fill: Option<char>,
    align: Option<char>,
    sign: Option<char>,
    z: bool,
    alternate: bool,
    zero: bool,
    width: Option<string>,
    grouping: Option<char>,
    precision: Option<string>,
    typ: char)

  function OptChar(c: Option<char>): string {
    if c.Some? then [c.value] else []
  }

  function Flag(b: bool, c: char): string {
    if b then [c] else []
  }

  /**
    The first character of the text spanned from part `k` of the grammar
    on (1 = sign, 2 = z, 3 = '#', 4 = '0', 5 = width, 6 = grouping,
    7 = precision, 8 = type).
  */
  function HeadFrom(m: SpecMatch, k: nat): char {
    if k <= 1 && m.sign.Some? then m.sign.value
    else if k <= 2 && m.z then 'z'
    else if k <= 3 && m.alternate then '#'
    else if k <= 4 && m.zero then '0'
    else if k <= 5 && m.width.Some? && |m.width.value| > 0 then m.width.value[0]
    else if k <= 6 && m.grouping.Some? then m.grouping.value
    else if k <= 7 && m.precision.Some? then '.'
    else m.typ
  }

  // The text each part of the grammar spans, from a given part to the end.

  function RenderPrecision(m: SpecMatch): (r: string)
    ensures |r| >= 1 && r[0] == HeadFrom(m, 7)
  {
    (if m.precision.Some? then "." + m.precision.value else "") + [m.typ]
  }

  function RenderGrouping(m: SpecMatch): (r: string)
    ensures |r| >= 1 && r[0] == HeadFrom(m, 6)
  {
    OptChar(m.grouping) + RenderPrecision(m)
  }

  function RenderWidth(m: SpecMatch): (r: string)
    ensures |r| >= 1 && r[0] == HeadFrom(m, 5)
  {
    m.width.GetOr("") + RenderGrouping(m)
  }

  function RenderZero(m: SpecMatch): (r: string)
    ensures |r| >= 1 && r[0] == HeadFrom(m, 4)
  {
    Flag(m.zero, '0') + RenderWidth(m)
  }

  function RenderAlternate(m: SpecMatch): (r: string)
    ensures |r| >= 1 && r[0] == HeadFrom(m, 3)
  {
    Flag(m.alternate, '#') + RenderZero(m)
  }

  function RenderZ(m: SpecMatch): (r: string)
    ensures |r| >= 1 && r[0] == HeadFrom(m, 2)
  {
    Flag(m.z, 'z') + RenderAlternate(m)
  }

  function RenderSign(m: SpecMatch): (r: string)
    ensures |r| >= 1 && r[0] == HeadFrom(m, 1)
  {
    OptChar(m.sign) + RenderZ(m)
  }

  /** The spec string whose match against FORMAT_REGEX captures `m`. */
  function Render(m: SpecMatch): string {
    OptChar(m.fill) + OptChar(m.align) + RenderSign(m)
  }

  /**
    The conditions on the groups from the sign onwards (part `k` = 1) or
    from a later part on: each group holds what its sub-pattern admits, the
    type is one letter, and a width may start with '0' only when the zero
    flag is set (otherwise that '0' is the zero flag).
  */
  predicate WellFormedFrom(m: SpecMatch, k: nat) {
    && (k <= 1 ==> (m.sign.Some? ==> IsSign(m.sign.value)))
    && (k <= 4 ==> (m.width.Some? && |m.width.value| > 0 && !m.zero ==> m.width.value[0] != '0'))
    && (k <= 5 ==> (m.width.Some? ==> |m.width.value| > 0 && IsDigits(m.width.value)))
    && (k <= 6 ==> (m.grouping.Some? ==> IsGrouping(m.grouping.value)))
    && (k <= 7 ==> (m.precision.Some? ==> |m.precision.value| > 0 && IsDigits(m.precision.value)))
    && IsLetter(m.typ)
  }

  /** The captures of a match of FORMAT_REGEX: a fill needs an align and is not a newline. */
  predicate WellFormed(m: SpecMatch) {
    && (m.fill.Some? ==> m.align.Some? && m.fill.value != '\n')
    && (m.align.Some? ==> IsAlign(m.align.value))
    && WellFormedFrom(m, 1)
  }

  /** `a` and `b` agree on every group before part `k`. */
  predicate AgreeBefore(a: SpecMatch, b: SpecMatch, k: nat) {
    && (k >= 1 ==> a.fill == b.fill && a.align == b.align)
    && (k >= 2 ==> a.sign == b.sign)
    && (k >= 3 ==> a.z == b.z)
    && (k >= 4 ==> a.alternate == b.alternate)
    && (k >= 5 ==> a.zero == b.zero)
    && (k >= 6 ==> a.width == b.width)
    && (k >= 7 ==> a.grouping == b.grouping)
    && (k >= 8 ==> a.precision == b.precision)
  }

  /** The length of the longest prefix of `t` made of digits. */
  function DigitRun(t: string): (n: nat)
    ensures n <= |t| && IsDigits(t[..n])
    ensures n < |t| ==> !IsDigit(t[n])
  {
    if |t| > 0 && IsDigit(t[0]) then
      var n := 1 + DigitRun(t[1..]);
      assert t[..n] == [t[0]] + t[1..][..n - 1];
      n
    else 0
  }

  lemma {:induction false} DigitRunOf(d: string, rest: string)
    requires IsDigits(d)
    requires rest == [] || !IsDigit(rest[0])
    ensures DigitRun(d + rest) == |d|
  {
    if |d| > 0 {
      assert (d + rest)[1..] == d[1..] + rest;
      DigitRunOf(d[1..], rest);
    }
  }

  // The deterministic reading of FORMAT_REGEX, one part at a time. Each
  // optional part is taken whenever its character is there, except 'z',
  // which is left for the type letter when nothing follows it; width and
  // precision take every digit, since nothing after them starts with one.

  function ParseType(m: SpecMatch, t: string): Option<SpecMatch> {
    if |t| == 1 && IsLetter(t[0]) then Some(m.(typ := t[0])) else None
  }

  function ParsePrecision(m: SpecMatch, t: string): Option<SpecMatch> {
    var dot := |t| > 0 && t[0] == '.';
    var n := if dot then DigitRun(t[1..]) else 0;
    if dot && n == 0 then None
    else ParseType(m.(precision := if dot then Some(t[1..1 + n]) else None), if dot then t[1 + n..] else t)
  }

  function ParseGrouping(m: SpecMatch, t: string): Option<SpecMatch> {
    var taken := |t| > 0 && IsGrouping(t[0]);
    ParsePrecision(m.(grouping := if taken then Some(t[0]) else None), if taken then t[1..] else t)
  }

  function ParseWidth(m: SpecMatch, t: string): Option<SpecMatch> {
    var n := DigitRun(t);
    ParseGrouping(m.(width := if n == 0 then None else Some(t[..n])), t[n..])
  }

  function ParseZero(m: SpecMatch, t: string): Option<SpecMatch> {
    var taken := |t| > 0 && t[0] == '0';
    ParseWidth(m.(zero := taken), if taken then t[1..] else t)
  }

  function ParseAlternate(m: SpecMatch, t: string): Option<SpecMatch> {
    var taken := |t| > 0 && t[0] == '#';
    ParseZero(m.(alternate := taken), if taken then t[1..] else t)
  }

  function ParseZ(m: SpecMatch, t: string): Option<SpecMatch> {
    var taken := |t| >= 2 && t[0] == 'z';
    ParseAlternate(m.(z := taken), if taken then t[1..] else t)
  }

  function ParseSign(m: SpecMatch, t: string): Option<SpecMatch> {
    var taken := |t| > 0 && IsSign(t[0]);
    ParseZ(m.(sign := if taken then Some(t[0]) else None), if taken then t[1..] else t)
  }

  const NoCapture := SpecMatch(None, None, None, false, false, false, None, None, None, 's')

  /**
    `FORMAT_PATTERN.fullmatch(spec)`: the captured groups, or None. A fill
    is read whenever the second character is an align character; '.' does
    not match a newline.
  */
  function MatchSpec(s: string): Option<SpecMatch> {
    if |s| >= 2 && IsAlign(s[1]) then
      if s[0] == '\n' then None
      else ParseSign(NoCapture.(fill := Some(s[0]), align := Some(s[1])), s[2..])
    else if |s| >= 1 && IsAlign(s[0]) then
      ParseSign(NoCapture.(align := Some(s[0])), s[1..])
    else ParseSign(NoCapture, s)
  }

  // --- Completeness: every rendering of well-formed captures is read back.

  lemma ParseTypeRender(m0: SpecMatch, m: SpecMatch)
    requires WellFormedFrom(m, 8) && AgreeBefore(m0, m, 8)
    ensures ParseType(m0, [m.typ]) == Some(m)
  {
  }

  lemma ParsePrecisionRender(m0: SpecMatch, m: SpecMatch)
    requires WellFormedFrom(m, 7) && AgreeBefore(m0, m, 7)
    ensures ParsePrecision(m0, RenderPrecision(m)) == Some(m)
  {
    var t := RenderPrecision(m);
    if m.precision.Some? {
      var p := m.precision.value;
      assert t[1..] == p + [m.typ];
      DigitRunOf(p, [m.typ]);
      assert t[1..1 + |p|] == p && t[1 + |p|..] == [m.typ];
    }
    ParseTypeRender(m0.(precision := m.precision), m);
  }

  lemma ParseGroupingRender(m0: SpecMatch, m: SpecMatch)
    requires WellFormedFrom(m, 6) && AgreeBefore(m0, m, 6)
    ensures ParseGrouping(m0, RenderGrouping(m)) == Some(m)
  {
    var t := RenderGrouping(m);
    ParsePrecisionRender(m0.(grouping := m.grouping), m);
    if m.grouping.Some? {
      assert t[1..] == RenderPrecision(m);
      assert ParseGrouping(m0, t) == ParsePrecision(m0.(grouping := m.grouping), RenderPrecision(m));
    } else {
      assert t == RenderPrecision(m);
      assert !IsGrouping(t[0]);
      assert ParseGrouping(m0, t) == ParsePrecision(m0.(grouping := m.grouping), RenderPrecision(m));
    }
  }

  lemma ParseWidthRender(m0: SpecMatch, m: SpecMatch)
    requires WellFormedFrom(m, 5) && AgreeBefore(m0, m, 5)
    ensures ParseWidth(m0, RenderWidth(m)) == Some(m)
  {
    WidthSplit(m);
    ParseGroupingRender(m0.(width := m.width), m);
  }

  /** The digit run at the head of a rendered width is the width itself. */
  lemma WidthSplit(m: SpecMatch)
    requires WellFormedFrom(m, 5)
    ensures var w, t := m.width.GetOr(""), RenderWidth(m);
      && DigitRun(t) == |w| && t[|w|..] == RenderGrouping(m)
      && (if |w| == 0 then None else Some(t[..|w|])) == m.width
  {
    var w := m.width.GetOr("");
    var rest := RenderGrouping(m);
    assert !IsDigit(rest[0]);
    DigitRunOf(w, rest);
    var t := RenderWidth(m);
    assert t[..|w|] == w && t[|w|..] == rest;
  }

  lemma ParseZeroRender(m0: SpecMatch, m: SpecMatch)
    requires WellFormedFrom(m, 4) && AgreeBefore(m0, m, 4)
    ensures ParseZero(m0, RenderZero(m)) == Some(m)
  {
    var t := RenderZero(m);
    if m.zero {
      assert t[1..] == RenderWidth(m);
    } else {
      assert t == RenderWidth(m);
      assert t[0] != '0';
    }
    ParseWidthRender(m0.(zero := m.zero), m);
  }

  lemma ParseAlternateRender(m0: SpecMatch, m: SpecMatch)
    requires WellFormedFrom(m, 3) && AgreeBefore(m0, m, 3)
    ensures ParseAlternate(m0, RenderAlternate(m)) == Some(m)
  {
    var t := RenderAlternate(m);
    ParseZeroRender(m0.(alternate := m.alternate), m);
    if m.alternate {
      assert t[1..] == RenderZero(m);
    } else {
      assert t == RenderZero(m);
      assert t[0] != '#';
    }
    assert ParseAlternate(m0, t) == ParseZero(m0.(alternate := m.alternate), RenderZero(m));
  }

  /** A letter at the head of the text after the z flag can only be the type, alone. */
  lemma RenderAlternateLetterHead(m: SpecMatch)
    requires WellFormedFrom(m, 3)
    ensures IsLetter(RenderAlternate(m)[0]) ==> RenderAlternate(m) == [m.typ]
  {
  }

  lemma ParseZRender(m0: SpecMatch, m: SpecMatch)
    requires WellFormedFrom(m, 2) && AgreeBefore(m0, m, 2)
    ensures ParseZ(m0, RenderZ(m)) == Some(m)
  {
    var t := RenderZ(m);
    ParseAlternateRender(m0.(z := m.z), m);
    if m.z {
      assert t[1..] == RenderAlternate(m);
    } else {
      assert t == RenderAlternate(m);
      RenderAlternateLetterHead(m);
      assert !(|t| >= 2 && t[0] == 'z');
    }
    assert ParseZ(m0, t) == ParseAlternate(m0.(z := m.z), RenderAlternate(m));
  }

  lemma ParseSignRender(m0: SpecMatch, m: SpecMatch)
    requires WellFormedFrom(m, 1) && AgreeBefore(m0, m, 1)
    ensures ParseSign(m0, RenderSign(m)) == Some(m)
  {
    var t := RenderSign(m);
    ParseZRender(m0.(sign := m.sign), m);
    if m.sign.Some? {
      assert t[1..] == RenderZ(m);
    } else {
      assert t == RenderZ(m);
      assert !IsSign(t[0]);
    }
    assert ParseSign(m0, t) == ParseZ(m0.(sign := m.sign), RenderZ(m));
  }

  predicate NoAlign(s: string) {
    forall i :: 0 <= i < |s| ==> !IsAlign(s[i])
  }

  lemma NoAlignAppend(a: string, b: string)
    requires NoAlign(a) && NoAlign(b)
    ensures NoAlign(a + b)
  {
    forall i | 0 <= i < |a + b| ensures !IsAlign((a + b)[i]) {
      if i >= |a| { assert (a + b)[i] == b[i - |a|]; }
    }
  }

  /** No character from the sign onwards is an align character. */
  lemma RenderSignNoAlign(m: SpecMatch)
    requires WellFormedFrom(m, 1)
    ensures NoAlign(RenderSign(m))
  {
    if m.precision.Some? {
      NoAlignAppend(".", m.precision.value);
      NoAlignAppend("." + m.precision.value, [m.typ]);
    }
    NoAlignAppend(OptChar(m.grouping), RenderPrecision(m));
    NoAlignAppend(m.width.GetOr(""), RenderGrouping(m));
    NoAlignAppend(Flag(m.zero, '0'), RenderWidth(m));
    NoAlignAppend(Flag(m.alternate, '#'), RenderZero(m));
    NoAlignAppend(Flag(m.z, 'z'), RenderAlternate(m));
    NoAlignAppend(OptChar(m.sign), RenderZ(m));
  }

  /** Every well-formed capture record is what MatchSpec reads from its rendering. */
  lemma MatchSpecComplete(m: SpecMatch)
    requires WellFormed(m)
    ensures MatchSpec(Render(m)) == Some(m)
  {
    var s := Render(m);
    var t := RenderSign(m);
    RenderSignNoAlign(m);
    if m.fill.Some? {
      assert s[2..] == t;
      ParseSignRender(NoCapture.(fill := m.fill, align := m.align), m);
    } else if m.align.Some? {
      assert s[1..] == t;
      ParseSignRender(NoCapture.(align := m.align), m);
    } else {
      assert s == t;
      assert !IsAlign(t[0]);
      if |t| >= 2 { assert !IsAlign(t[1]); }
      ParseSignRender(NoCapture, m);
    }
  }

  // --- Soundness: whatever MatchSpec reads is well formed and renders back.

  lemma HeadTail(t: string)
    requires |t| > 0
    ensures t == [t[0]] + t[1..]
  {
  }

  lemma ParseTypeSound(m0: SpecMatch, t: string, m: SpecMatch)
    requires ParseType(m0, t) == Some(m)
    ensures [m.typ] == t && AgreeBefore(m0, m, 8) && WellFormedFrom(m, 8)
  {
  }

  lemma ParsePrecisionSound(m0: SpecMatch, t: string, m: SpecMatch)
    requires ParsePrecision(m0, t) == Some(m)
    ensures RenderPrecision(m) == t && AgreeBefore(m0, m, 7) && WellFormedFrom(m, 7)
  {
    if |t| > 0 && t[0] == '.' {
      var n := DigitRun(t[1..]);
      ParseTypeSound(m0.(precision := Some(t[1..1 + n])), t[1 + n..], m);
      assert t == "." + t[1..1 + n] + t[1 + n..];
      assert t[1..][..n] == t[1..1 + n];
    } else {
      ParseTypeSound(m0.(precision := None), t, m);
    }
  }

  lemma ParseGroupingSound(m0: SpecMatch, t: string, m: SpecMatch)
    requires ParseGrouping(m0, t) == Some(m)
    ensures RenderGrouping(m) == t && AgreeBefore(m0, m, 6) && WellFormedFrom(m, 6)
    ensures t == [] || !IsDigit(t[0])
  {
    if |t| > 0 && IsGrouping(t[0]) {
      ParsePrecisionSound(m0.(grouping := Some(t[0])), t[1..], m);
      assert t == [t[0]] + t[1..];
    } else {
      ParsePrecisionSound(m0.(grouping := None), t, m);
    }
  }

  lemma ParseWidthSound(m0: SpecMatch, t: string, m: SpecMatch)
    requires ParseWidth(m0, t) == Some(m)
    ensures RenderWidth(m) == t && AgreeBefore(m0, m, 5) && WellFormedFrom(m, 5)
    ensures m.width.Some? ==> t[0] == m.width.value[0]
    ensures m.width.None? ==> t == [] || !IsDigit(t[0])
  {
    var n := DigitRun(t);
    ParseGroupingSound(m0.(width := if n == 0 then None else Some(t[..n])), t[n..], m);
    assert t == t[..n] + t[n..];
  }

  lemma ParseZeroSound(m0: SpecMatch, t: string, m: SpecMatch)
    requires ParseZero(m0, t) == Some(m)
    ensures RenderZero(m) == t && AgreeBefore(m0, m, 4) && WellFormedFrom(m, 4)
  {
    if |t| > 0 && t[0] == '0' {
      ParseWidthSound(m0.(zero := true), t[1..], m);
      HeadTail(t);
      assert Flag(m.zero, '0') == [t[0]];
    } else {
      ParseWidthSound(m0.(zero := false), t, m);
      assert Flag(m.zero, '0') == [];
    }
  }

  lemma ParseAlternateSound(m0: SpecMatch, t: string, m: SpecMatch)
    requires ParseAlternate(m0, t) == Some(m)
    ensures RenderAlternate(m) == t && AgreeBefore(m0, m, 3) && WellFormedFrom(m, 3)
  {
    if |t| > 0 && t[0] == '#' {
      ParseZeroSound(m0.(alternate := true), t[1..], m);
      HeadTail(t);
      assert Flag(m.alternate, '#') == [t[0]];
    } else {
      ParseZeroSound(m0.(alternate := false), t, m);
      assert Flag(m.alternate, '#') == [];
    }
  }

  lemma ParseZSound(m0: SpecMatch, t: string, m: SpecMatch)
    requires ParseZ(m0, t) == Some(m)
    ensures RenderZ(m) == t && AgreeBefore(m0, m, 2) && WellFormedFrom(m, 2)
  {
    if |t| >= 2 && t[0] == 'z' {
      ParseAlternateSound(m0.(z := true), t[1..], m);
      HeadTail(t);
      assert Flag(m.z, 'z') == [t[0]];
    } else {
      ParseAlternateSound(m0.(z := false), t, m);
      assert Flag(m.z, 'z') == [];
    }
  }

  lemma ParseSignSound(m0: SpecMatch, t: string, m: SpecMatch)
    requires ParseSign(m0, t) == Some(m)
    ensures RenderSign(m) == t && AgreeBefore(m0, m, 1) && WellFormedFrom(m, 1)
  {
    if |t| > 0 && IsSign(t[0]) {
      ParseZSound(m0.(sign := Some(t[0])), t[1..], m);
      HeadTail(t);
      assert OptChar(m.sign) == [t[0]];
    } else {
      ParseZSound(m0.(sign := None), t, m);
      assert OptChar(m.sign) == [];
    }
  }

  /** What MatchSpec reads is well formed and renders back to the spec. */
  lemma MatchSpecSound(s: string, m: SpecMatch)
    requires MatchSpec(s) == Some(m)
    ensures WellFormed(m) && Render(m) == s
  {
    if |s| >= 2 && IsAlign(s[1]) {
      var m0 := NoCapture.(fill := Some(s[0]), align := Some(s[1]));
      PrefixSound(m0, s[2..], m);
      assert s == OptChar(m0.fill) + OptChar(m0.align) + s[2..];
    } else if |s| >= 1 && IsAlign(s[0]) {
      var m0 := NoCapture.(align := Some(s[0]));
      PrefixSound(m0, s[1..], m);
      assert s == OptChar(m0.fill) + OptChar(m0.align) + s[1..];
    } else {
      PrefixSound(NoCapture, s, m);
    }
  }

  /** What follows a well-formed fill and align is read by ParseSign into captures rendering to the whole. */
  lemma PrefixSound(m0: SpecMatch, t: string, m: SpecMatch)
    requires m0.fill.Some? ==> m0.align.Some? && m0.fill.value != '\n'
    requires m0.align.Some? ==> IsAlign(m0.align.value)
    requires ParseSign(m0, t) == Some(m)
    ensures WellFormed(m) && Render(m) == OptChar(m0.fill) + OptChar(m0.align) + t
  {
    ParseSignSound(m0, t, m);
  }

  /** What MatchSpec reads is well formed. */
  lemma MatchSpecWellFormed(s: string, m: SpecMatch)
    requires MatchSpec(s) == Some(m)
    ensures WellFormed(m)
  {
    MatchSpecSound(s, m);
  }

  /**
    MatchSpec accepts exactly the strings of the grammar: it reads `m` from
    `s` if and only if `m` is a well-formed capture record rendering to `s`.
  */
  lemma MatchSpecIff(s: string, m: SpecMatch)
    ensures MatchSpec(s) == Some(m) <==> WellFormed(m) && Render(m) == s
  {
    if MatchSpec(s) == Some(m) {
      MatchSpecSound(s, m);
    }
    if WellFormed(m) && Render(m) == s {
      MatchSpecComplete(m);
    }
  }

  // ---------------------------------------------------------------------
  // get_format

  /**
    A resolved format: the spec string and its parameters once defaults are
    applied. `grouping` is "" when absent. A Python Format object holds
    exactly these fields; its class is chosen by `typ`.
  */
  datatype Format = Format(
    spec: string,
    typ: char,
    fill: char,
    align: char,
    sign: char,
    alternate: bool,
    zero: bool,
    width: int,
    grouping: string,
    precision: int)

  /** The type letters with a Format class: FORMAT_CLASSES. */
  const FormatClasses: set<string> := {"s", "d", "f", "e", "E"}

  /** The text of the width group, "0" when absent. */
  function WidthText(m: SpecMatch): string {
    m.width.GetOr("0")
  }

  /** The text of the precision group (with its '.'), ".6" when absent. */
  function PrecisionText(m: SpecMatch): string {
    if m.precision.Some? then "." + m.precision.value else ".6"
  }

  /** The format resolved from the captures `m` of `spec`. */
  function Resolve(spec: string, m: SpecMatch): Result<Format> {
    var special := m.align.None? && m.zero;
    var fill := if special then '0' else m.fill.GetOr(' ');
    var align := if special then '=' else m.align.GetOr('>');
    var width :- ParseInt(WidthText(m));
    var precision :- ParseInt(RemovePrefix(PrecisionText(m), "."));
    if [m.typ] !in FormatClasses then Err(KeyError)
    else Ok(Format(spec, m.typ, fill, align, m.sign.GetOr('-'), m.alternate, m.zero,
                   width, OptChar(m.grouping), precision))
  }

  /**
    `get_format(spec)`: ValueError when the spec is not in the grammar,
    otherwise the resolved format.
  */
  function FormatOf(spec: string): Result<Format> {
    match MatchSpec(spec)
    case None => Err(ValueError)
    case Some(m) => Resolve(spec, m)
  }

  lemma WidthTextValue(m: SpecMatch)
    requires WellFormedFrom(m, 5)
    ensures ParseInt(WidthText(m)) == Ok(if m.width.Some? then DigitsValue(m.width.value) else 0)
  {
    assert DigitsValue("0") == 0;
  }

  lemma PrecisionTextValue(m: SpecMatch)
    requires WellFormedFrom(m, 7)
    ensures ParseInt(RemovePrefix(PrecisionText(m), ".")) == Ok(if m.precision.Some? then DigitsValue(m.precision.value) else 6)
  {
    if m.precision.Some? {
      assert RemovePrefix(PrecisionText(m), ".") == m.precision.value;
    } else {
      assert RemovePrefix(".6", ".") == "6";
      assert DigitsValue("6") == 6;
    }
  }

  /** The keys of the parameter dictionary of `get_format` that hold strings. */
  datatype Param = FillKey | AlignKey | SignKey | WidthKey | PrecisionKey | GroupingKey | TypeKey

  /** The defaults for parameters left unset, in the order they are applied. */
  const Defaults: seq<(Param, string)> :=
    [(AlignKey, ">"), (FillKey, " "), (SignKey, "-"), (WidthKey, "0"), (PrecisionKey, ".6"), (GroupingKey, "")]

  const AllParams: set<Param> := {FillKey, AlignKey, SignKey, WidthKey, PrecisionKey, GroupingKey, TypeKey}

  /** `m.groupdict()`, the string-valued groups. */
  function GroupDict(m: SpecMatch): (r: map<Param, Option<string>>)
    ensures r.Keys == AllParams
  {
    map[
      FillKey := if m.fill.Some? then Some(OptChar(m.fill)) else None,
      AlignKey := if m.align.Some? then Some(OptChar(m.align)) else None,
      SignKey := if m.sign.Some? then Some(OptChar(m.sign)) else None,
      WidthKey := m.width,
      GroupingKey := if m.grouping.Some? then Some(OptChar(m.grouping)) else None,
      PrecisionKey := if m.precision.Some? then Some("." + m.precision.value) else None,
      TypeKey := Some([m.typ])]
  }

  /** `if params["align"] is None and params["zero"]`: fill '0', align '='. */
  function SpecialCase(p: map<Param, Option<string>>, zero: bool): (r: map<Param, Option<string>>)
    requires AllParams <= p.Keys
    ensures r.Keys == p.Keys
  {
    if AlignKey in p && p[AlignKey].None? && zero then p[FillKey := Some("0")][AlignKey := Some("=")] else p
  }

  /** One default: the parameter takes the value when it is unset. */
  function SetDefault(p: map<Param, Option<string>>, d: (Param, string)): (r: map<Param, Option<string>>)
    ensures r.Keys == p.Keys
  {
    if d.0 in p then p[d.0 := Some(p[d.0].GetOr(d.1))] else p
  }

  /** The defaults `ds`, applied in order. */
  function SetDefaults(p: map<Param, Option<string>>, ds: seq<(Param, string)>): (r: map<Param, Option<string>>)
    ensures r.Keys == p.Keys
  {
    if |ds| == 0 then p else SetDefaults(SetDefault(p, ds[0]), ds[1..])
  }

  /** Applying the defaults fills exactly the unset parameters. */
  lemma SetDefaultsEffect(p: map<Param, Option<string>>)
    requires p.Keys == AllParams
    ensures var q := SetDefaults(p, Defaults);
      && q[AlignKey] == Some(p[AlignKey].GetOr(">"))
      && q[FillKey] == Some(p[FillKey].GetOr(" "))
      && q[SignKey] == Some(p[SignKey].GetOr("-"))
      && q[WidthKey] == Some(p[WidthKey].GetOr("0"))
      && q[PrecisionKey] == Some(p[PrecisionKey].GetOr(".6"))
      && q[GroupingKey] == Some(p[GroupingKey].GetOr(""))
      && q[TypeKey] == p[TypeKey]
  {
    DefaultsDistinct();
    var ds := Defaults;
    SetDefaultsHit(p, ds, 0);
    SetDefaultsHit(p, ds, 1);
    SetDefaultsHit(p, ds, 2);
    SetDefaultsHit(p, ds, 3);
    SetDefaultsHit(p, ds, 4);
    SetDefaultsHit(p, ds, 5);
    SetDefaultsAt(p, ds, TypeKey);
  }

  /** Each parameter has at most one default. */
  lemma DefaultsDistinct()
    ensures |Defaults| == 6
    ensures forall i, j :: 0 <= i < j < |Defaults| ==> Defaults[i].0 != Defaults[j].0
    ensures forall i :: 0 <= i < |Defaults| ==> Defaults[i].0 != TypeKey
  {
  }

  lemma SetDefaultsHit(p: map<Param, Option<string>>, ds: seq<(Param, string)>, i: nat)
    requires i < |ds| && ds[i].0 in p
    requires forall i, j :: 0 <= i < j < |ds| ==> ds[i].0 != ds[j].0
    ensures SetDefaults(p, ds)[ds[i].0] == Some(p[ds[i].0].GetOr(ds[i].1))
  {
    SetDefaultsAt(p, ds, ds[i].0);
  }

  /**
    With distinct keys, each default listed sets its own key when unset and
    a key no default names keeps its value.
  */
  lemma {:induction false} SetDefaultsAt(p: map<Param, Option<string>>, ds: seq<(Param, string)>, k: Param)
    requires k in p
    requires forall i, j :: 0 <= i < j < |ds| ==> ds[i].0 != ds[j].0
    ensures forall i :: 0 <= i < |ds| && ds[i].0 == k ==> SetDefaults(p, ds)[k] == Some(p[k].GetOr(ds[i].1))
    ensures (forall i :: 0 <= i < |ds| ==> ds[i].0 != k) ==> SetDefaults(p, ds)[k] == p[k]
  {
    if |ds| > 0 {
      var p' := SetDefault(p, ds[0]);
      SetDefaultsAt(p', ds[1..], k);
      assert forall i :: 1 <= i < |ds| ==> ds[1..][i - 1] == ds[i];
    }
  }

  /** The parameter dictionary once defaults are applied holds what Resolve reads. */
  lemma SettledParams(m: SpecMatch)
    ensures var p := SetDefaults(SpecialCase(GroupDict(m), m.zero), Defaults);
      var special := m.align.None? && m.zero;
      && p[FillKey] == Some([if special then '0' else m.fill.GetOr(' ')])
      && p[AlignKey] == Some([if special then '=' else m.align.GetOr('>')])
      && p[SignKey] == Some([m.sign.GetOr('-')])
      && p[WidthKey] == Some(WidthText(m))
      && p[PrecisionKey] == Some(PrecisionText(m))
      && p[GroupingKey] == Some(OptChar(m.grouping))
      && p[TypeKey] == Some([m.typ])
  {
    SetDefaultsEffect(SpecialCase(GroupDict(m), m.zero));
  }

  /** The loop of `get_format` over the defaults: each unset parameter takes its default. */
  method ApplyDefaults(p: map<Param, Option<string>>) returns (params: map<Param, Option<string>>)
    requires p.Keys == AllParams
    ensures params == SetDefaults(p, Defaults)
  {
    params := p;
    for i := 0 to |Defaults|
      invariant params.Keys == AllParams
      invariant SetDefaults(params, Defaults[i..]) == SetDefaults(p, Defaults)
    {
      ghost var prev := params;
      var (k, v) := Defaults[i];
      if params[k].None? {
        params := params[k := Some(v)];
      } else {
        assert prev[k := Some(prev[k].GetOr(v))] == prev;
      }
      assert params == SetDefault(prev, Defaults[i]);
      assert Defaults[i..] == [Defaults[i]] + Defaults[i + 1..];
    }
  }

  /**
    `get_format`: fills the parameter dictionary from the match, applies the
    zero-padding special case, then each default in turn, converts width and
    precision, and checks the type.
  */
  method GetFormat(spec: string) returns (r: Result<Format>)
    ensures r == FormatOf(spec)
  {
    var found := MatchSpec(spec);
    if found.None? {
      return Err(ValueError);
    }
    var m := found.value;
    var params := GroupDict(m);
    var alternate := m.alternate;
    var zero := m.zero;
    if params[AlignKey].None? && zero {
      params := params[FillKey := Some("0")][AlignKey := Some("=")];
    }
    params := ApplyDefaults(params);
    SettledParams(m);
    var width :- ParseInt(params[WidthKey].value);
    var precision :- ParseInt(RemovePrefix(params[PrecisionKey].value, "."));
    var typ := params[TypeKey].value;
    if typ !in FormatClasses {
      return Err(KeyError);
    }
    r := Ok(Format(spec, typ[0], params[FillKey].value[0], params[AlignKey].value[0],
                   params[SignKey].value[0], alternate, zero, width, params[GroupingKey].value, precision));
  }

  /** Once a spec is in the grammar, only an unsupported type can make it fail (KeyError). */
  lemma FormatOfErrors(spec: string, m: SpecMatch)
    requires MatchSpec(spec) == Some(m)
    ensures FormatOf(spec).Err? <==> [m.typ] !in FormatClasses
    ensures FormatOf(spec).Err? ==> FormatOf(spec).error == KeyError
  {
    MatchSpecSound(spec, m);
    WidthTextValue(m);
    PrecisionTextValue(m);
  }

  /**
    The parameters resolved from well-formed captures: a zero flag without
    an align means fill '0' and align '='; every other unset parameter takes
    its default (align '>', fill ' ', sign '-', width 0, precision 6, no
    grouping).
  */
  lemma ResolveFields(spec: string, m: SpecMatch)
    requires WellFormedFrom(m, 1) && Resolve(spec, m).Ok?
    ensures var f := Resolve(spec, m).value;
      && f.spec == spec && f.typ == m.typ
      && (m.align.None? && m.zero ==> f.fill == '0' && f.align == '=')
      && (m.align.Some? || !m.zero ==> f.align == m.align.GetOr('>') && f.fill == m.fill.GetOr(' '))
      && f.sign == m.sign.GetOr('-')
      && f.alternate == m.alternate && f.zero == m.zero
      && f.width == (if m.width.Some? then DigitsValue(m.width.value) else 0)
      && f.precision == (if m.precision.Some? then DigitsValue(m.precision.value) else 6)
      && f.grouping == OptChar(m.grouping)
  {
    WidthTextValue(m);
    PrecisionTextValue(m);
  }

  /** The parameters of a format read from a spec (see ResolveFields). */
  lemma FormatOfFields(spec: string, m: SpecMatch)
    requires MatchSpec(spec) == Some(m)
    requires FormatOf(spec).Ok?
    ensures FormatOf(spec) == Resolve(spec, m)
    ensures var f := FormatOf(spec).value;
      && f.spec == spec && f.typ == m.typ
      && (m.align.None? && m.zero ==> f.fill == '0' && f.align == '=')
      && (m.align.Some? || !m.zero ==> f.align == m.align.GetOr('>') && f.fill == m.fill.GetOr(' '))
      && f.sign == m.sign.GetOr('-')
      && f.alternate == m.alternate && f.zero == m.zero
      && (m.width.None? ==> f.width == 0)
      && (m.width.Some? ==> IsDigits(m.width.value) && f.width == DigitsValue(m.width.value))
      && (m.precision.None? ==> f.precision == 6)
      && (m.precision.Some? ==> IsDigits(m.precision.value) && f.precision == DigitsValue(m.precision.value))
      && f.grouping == OptChar(m.grouping)
  {
    assert FormatOf(spec) == Resolve(spec, m);
    MatchSpecWellFormed(spec, m);
    ResolveFields(spec, m);
  }

  /** A spec raises ValueError exactly when no capture record renders to it. */
  lemma FormatOfValueError(spec: string)
    ensures FormatOf(spec) == Err(ValueError) <==> forall m :: WellFormed(m) ==> Render(m) != spec
  {
    match MatchSpec(spec)
    case None =>
      forall m | WellFormed(m) ensures Render(m) != spec {
        MatchSpecComplete(m);
      }
    case Some(m) =>
      FormatOfErrors(spec, m);
      MatchSpecSound(spec, m);
  }

  /**
    A spec in the grammar builds when its type has a Format class and
    raises KeyError otherwise.
  */
  lemma FormatOfRendered(m: SpecMatch)
    requires WellFormed(m)
    ensures [m.typ] in FormatClasses ==> FormatOf(Render(m)).Ok?
    ensures [m.typ] !in FormatClasses ==> FormatOf(Render(m)) == Err(KeyError)
  {
    MatchSpecComplete(m);
    FormatOfErrors(Render(m), m);
  }

  /** `q` is in the grammar but has no Format class: KeyError. */
  lemma UnknownTypeFormat(spec: string)
    requires spec == "q"
    ensures FormatOf(spec) == Err(KeyError)
  {
    var m := SpecMatch(None, None, None, false, false, false, None, None, None, 'q');
    assert Render(m) == "q";
    FormatOfRendered(m);
  }

  /** Every resolved format has a sign, fill and align the regex builders accept. */
  lemma FormatOfWellFormed(spec: string)
    requires FormatOf(spec).Ok?
    ensures var f := FormatOf(spec).value;
      && IsSign(f.sign) && IsAlign(f.align) && f.width >= 0 && f.precision >= 0
      && [f.typ] in FormatClasses && (f.grouping == "" || f.grouping == "," || f.grouping == "_")
  {
    var m := MatchSpec(spec).value;
    MatchSpecWellFormed(spec, m);
    FormatOfErrors(spec, m);
    FormatOfFields(spec, m);
  }

  // ---------------------------------------------------------------------
  // Regular expressions from a format

  /** `get_fill_regex`: any number of (escaped) fill characters. */
  function FillRegex(f: Format): string {
    Escape([f.fill]) + "*"
  }

  /** The fill regex repeats a pattern that unescapes to exactly the fill character. */
  lemma FillRegexUnescapes(f: Format)
    ensures var r := FillRegex(f);
      |r| >= 2 && r[|r| - 1] == '*' && Unescape(r[..|r| - 1]) == [f.fill]
  {
    var e := Escape([f.fill]);
    UnescapeEscape([f.fill]);
    assert (e + "*")[..|e|] == e;
  }

  /**
    `add_outer_alignement`: the fill regex is put before `rgx` for right and
    centre alignment and after it for left and centre alignment, and nothing
    is added when the width is 0 or the padding goes after the sign ('=').
  */
  function AddOuterAlignment(f: Format, rgx: string): (r: string)
    ensures exists pre, post ::
      && r == pre + rgx + post
      && (pre == "" || pre == FillRegex(f))
      && (post == "" || post == FillRegex(f))
      && (pre != "" <==> f.width != 0 && (f.align == '>' || f.align == '^'))
      && (post != "" <==> f.width != 0 && (f.align == '<' || f.align == '^'))
  {
    if f.width == 0 || f.align == '=' then
      assert rgx == "" + rgx + "";
      rgx
    else
      var pre := if f.align == '>' || f.align == '^' then FillRegex(f) else "";
      var post := if f.align == '<' || f.align == '^' then FillRegex(f) else "";
      pre + rgx + post
  }

  /**
    `get_sign_regex`: '-' may show a minus, '+' always shows a sign, ' '
    shows a space or a minus; with a width and '=' alignment the padding
    follows the sign. Any other sign is a KeyError.
  */
  function SignRegex(f: Format): (r: Result<string>)
    ensures r.Err? <==> !IsSign(f.sign)
    ensures r.Err? ==> r.error == KeyError
    ensures r.Ok? ==>
      var pad := if f.width > 0 && f.align == '=' then FillRegex(f) else "";
      && (f.sign == '-' ==> r.value == "-?" + pad)
      && (f.sign == '+' ==> r.value == "[+-]" + pad)
      && (f.sign == ' ' ==> r.value == @"[\s-]" + pad)
  {
    if !IsSign(f.sign) then Err(KeyError)
    else
      var base := if f.sign == '-' then "-?" else if f.sign == '+' then "[+-]" else @"[\s-]";
      Ok(if f.width > 0 && f.align == '=' then base + FillRegex(f) else base)
  }

  /** `get_left_of_decimal`: digits, in groups of three after the first when grouped. */
  function LeftOfDecimal(f: Format): (r: string)
    ensures f.grouping == "" ==> r == @"\d+"
    ensures f.grouping != "" ==> r == @"\d?\d?\d(?:" + f.grouping + @"\d{3})*"
  {
    if f.grouping != "" then @"\d?\d?\d(?:" + f.grouping + @"\d{3})*" else @"\d+"
  }

  /**
    The digit run holds a grouping character exactly when the format
    groups its digits.
  */
  lemma LeftOfDecimalGrouping(f: Format)
    requires f.grouping == "" || f.grouping == "," || f.grouping == "_"
    ensures (exists i :: 0 <= i < |LeftOfDecimal(f)| && (LeftOfDecimal(f)[i] == ',' || LeftOfDecimal(f)[i] == '_')) <==> f.grouping != ""
  {
    var r := LeftOfDecimal(f);
    if f.grouping != "" {
      assert r[11] == f.grouping[0];
    } else {
      assert r == @"\d+";
      forall i | 0 <= i < |r| ensures r[i] != ',' && r[i] != '_' {
      }
    }
  }

  /** `get_right_of_decimal`: the decimal point and exactly `precision` digits. */
  function RightOfDecimal(f: Format): (r: string)
    ensures |r| >= 2 && r[..2] == @"\." <==> f.precision != 0 || f.alternate
    ensures f.precision == 0 ==> (r == @"\." || r == "")
    ensures f.precision != 0 ==> r == @"\." + @"\d{" + IntToString(f.precision) + "}"
  {
    (if f.precision != 0 || f.alternate then @"\." else "")
    + (if f.precision != 0 then @"\d{" + IntToString(f.precision) + "}" else "")
  }

  /**
    `generate_expression` of the Format class chosen by the type: strings
    match anything (lazily), integers a signed digit run, 'f' floats a
    signed digit run and decimals, 'e'/'E' floats one digit, decimals and
    an exponent; each then takes its outer padding.
  */
  function GenerateExpression(f: Format): (r: Result<string>)
    ensures r.Err? ==> r.error == KeyError
  {
    if f.typ == 's' then Ok(AddOuterAlignment(f, ".*?"))
    else if f.typ == 'd' then
      var sign :- SignRegex(f);
      Ok(AddOuterAlignment(f, sign + LeftOfDecimal(f)))
    else if f.typ == 'f' then
      var sign :- SignRegex(f);
      Ok(AddOuterAlignment(f, sign + LeftOfDecimal(f) + RightOfDecimal(f)))
    else if f.typ == 'e' || f.typ == 'E' then
      var sign :- SignRegex(f);
      Ok(AddOuterAlignment(f, sign + @"\d" + RightOfDecimal(f) + [f.typ] + @"[+-]\d+"))
    else Err(KeyError)
  }

  /** A format read from a spec always yields a regular expression. */
  lemma GenerateExpressionTotal(spec: string)
    requires FormatOf(spec).Ok?
    ensures GenerateExpression(FormatOf(spec).value).Ok?
  {
    FormatOfWellFormed(spec);
    GenerateExpressionOk(FormatOf(spec).value);
  }

  /** A known type and sign always give a regular expression. */
  lemma GenerateExpressionOk(f: Format)
    requires IsSign(f.sign) && [f.typ] in FormatClasses
    ensures GenerateExpression(f).Ok?
  {
  }

  /** Reading a spec whose captures are `m` gives the format `f`. */
  lemma FormatOfExample(spec: string, m: SpecMatch, f: Format)
    requires WellFormed(m) && Render(m) == spec && [m.typ] in FormatClasses
    requires f == Format(spec, m.typ,
      if m.align.None? && m.zero then '0' else m.fill.GetOr(' '),
      if m.align.None? && m.zero then '=' else m.align.GetOr('>'),
      m.sign.GetOr('-'), m.alternate, m.zero,
      if m.width.Some? then DigitsValue(m.width.value) else 0,
      OptChar(m.grouping),
      if m.precision.Some? then DigitsValue(m.precision.value) else 6)
    ensures FormatOf(spec) == Ok(f)
  {
    MatchSpecComplete(m);
    FormatOfErrors(spec, m);
    FormatOfFields(spec, m);
  }

  /** `05.3f` reads as fill '0', align '=', width 5, precision 3. */
  lemma ZeroPaddedFloatFormat(spec: string)
    requires spec == "05.3f"
    ensures FormatOf(spec) == Ok(Format("05.3f", 'f', '0', '=', '-', false, true, 5, "", 3))
  {
    var m := SpecMatch(None, None, None, false, false, true, Some("5"), None, Some("3"), 'f');
    assert Render(m) == "05.3f";
    assert DigitsValue("5") == 5 && DigitsValue("3") == 3;
    FormatOfExample(spec, m, Format("05.3f", 'f', '0', '=', '-', false, true, 5, "", 3));
  }

  /** ... and its regex pads with zeros after the sign: `-?0*\d+\.\d{3}`. */
  lemma ZeroPaddedFloatRegex()
    ensures GenerateExpression(Format("05.3f", 'f', '0', '=', '-', false, true, 5, "", 3)) == Ok(@"-?0*\d+\.\d{3}")
  {
    var f := Format("05.3f", 'f', '0', '=', '-', false, true, 5, "", 3);
    assert Escape(['0']) == "0";
    assert FillRegex(f) == "0*";
    assert SignRegex(f) == Ok("-?" + "0*");
    assert IntToString(3) == "3";
    assert RightOfDecimal(f) == @"\." + @"\d{" + "3" + "}";
    var x := ("-?" + "0*") + @"\d+" + (@"\." + @"\d{" + "3" + "}");
    assert AddOuterAlignment(f, x) == x;
    assert x == @"-?0*\d+\.\d{3}";
  }

  /** `a^5d` reads as fill 'a', centred, width 5. */
  lemma CentredIntegerFormat(spec: string)
    requires spec == "a^5d"
    ensures FormatOf(spec) == Ok(Format("a^5d", 'd', 'a', '^', '-', false, false, 5, "", 6))
  {
    var m := SpecMatch(Some('a'), Some('^'), None, false, false, false, Some("5"), None, None, 'd');
    assert Render(m) == "a^5d";
    assert DigitsValue("5") == 5;
    FormatOfExample(spec, m, Format("a^5d", 'd', 'a', '^', '-', false, false, 5, "", 6));
  }

  /** ... and its regex pads on both sides: `a*-?\d+a*`. */
  lemma CentredIntegerRegex()
    ensures GenerateExpression(Format("a^5d", 'd', 'a', '^', '-', false, false, 5, "", 6)) == Ok(@"a*-?\d+a*")
  {
    var f := Format("a^5d", 'd', 'a', '^', '-', false, false, 5, "", 6);
    assert Escape(['a']) == "a";
    assert FillRegex(f) == "a*";
    assert SignRegex(f) == Ok("-?");
    var x := "-?" + @"\d+";
    assert AddOuterAlignment(f, x) == "a*" + x + "a*";
    assert "a*" + x + "a*" == @"a*-?\d+a*";
  }

  /** A grouped integer `,d` matches its digits in groups of three: `-?\d?\d?\d(?:,\d{3})*`. */
  lemma GroupedIntegerRegex()
    ensures GenerateExpression(Format(",d", 'd', ' ', '>', '-', false, false, 0, ",", 6)) == Ok(@"-?\d?\d?\d(?:,\d{3})*")
  {
    var f := Format(",d", 'd', ' ', '>', '-', false, false, 0, ",", 6);
    assert SignRegex(f) == Ok("-?");
    var x := "-?" + LeftOfDecimal(f);
    assert AddOuterAlignment(f, x) == x;
    CommaGroupedDigits(f);
  }

  /** With ',' grouping, an optional minus and the digit run spell `-?\d?\d?\d(?:,\d{3})*`. */
  lemma CommaGroupedDigits(f: Format)
    requires f.grouping == ","
    ensures "-?" + LeftOfDecimal(f) == @"-?\d?\d?\d(?:,\d{3})*"
  {
    assert LeftOfDecimal(f) == @"\d?\d?\d(?:" + "," + @"\d{3})*";
  }

  /** `.2E` reads as an exponent format with precision 2 and no width. */
  lemma ExponentFormat(spec: string)
    requires spec == ".2E"
    ensures FormatOf(spec) == Ok(Format(".2E", 'E', ' ', '>', '-', false, false, 0, "", 2))
  {
    var m := SpecMatch(None, None, None, false, false, false, None, None, Some("2"), 'E');
    assert Render(m) == ".2E";
    assert DigitsValue("2") == 2;
    FormatOfExample(spec, m, Format(".2E", 'E', ' ', '>', '-', false, false, 0, "", 2));
  }

  /** ... and its regex is `-?\d\.\d{2}E[+-]\d+`. */
  lemma ExponentRegex()
    ensures GenerateExpression(Format(".2E", 'E', ' ', '>', '-', false, false, 0, "", 2)) == Ok(@"-?\d\.\d{2}E[+-]\d+")
  {
    var f := Format(".2E", 'E', ' ', '>', '-', false, false, 0, "", 2);
    var right := @"\.\d{2}";
    assert RightOfDecimal(f) == right by {
      assert IntToString(2) == "2";
      assert @"\." + @"\d{" + "2" + "}" == right;
    }
    var x := "-?" + @"\d" + right + "E" + @"[+-]\d+";
    assert x == @"-?\d\.\d{2}E[+-]\d+";
    assert SignRegex(f) == Ok("-?");
    assert AddOuterAlignment(f, x) == x;
  }

  // ---------------------------------------------------------------------
  // Parsing numbers

  /** The characters `remove_special` deletes: grouping characters, and the fill unless it is '0'. */
  predicate IsRemoved(f: Format, c: char) {
    c == ',' || c == '_' || (f.fill != '0' && c == f.fill)
  }

  /** `remove_special`: deletes the removed characters and keeps every other one, in order. */
  function RemoveSpecial(f: Format, s: string): (r: string)
    ensures |r| <= |s|
    ensures forall i :: 0 <= i < |r| ==> !IsRemoved(f, r[i])
  {
    if |s| == 0 then []
    else (if IsRemoved(f, s[0]) then [] else [s[0]]) + RemoveSpecial(f, s[1..])
  }

  lemma {:induction false} RemoveSpecialAppend(f: Format, a: string, b: string)
    ensures RemoveSpecial(f, a + b) == RemoveSpecial(f, a) + RemoveSpecial(f, b)
  {
    if |a| > 0 {
      assert (a + b)[1..] == a[1..] + b;
      RemoveSpecialAppend(f, a[1..], b);
    } else {
      assert a + b == b;
    }
  }

  /** A string without removed characters is kept whole; in particular removal is idempotent. */
  lemma {:induction false} RemoveSpecialKeeps(f: Format, s: string)
    requires forall i :: 0 <= i < |s| ==> !IsRemoved(f, s[i])
    ensures RemoveSpecial(f, s) == s
  {
    if |s| > 0 {
      RemoveSpecialKeeps(f, s[1..]);
      assert [s[0]] + s[1..] == s;
    }
  }

  lemma RemoveSpecialIdempotent(f: Format, s: string)
    ensures RemoveSpecial(f, RemoveSpecial(f, s)) == RemoveSpecial(f, s)
  {
    RemoveSpecialKeeps(f, RemoveSpecial(f, s));
  }

  function Repeat(c: char, k: nat): (r: string)
    ensures |r| == k && forall i :: 0 <= i < k ==> r[i] == c
  {
    if k == 0 then [] else [c] + Repeat(c, k - 1)
  }

  lemma {:induction false} RemoveSpecialRepeat(f: Format, k: nat)
    requires f.fill != '0'
    ensures RemoveSpecial(f, Repeat(f.fill, k)) == []
  {
    if k > 0 {
      assert Repeat(f.fill, k)[1..] == Repeat(f.fill, k - 1);
      RemoveSpecialRepeat(f, k - 1);
    }
  }

  /** `FormatInteger.parse`: `int()` of the string once grouping and fill characters are removed. */
  function ParseInteger(f: Format, s: string): (r: Result<int>)
    ensures var t := RemoveSpecial(f, s);
      r.Ok? <==> (|t| >= 1 && IsDigits(t)) || (|t| >= 2 && (t[0] == '-' || t[0] == '+') && IsDigits(t[1..]))
    ensures r.Err? ==> r.error == ValueError
    ensures (forall j :: 0 <= j < |s| ==> !IsRemoved(f, s[j])) ==> r == ParseInt(s)
  {
    var t := RemoveSpecial(f, s);
    assert (forall j :: 0 <= j < |s| ==> !IsRemoved(f, s[j])) ==> t == s by {
      if forall j :: 0 <= j < |s| ==> !IsRemoved(f, s[j]) {
        RemoveSpecialKeeps(f, s);
      }
    }
    ParseInt(t)
  }

  /** A number padded on the left with a fill character other than '0' is read back. */
  lemma ParseIntegerFillPadded(f: Format, k: nat, i: int)
    requires f.fill != '0' && !IsDigit(f.fill) && f.fill != '-'
    ensures ParseInteger(f, Repeat(f.fill, k) + IntToString(i)) == Ok(i)
  {
    RemoveSpecialAppend(f, Repeat(f.fill, k), IntToString(i));
    RemoveSpecialRepeat(f, k);
    var s := IntToString(i);
    assert forall j :: 0 <= j < |s| ==> !IsRemoved(f, s[j]) by {
      forall j | 0 <= j < |s| ensures !IsRemoved(f, s[j]) {
        if i < 0 && j > 0 {
          assert s[j] == NatToString(-i)[j - 1];
        }
      }
    }
    RemoveSpecialKeeps(f, s);
    assert [] + s == s;
    ParseIntToString(i);
  }

  /** A number zero-padded to a width (fill '0', the `0` flag) is read back. */
  lemma ParseIntegerZeroPadded(f: Format, n: nat, w: nat)
    requires f.fill == '0'
    ensures ParseInteger(f, ZeroPad(n, w)) == Ok(n)
  {
    var s := ZeroPad(n, w);
    assert forall j :: 0 <= j < |s| ==> !IsRemoved(f, s[j]) by {
      forall j | 0 <= j < |s| ensures !IsRemoved(f, s[j]) {
        assert IsDigit(s[j]);
      }
    }
    RemoveSpecialKeeps(f, s);
    ParseIntZeroPad(n, w);
  }

  /** The renderer of a value through a format: Python's `str.format`, left uninterpreted. */
  type Renderer = (Format, Value) -> string
}
