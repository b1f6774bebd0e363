/**
  `matches.py`: the values matched in one filename. A `Match` holds the
  string one group captured and a three-state parse cache; `Matches` selects
  matches by key, drops the groups marked `discard`, and reads values.
*/
module Matching {
  import opened Common
  import opened Util
  import opened Groups

  /** The parse cache of a match: not parsed yet, parsing failed, or the parsed value. */
  datatype Parsed = NotParsed | ParseFail | Parsed(value: Value)

  /** What one parse attempt leaves in the cache: any exception becomes PARSE_FAIL. */
  function Outcome(p: Result<Value>): (r: Parsed)
    ensures r != NotParsed
    ensures r == ParseFail <==> p.Err?
    ensures p.Ok? ==> r == Parsed(p.value)
  {
    if p.Ok? then Parsed(p.value) else ParseFail
  }

  /**
    `get_match` once the cache is filled: the parsed value when asked for and
    available, a ValueError when asked for, unavailable and raising is on,
    the matched string otherwise.
  */
  function MatchValue(outcome: Parsed, matchStr: string, parse: bool, raiseOnUnparsed: bool): (r: Result<Value>)
    requires outcome != NotParsed
    ensures r.Err? <==> parse && raiseOnUnparsed && outcome == ParseFail
    ensures r.Err? ==> r.error == ValueError
    ensures r.Ok? && r.value != Str(matchStr) ==> parse && outcome == Parsed(r.value)
    ensures parse && outcome.Parsed? ==> r == Ok(outcome.value)
  {
    if parse && outcome.Parsed? then Ok(outcome.value)
    else if parse && raiseOnUnparsed then Err(ValueError)
    else Ok(Str(matchStr))
  }

  /** A string captured by one group in a filename. */
  class Match {
    const group: Group
    const matchStr: string
    const start: int
    const end: int
    var parsed: Parsed

    /** The cache is empty or holds the outcome of parsing the matched string. */
    predicate Valid()
      reads this
    {
      parsed == NotParsed || parsed == Outcome(group.parse(matchStr))
    }

    constructor (group: Group, matchStr: string, start: int, end: int)
      ensures this.group == group && this.matchStr == matchStr
      ensures this.start == start && this.end == end
      ensures parsed == NotParsed && Valid()
    {
      this.group := group;
      this.matchStr := matchStr;
      this.start := start;
      this.end := end;
      parsed := NotParsed;
    }

    /**
      `match_parsed`: the first read parses and fills the cache, later reads
      return the cache; every read gives the same outcome.
    */
    method MatchParsed() returns (r: Parsed)
      requires Valid()
      modifies this
      ensures Valid() && r == parsed
      ensures r == Outcome(group.parse(matchStr))
      ensures old(parsed) != NotParsed ==> parsed == old(parsed)
    {
      if parsed == NotParsed {
        parsed := Outcome(group.parse(matchStr));
      }
      r := parsed;
    }

    /** `can_parse`: false exactly when the parse failed. */
    method CanParse() returns (b: bool)
      requires Valid()
      modifies this
      ensures Valid() && parsed == Outcome(group.parse(matchStr))
      ensures b <==> group.parse(matchStr).Ok?
    {
      var p := MatchParsed();
      b := p != ParseFail;
    }

    /** `get_match`; without `parse` the cache is left alone. */
    method GetMatch(parse: bool, raiseOnUnparsed: bool) returns (r: Result<Value>)
      requires Valid()
      modifies this
      ensures Valid()
      ensures r == MatchValue(Outcome(group.parse(matchStr)), matchStr, parse, raiseOnUnparsed)
      ensures parse ==> parsed == Outcome(group.parse(matchStr))
      ensures !parse ==> parsed == old(parsed)
    {
      if parse {
        var ok := CanParse();
        if ok {
          var p := MatchParsed();
          return Ok(p.value);
        }
        if raiseOnUnparsed {
          return Err(ValueError);
        }
      }
      return Ok(Str(matchStr));
    }
  }

  /**
    `group.py` defines no `parse` method, so as written every call of
    `group.parse` raises AttributeError, which `match_parsed` catches: the
    outcome is PARSE_FAIL, and asking for the parsed value gives a
    ValueError when raising is on and the matched text otherwise.
  */
  lemma MissingParserFails(s: string, parse: string -> Result<Value>, raiseOnUnparsed: bool)
    requires forall t :: parse(t) == Err(AttributeError)
    ensures Outcome(parse(s)) == ParseFail
    ensures MatchValue(Outcome(parse(s)), s, true, raiseOnUnparsed) == if raiseOnUnparsed then Err(ValueError) else Ok(Str(s))
  {
    assert parse(s) == Err(AttributeError);
  }

  /** The value `get_match` gives for `m`, whatever the state of its cache. */
  function ValueOf(m: Match, parse: bool, raiseOnUnparsed: bool): Result<Value> {
    MatchValue(Outcome(m.group.parse(m.matchStr)), m.matchStr, parse, raiseOnUnparsed)
  }

  // ---------------------------------------------------------------------
  // Matches

  /** The groups of a list of matches. */
  function GroupsOf(ms: seq<Match>): set<Group> {
    set m | m in ms :: m.group
  }

  /** `a` keeps some of the elements of `b`, in the same order. */
  predicate Subsequence<T(==)>(a: seq<T>, b: seq<T>)
    decreases |b|
  {
    if |a| == 0 then true
    else if |b| == 0 then false
    else if a[0] == b[0] then Subsequence(a[1..], b[1..])
    else Subsequence(a, b[1..])
  }

  lemma {:induction false} SubsequenceReflexive<T>(a: seq<T>)
    ensures Subsequence(a, a)
  {
    if |a| > 0 {
      SubsequenceReflexive(a[1..]);
    }
  }

  /** `[m for m in ms if not m.group.discard]`. */
  function KeepUndiscarded(ms: seq<Match>): (r: seq<Match>)
    reads GroupsOf(ms)
    ensures forall i :: 0 <= i < |r| ==> r[i] in ms && !r[i].group.discard
    ensures forall i :: 0 <= i < |ms| && !ms[i].group.discard ==> ms[i] in r
    ensures Subsequence(r, ms)
    ensures (forall i :: 0 <= i < |ms| ==> !ms[i].group.discard) ==> r == ms
  {
    if |ms| == 0 then []
    else
      var rest := KeepUndiscarded(ms[1..]);
      assert forall i :: 1 <= i < |ms| ==> ms[1..][i - 1] == ms[i];
      if ms[0].group.discard then rest
      else
        assert ([ms[0]] + rest)[1..] == rest;
        [ms[0]] + rest
  }

  /** The names of the groups, in order. */
  function Names(groups: seq<Group>): (r: seq<string>)
    reads groups
    ensures |r| == |groups| && forall i :: 0 <= i < |groups| ==> r[i] == groups[i].name
  {
    if |groups| == 0 then []
    else Names(groups[..|groups| - 1]) + [groups[|groups| - 1].name]
  }

  /**
    The first error of a list of reads, or the list of values (the list
    comprehension in `get_values`, with `raise_on_unparsed` left on).
  */
  function ValuesOf(ms: seq<Match>, parse: bool): (r: Result<seq<Value>>)
    ensures r.Ok? <==> forall i :: 0 <= i < |ms| ==> ValueOf(ms[i], parse, true).Ok?
    ensures r.Err? ==> r.error == ValueError
    ensures r.Ok? ==> |r.value| == |ms| && forall i :: 0 <= i < |ms| ==> r.value[i] == ValueOf(ms[i], parse, true).value
  {
    if |ms| == 0 then Ok([])
    else
      var first :- ValueOf(ms[0], parse, true);
      var rest :- ValuesOf(ms[1..], parse);
      assert forall i :: 1 <= i < |ms| ==> ms[1..][i - 1] == ms[i];
      Ok([first] + rest)
  }

  /** The matches of one filename and the groups of the pattern. */
  class Matches {
    var matches: seq<Match>
    var groups: seq<Group>
    var dateIsFirstClass: bool

    /** One match per group, each with a consistent cache. */
    predicate Valid()
      reads this, set m | m in matches
    {
      |matches| == |groups| && forall i :: 0 <= i < |matches| ==> matches[i].Valid()
    }

    constructor (matches: seq<Match>, groups: seq<Group>)
      requires |matches| == |groups|
      requires forall i :: 0 <= i < |matches| ==> matches[i].Valid()
      ensures this.matches == matches && this.groups == groups && dateIsFirstClass
      ensures Valid()
    {
      this.matches := matches;
      this.groups := groups;
      dateIsFirstClass := true;
    }

    /**
      `get_matches`: the matches of the selected groups in index order,
      without the discarded ones unless `keepDiscard`.
    */
    function GetMatches(key: Key, keepDiscard: bool): (r: Result<seq<Match>>)
      reads this, groups, GroupsOf(matches)
      ensures GroupsIndices(Names(groups), key, dateIsFirstClass).Err? ==>
        r == Err(GroupsIndices(Names(groups), key, dateIsFirstClass).error)
      ensures r.Ok? ==> forall i :: 0 <= i < |r.value| ==> r.value[i] in matches && (keepDiscard || !r.value[i].group.discard)
      ensures GroupsIndices(Names(groups), key, dateIsFirstClass).Ok? ==>
        var sel := GroupsIndices(Names(groups), key, dateIsFirstClass).value;
        && (r.Ok? <==> PickAll(matches, sel).Ok?)
        && (r.Ok? ==> Subsequence(r.value, PickAll(matches, sel).value))
        && (r.Ok? && keepDiscard ==> r.value == PickAll(matches, sel).value)
        && (r.Ok? ==>
              forall i :: 0 <= i < |sel| && (keepDiscard || !PickAll(matches, sel).value[i].group.discard)
                ==> PickAll(matches, sel).value[i] in r.value)
    {
      var selected :- GroupsIndices(Names(groups), key, dateIsFirstClass);
      var picked :- PickAll(matches, selected);
      assert forall i :: 0 <= i < |picked| ==> picked[i] in matches;
      SubsequenceReflexive(picked);
      Ok(if keepDiscard then picked else KeepUndiscarded(picked))
    }

    /** `get_values`, specified without reference to the caches. */
    function Values(key: Key, parse: bool, keepDiscard: bool): (r: Result<seq<Value>>)
      reads this, groups, GroupsOf(matches)
      ensures GetMatches(key, keepDiscard).Err? ==> r == Err(GetMatches(key, keepDiscard).error)
      ensures GetMatches(key, keepDiscard).Ok? ==> r == ValuesOf(GetMatches(key, keepDiscard).value, parse)
    {
      var ms :- GetMatches(key, keepDiscard);
      ValuesOf(ms, parse)
    }

    /**
      `get_value`: the value of the first selected match; an empty selection
      raises KeyError. Later differing values only log a warning.
    */
    function Value(key: Key, parse: bool, keepDiscard: bool): (r: Result<Value>)
      reads this, groups, GroupsOf(matches)
      ensures Values(key, parse, keepDiscard).Ok? ==>
        var vs := Values(key, parse, keepDiscard).value;
        (r.Ok? <==> |vs| > 0) && (r.Ok? ==> r.value == vs[0]) && (r.Err? ==> r.error == KeyError)
      ensures Values(key, parse, keepDiscard).Err? ==> r.Err? && r.error == Values(key, parse, keepDiscard).error
    {
      var vs :- Values(key, parse, keepDiscard);
      if |vs| == 0 then Err(KeyError) else Ok(vs[0])
    }

    method GetValues(key: Key, parse: bool, keepDiscard: bool) returns (r: Result<seq<Value>>)
      requires Valid()
      modifies set m | m in matches
      ensures Valid()
      ensures r == old(Values(key, parse, keepDiscard))
    {
      var sel := GetMatches(key, keepDiscard);
      if sel.Err? {
        return Err(sel.error);
      }
      var ms := sel.value;
      assert ValuesOf(ms, parse) == Values(key, parse, keepDiscard);
      ghost var spec := ValuesOf(ms, parse);
      r := ReadAll(ms, parse);
      assert r == spec;
      assert forall k :: 0 <= k < |matches| && matches[k] !in ms ==> unchanged(matches[k]);
    }

    method GetValue(key: Key, parse: bool, keepDiscard: bool) returns (r: Result<Value>)
      requires Valid()
      modifies set m | m in matches
      ensures Valid()
      ensures r == old(Value(key, parse, keepDiscard))
    {
      var values := GetValues(key, parse, keepDiscard);
      if values.Err? {
        return Err(values.error);
      }
      if |values.value| == 0 {
        return Err(KeyError);
      }
      return Ok(values.value[0]);
    }

    /** `matches[key]`: the first parsed value, discarded groups left out. */
    method GetItem(key: Key) returns (r: Result<Value>)
      requires Valid()
      modifies set m | m in matches
      ensures Valid()
      ensures r == old(Value(key, true, false))
    {
      r := GetValue(key, true, false);
    }
  }

  /** The list comprehension of `get_values`: reads every match in order, stopping at the first error. */
  method ReadAll(ms: seq<Match>, parse: bool) returns (r: Result<seq<Value>>)
    requires forall i :: 0 <= i < |ms| ==> ms[i].Valid()
    modifies set m | m in ms
    ensures forall m :: m in ms ==> m.Valid()
    ensures r == ValuesOf(ms, parse)
  {
    var values: seq<Value> := [];
    for i := 0 to |ms|
      invariant forall j :: 0 <= j < |ms| ==> ms[j].Valid()
      invariant |values| == i
      invariant forall j :: 0 <= j < i ==> ValueOf(ms[j], parse, true).Ok? && values[j] == ValueOf(ms[j], parse, true).value
    {
      var v := ms[i].GetMatch(parse, true);
      if v.Err? {
        return Err(v.error);
      }
      values := values + [v.value];
    }
    assert ValuesOf(ms, parse).Ok?;
    assert ValuesOf(ms, parse).value == values;
    return Ok(values);
  }

  /**
    Indexing with a key whose every selected group is discarded raises
    KeyError, even though the groups exist.
  */
  lemma {:induction false} DiscardedKeyMisses(ms: Matches, key: Key)
    requires GroupsIndices(Names(ms.groups), key, ms.dateIsFirstClass).Ok?
    requires PickAll(ms.matches, GroupsIndices(Names(ms.groups), key, ms.dateIsFirstClass).value).Ok?
    requires var picked := PickAll(ms.matches, GroupsIndices(Names(ms.groups), key, ms.dateIsFirstClass).value).value;
      forall i :: 0 <= i < |picked| ==> picked[i].group.discard
    ensures ms.Value(key, true, false) == Err(KeyError)
    ensures ms.GetMatches(key, true).Ok? && |ms.GetMatches(key, true).value| > 0
  {
    var r := ms.GetMatches(key, false);
    assert r.Ok? && |r.value| == 0;
    assert ms.Values(key, true, false) == Ok([]);
    var sel := GroupsIndices(Names(ms.groups), key, ms.dateIsFirstClass).value;
    assert sel[0] in sel;
  }

  /** The first value wins: `get_value` is the value of the first kept match. */
  lemma {:induction false} FirstValueWins(ms: Matches, key: Key, parse: bool, keepDiscard: bool)
    requires ms.GetMatches(key, keepDiscard).Ok?
    requires |ms.GetMatches(key, keepDiscard).value| > 0
    requires ValuesOf(ms.GetMatches(key, keepDiscard).value, parse).Ok?
    ensures ms.Value(key, parse, keepDiscard) == ValueOf(ms.GetMatches(key, keepDiscard).value[0], parse, true)
  {
  }

  /**
    `from_filename`, given the full match of the filename against the
    pattern (None when it does not match): one fresh, unparsed match per
    group, in order, or IndexError when the capture count differs.
  */
  method FromFilename(filename: string, captures: Option<seq<Capture>>, groups: seq<Group>)
    returns (r: Result<Option<Matches>>)
    ensures captures.None? ==> r == Ok(None)
    ensures captures.Some? && |captures.value| != |groups| ==> r == Err(IndexError)
    ensures captures.Some? && |captures.value| == |groups| ==>
      && r.Ok? && r.value.Some?
      && fresh(r.value.value)
      && r.value.value.Valid()
      && r.value.value.groups == groups && r.value.value.dateIsFirstClass
      && |r.value.value.matches| == |groups|
      && forall i :: 0 <= i < |groups| ==>
        var m := r.value.value.matches[i];
        && fresh(m) && m.group == groups[i] && m.parsed == NotParsed
        && m.matchStr == captures.value[i].text
        && m.start == captures.value[i].start && m.end == captures.value[i].end
  {
    if captures.None? {
      return Ok(None);
    }
    var caps := captures.value;
    if |groups| != |caps| {
      return Err(IndexError);
    }
    var ms: seq<Match> := [];
    for i := 0 to |groups|
      invariant |ms| == i
      invariant forall j :: 0 <= j < i ==>
        && fresh(ms[j]) && ms[j].group == groups[j] && ms[j].parsed == NotParsed
        && ms[j].matchStr == caps[j].text && ms[j].start == caps[j].start && ms[j].end == caps[j].end
    {
      var m := new Match(groups[i], caps[i].text, caps[i].start, caps[i].end);
      ms := ms + [m];
    }
    var result := new Matches(ms, groups);
    return Ok(Some(result));
  }
}
