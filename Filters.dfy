/**
  `filters.py`: the filters a finder can apply to its files, and the ordered
  list that holds them. A filter is a record of its kind (plain, on some
  groups, on the date), the user function, the keyword arguments stored with
  it and its name. User functions are code the model cannot see: what they
  return is a parameter.
*/
module Filters {
  import opened Common
  import opened Strings
  import opened Matching

  /** A user callable: its identity and its `__name__` ("" when it has none). */
  datatype UserFunc = UserFunc(id: nat, name: string)

  /** Keyword arguments stored with a filter (the `functools.partial` of the source). */
  type Kwargs = seq<(string, Value)>

  /** `default_date`: none, a date, or a mapping from date elements to values. */
  datatype DefaultDate = NoDefault | OnDate(date: DateTime) | Elements(values: map<string, int>)

  /** The three classes of filter. */
  datatype Kind =
    | Plain
    | ByGroup(indices: seq<int>, passUnparsed: bool)
    | ByDate(defaultDate: DefaultDate)

  /** A filter: its class, the user function, the stored keyword arguments and its name. */
  datatype Filter = Filter(kind: Kind, func: UserFunc, kwargs: Kwargs, name: string)

  /**
    The file a filter is asked about, with what the user functions answer for
    it: a plain filter's answer for the whole file, a group filter's answer
    for one value, a date filter's answer for a date, and the date
    `Matches.get_date` recovers for a given `default_date`.
  */
  datatype Subject = Subject(
    filename: string,
    matches: seq<Match>,
    onFile: (UserFunc, Kwargs, string) -> bool,
    onValue: (UserFunc, Kwargs, Parsed) -> bool,
    onDate: (UserFunc, Kwargs, DateTime) -> bool,
    dateOf: DefaultDate -> Result<DateTime>)

  // ---------------------------------------------------------------------
  // Names

  /** `map(str, indices)`. */
  function IndexStrings(indices: seq<int>): (r: seq<string>)
    ensures |r| == |indices| && forall k :: 0 <= k < |indices| ==> r[k] == IntToString(indices[k])
  {
    seq(|indices|, k requires 0 <= k < |indices| => IntToString(indices[k]))
  }

  /**
    `_get_name`: the user function's name; a group filter puts its indices,
    comma separated, and a colon in front of it.
  */
  function NameOf(kind: Kind, func: UserFunc): string {
    if kind.ByGroup? then Join(",", IndexStrings(kind.indices)) + ":" + func.name else func.name
  }

  /** The name of a filter is the one its class, indices and function give it. */
  predicate Named(f: Filter) {
    f.name == NameOf(f.kind, f.func)
  }

  /** `Filter(func, **kwargs)` and its subclasses: the name is computed on creation. */
  function NewFilter(kind: Kind, func: UserFunc, kwargs: Kwargs): (r: Filter)
    ensures r.kind == kind && r.func == func && r.kwargs == kwargs && Named(r)
  {
    Filter(kind, func, kwargs, NameOf(kind, func))
  }

  /** `str(i)` holds digits and at most a minus sign. */
  lemma IntToStringChars(i: int)
    ensures forall k :: 0 <= k < |IntToString(i)| ==> IsDigit(IntToString(i)[k]) || IntToString(i)[k] == '-'
  {
  }

  /** Every character of a join is the separator or a character of a part. */
  lemma {:induction false} JoinChars(c: char, parts: seq<string>, x: char)
    requires x != c && forall k :: 0 <= k < |parts| ==> x !in parts[k]
    ensures x !in Join([c], parts)
  {
    if |parts| > 1 {
      JoinChars(c, parts[1..], x);
    }
  }

  /**
    The indices of a group filter can be read back from its name: the text
    before the first colon, split on commas, gives `str` of each index, and
    the text after it is the user function's name.
  */
  lemma GroupNameIndices(indices: seq<int>, passUnparsed: bool, func: UserFunc)
    requires |indices| >= 1
    ensures var parts := SplitOnce(NameOf(ByGroup(indices, passUnparsed), func), ':');
      && |parts| == 2 && parts[1] == func.name
      && SplitAll(parts[0], ',') == IndexStrings(indices)
      && forall k :: 0 <= k < |indices| ==> ParseInt(SplitAll(parts[0], ',')[k]) == Ok(indices[k])
  {
    var strs := IndexStrings(indices);
    var joined := Join([','], strs);
    assert "," == [','];
    forall k | 0 <= k < |strs| ensures ':' !in strs[k] && ',' !in strs[k] {
      IntToStringChars(indices[k]);
    }
    JoinChars(',', strs, ':');
    var name := NameOf(ByGroup(indices, passUnparsed), func);
    assert name == joined + [':'] + func.name;
    FirstIndexAfter(joined, ':', func.name);
    assert name[..|joined|] == joined && name[|joined| + 1..] == func.name;
    SplitJoin(strs, ',');
    forall k | 0 <= k < |indices| ensures ParseInt(strs[k]) == Ok(indices[k]) {
      ParseIntToString(indices[k]);
    }
  }

  /** The class name `str` shows. */
  function ClassName(kind: Kind): string {
    match kind
    case Plain => "Filter"
    case ByGroup(_, _) => "FilterByGroup"
    case ByDate(_) => "FilterByDate"
  }

  /** `str(filter)`: `<Class:name>`. */
  function Describe(f: Filter): string {
    "<" + ClassName(f.kind) + ":" + f.name + ">"
  }

  /** `str(filter_list)`: the tags of the filters one after the other, space separated. */
  function DescribeAll(fs: seq<Filter>): string {
    Join(" ", seq(|fs|, k requires 0 <= k < |fs| => Describe(fs[k])))
  }

  /**
    `str(filter)` reads back: between the angle brackets, the first ':'
    separates the class name from the filter's name (for a group filter,
    GroupNameIndices then gives back its indices and function name).
  */
  lemma DescribeReadsBack(f: Filter)
    ensures var d := Describe(f);
      && |d| >= 2 && d[0] == '<' && d[|d| - 1] == '>'
      && SplitOnce(d[1..|d| - 1], ':') == [ClassName(f.kind), f.name]
  {
    var c := ClassName(f.kind);
    assert ':' !in c;
    var d := Describe(f);
    var inner := c + [':'] + f.name;
    assert d == ['<'] + inner + ['>'];
    assert d[1..|d| - 1] == inner;
    FirstIndexAfter(c, ':', f.name);
    assert inner[..|c|] == c && inner[|c| + 1..] == f.name;
  }

  /** A group filter on groups 0 and 1 shows its indices before its function's name. */
  lemma DescribeGroupFilter(func: UserFunc)
    requires func.name == "group1"
    ensures Describe(NewFilter(ByGroup([0, 1], false), func, [])) == "<FilterByGroup:0,1:group1>"
  {
    var f := NewFilter(ByGroup([0, 1], false), func, []);
    IndicesZeroOne();
    assert f.name == "0,1" + ":" + "group1";
    assert ClassName(f.kind) == "FilterByGroup";
    assert "<" + "FilterByGroup" + ":" + ("0,1" + ":" + "group1") + ">" == "<FilterByGroup:0,1:group1>";
  }

  /** The indices 0 and 1 are written "0,1". */
  lemma IndicesZeroOne()
    ensures Join(",", IndexStrings([0, 1])) == "0,1"
  {
    var strs := IndexStrings([0, 1]);
    assert strs == ["0", "1"] by {
      assert IntToString(0) == "0" && IntToString(1) == "1";
    }
    assert Join(",", strs[1..]) == "1";
  }

  /** A date filter then a plain one show as two tags separated by a space. */
  lemma DescribeList(date1: UserFunc, base1: UserFunc)
    requires date1.name == "date1" && base1.name == "base1"
    ensures DescribeAll([NewFilter(ByDate(NoDefault), date1, []), NewFilter(Plain, base1, [])])
      == "<FilterByDate:date1> <Filter:base1>"
  {
    var fs := [NewFilter(ByDate(NoDefault), date1, []), NewFilter(Plain, base1, [])];
    var tags := seq(|fs|, k requires 0 <= k < |fs| => Describe(fs[k]));
    assert tags[0] == "<" + "FilterByDate" + ":" + "date1" + ">" by {
      assert fs[0].name == "date1";
    }
    assert tags[1] == "<" + "Filter" + ":" + "base1" + ">" by {
      assert fs[1].name == "base1";
    }
    assert Join(" ", tags) == tags[0] + " " + tags[1] by {
      assert Join(" ", tags[1..]) == tags[1];
    }
    ListTags();
  }

  /** The two tags of the list, assembled from their parts. */
  lemma ListTags()
    ensures ("<" + "FilterByDate" + ":" + "date1" + ">") + " " + ("<" + "Filter" + ":" + "base1" + ">")
      == "<FilterByDate:date1> <Filter:base1>"
  {
  }

  // ---------------------------------------------------------------------
  // is_valid

  /**
    What a group filter hands the user function for match `m`: the parsed
    value, or, when parsing fails, the matched string if `pass_unparsed` is
    set and the parse-failure marker otherwise.
  */
  function ArgOf(m: Match, passUnparsed: bool): (r: Parsed)
    ensures r != NotParsed
    ensures r == ParseFail <==> !passUnparsed && m.group.parse(m.matchStr).Err?
    ensures m.group.parse(m.matchStr).Ok? ==> r == Parsed(m.group.parse(m.matchStr).value)
    ensures passUnparsed && m.group.parse(m.matchStr).Err? ==> r == Parsed(Str(m.matchStr))
  {
    var outcome := Outcome(m.group.parse(m.matchStr));
    if outcome == ParseFail && passUnparsed then Parsed(Str(m.matchStr)) else outcome
  }

  /**
    With the group parser missing as written (every call raises
    AttributeError), a group filter is only ever given the matched text or
    PARSE_FAIL.
  */
  lemma MissingParserArgument(m: Match, passUnparsed: bool)
    requires forall t :: m.group.parse(t) == Err(AttributeError)
    ensures ArgOf(m, passUnparsed) == if passUnparsed then Parsed(Str(m.matchStr)) else ParseFail
  {
    assert m.group.parse(m.matchStr).Err?;
  }

  /** The values a group filter collects, one per index; a bad index raises IndexError. */
  function GroupArgs(ms: seq<Match>, indices: seq<int>, passUnparsed: bool): (r: Result<seq<Parsed>>)
    ensures r.Ok? <==> forall k :: 0 <= k < |indices| ==> -|ms| <= indices[k] < |ms|
    ensures r.Err? ==> r.error == IndexError
    ensures r.Ok? ==>
      && |r.value| == |indices|
      && forall k :: 0 <= k < |indices| ==> r.value[k] == ArgOf(PyIndex(ms, indices[k]).value, passUnparsed)
  {
    var picked :- PickAll(ms, indices);
    Ok(seq(|picked|, k requires 0 <= k < |picked| => ArgOf(picked[k], passUnparsed)))
  }

  /** `all(self.partial_func(v) for v in values)`. */
  predicate AllAccepted(f: Filter, s: Subject, args: seq<Parsed>) {
    forall k :: 0 <= k < |args| ==> s.onValue(f.func, f.kwargs, args[k])
  }

  /**
    `filter.is_valid(finder, filename, matches)`: a plain filter asks the user
    function about the file, a group filter asks it about every collected
    value and keeps the file only if it accepts them all, a date filter asks
    it about the recovered date.
  */
  function Check(f: Filter, s: Subject): (r: Result<bool>)
  {
    match f.kind
    case Plain => Ok(s.onFile(f.func, f.kwargs, s.filename))
    case ByGroup(indices, passUnparsed) =>
      var args :- GroupArgs(s.matches, indices, passUnparsed);
      Ok(AllAccepted(f, s, args))
    case ByDate(defaultDate) =>
      var date :- s.dateOf(defaultDate);
      Ok(s.onDate(f.func, f.kwargs, date))
  }

  /**
    A group filter accepts the file exactly when every index is in range and
    the user function accepts the value collected for each; with no index at
    all it accepts every file.
  */
  lemma GroupCheck(f: Filter, s: Subject)
    requires f.kind.ByGroup?
    ensures Check(f, s).Err? <==> exists k :: 0 <= k < |f.kind.indices| && !(-|s.matches| <= f.kind.indices[k] < |s.matches|)
    ensures Check(f, s) == Ok(true) <==>
      && (forall k :: 0 <= k < |f.kind.indices| ==> -|s.matches| <= f.kind.indices[k] < |s.matches|)
      && (forall k :: 0 <= k < |f.kind.indices| ==>
            s.onValue(f.func, f.kwargs, ArgOf(PyIndex(s.matches, f.kind.indices[k]).value, f.kind.passUnparsed)))
    ensures |f.kind.indices| == 0 ==> Check(f, s) == Ok(true)
  {
    var args := GroupArgs(s.matches, f.kind.indices, f.kind.passUnparsed);
    if args.Ok? {
      assert Check(f, s) == Ok(AllAccepted(f, s, args.value));
    }
  }

  /**
    Without `pass_unparsed` the user function sees the parse-failure marker
    for a match that does not parse; with it, the matched string.
  */
  lemma UnparsedArgument(f: Filter, s: Subject, k: nat)
    requires f.kind.ByGroup? && k < |f.kind.indices|
    requires 0 <= f.kind.indices[k] < |s.matches|
    requires s.matches[f.kind.indices[k]].group.parse(s.matches[f.kind.indices[k]].matchStr).Err?
    ensures GroupArgs(s.matches, f.kind.indices, f.kind.passUnparsed).Ok? ==>
      GroupArgs(s.matches, f.kind.indices, f.kind.passUnparsed).value[k]
        == if f.kind.passUnparsed then Parsed(Str(s.matches[f.kind.indices[k]].matchStr)) else ParseFail
  {
  }

  /**
    `all(filt.is_valid(...) for filt in filters)`: the filters are asked in
    order and the first that rejects the file, or raises, ends the walk.
  */
  function AllPass(fs: seq<Filter>, s: Subject): (r: Result<bool>)
    ensures r == Ok(true) <==> forall k :: 0 <= k < |fs| ==> Check(fs[k], s) == Ok(true)
  {
    if |fs| == 0 then Ok(true)
    else
      var ok :- Check(fs[0], s);
      if !ok then Ok(false)
      else
        var rest := AllPass(fs[1..], s);
        assert forall k :: 1 <= k < |fs| ==> fs[1..][k - 1] == fs[k];
        rest
  }

  /** When the filters before `k` accept and filter `k` does not, the list answers what filter `k` answers. */
  lemma {:induction false} AllPassStops(fs: seq<Filter>, s: Subject, k: nat)
    requires k < |fs|
    requires forall j :: 0 <= j < k ==> Check(fs[j], s) == Ok(true)
    requires Check(fs[k], s) != Ok(true)
    ensures AllPass(fs, s) == Check(fs[k], s)
  {
    if k > 0 {
      assert forall j :: 0 <= j < k - 1 ==> fs[1..][j] == fs[j + 1];
      AllPassStops(fs[1..], s, k - 1);
    }
  }

  // ---------------------------------------------------------------------
  // add_by_group's keyword arguments

  /** The group filter `add_by_group` builds as written: its keyword arguments are not passed on. */
  function GroupFilterAsWritten(func: UserFunc, indices: seq<int>, passUnparsed: bool, kwargs: Kwargs): Filter {
    NewFilter(ByGroup(indices, passUnparsed), func, [])
  }

  /** The group filter `add_by_group` is meant to build, keeping its keyword arguments. */
  function GroupFilter(func: UserFunc, indices: seq<int>, passUnparsed: bool, kwargs: Kwargs): (r: Filter)
    ensures r.kind == ByGroup(indices, passUnparsed) && r.func == func && r.kwargs == kwargs && Named(r)
  {
    NewFilter(ByGroup(indices, passUnparsed), func, kwargs)
  }

  /**
    As written, the keyword arguments never reach the user function: the
    filter judges every file as the filter without them would, and it is
    not the filter that was asked for.
  */
  lemma GroupKwargsIgnored(func: UserFunc, indices: seq<int>, passUnparsed: bool, kwargs: Kwargs, s: Subject)
    requires |kwargs| > 0
    ensures Check(GroupFilterAsWritten(func, indices, passUnparsed, kwargs), s) == Check(GroupFilter(func, indices, passUnparsed, []), s)
    ensures GroupFilterAsWritten(func, indices, passUnparsed, kwargs) != GroupFilter(func, indices, passUnparsed, kwargs)
  {
  }

  /**
    With the keyword arguments kept, the user function is asked about each
    collected value together with them.
  */
  lemma GroupKwargsPassed(func: UserFunc, indices: seq<int>, passUnparsed: bool, kwargs: Kwargs, s: Subject)
    ensures var f := GroupFilter(func, indices, passUnparsed, kwargs);
      Check(f, s) == Ok(true) <==>
        && (forall k :: 0 <= k < |indices| ==> -|s.matches| <= indices[k] < |s.matches|)
        && (forall k :: 0 <= k < |indices| ==>
              s.onValue(func, kwargs, ArgOf(PyIndex(s.matches, indices[k]).value, passUnparsed)))
  {
    GroupCheck(GroupFilter(func, indices, passUnparsed, kwargs), s);
  }

  // ---------------------------------------------------------------------
  // remove_by_group and remove_by_date

  /** `[i for i in xs if i not in drop]`. */
  function Without(xs: seq<int>, drop: seq<int>): (r: seq<int>)
    ensures forall x :: x in r <==> x in xs && x !in drop
    ensures (forall k :: 0 <= k < |xs| ==> xs[k] !in drop) ==> r == xs
  {
    if |xs| == 0 then []
    else
      var front := xs[..|xs| - 1];
      var last := xs[|xs| - 1];
      assert xs == front + [last];
      assert forall x :: x in xs <==> x in front || x == last;
      Without(front, drop) + if last in drop then [] else [last]
  }

  /**
    What `remove_by_group` does to one filter: a group filter loses the
    dropped indices and is renamed, or disappears when none is left; other
    filters are kept as they are.
  */
  function Pruned(f: Filter, drop: seq<int>): (r: Option<Filter>)
  {
    match f.kind
    case ByGroup(indices, passUnparsed) =>
      var kept := Without(indices, drop);
      if |kept| == 0 then None else Some(NewFilter(ByGroup(kept, passUnparsed), f.func, f.kwargs))
    case _ => Some(f)
  }

  /** The filters that `remove_by_group(drop)` leaves, in order. */
  function RemovedGroups(fs: seq<Filter>, drop: seq<int>): (r: seq<Filter>)
    ensures |r| <= |fs|
    ensures forall k :: 0 <= k < |r| && r[k].kind.ByGroup? ==>
      |r[k].kind.indices| > 0 && forall x :: x in r[k].kind.indices ==> x !in drop
    ensures (forall k :: 0 <= k < |fs| ==> Named(fs[k])) ==> forall k :: 0 <= k < |r| ==> Named(r[k])
  {
    if |fs| == 0 then []
    else
      var front := RemovedGroups(fs[..|fs| - 1], drop);
      match Pruned(fs[|fs| - 1], drop)
      case None => front
      case Some(g) => front + [g]
  }

  /**
    `remove_by_group` treats each filter on its own, in list order: the
    result for a list is the results for its parts, one after the other.
  */
  lemma {:induction false} RemovedGroupsAppend(a: seq<Filter>, b: seq<Filter>, drop: seq<int>)
    ensures RemovedGroups(a + b, drop) == RemovedGroups(a, drop) + RemovedGroups(b, drop)
    decreases |b|
  {
    if |b| == 0 {
      assert a + b == a;
    } else {
      var front := b[..|b| - 1];
      var last := b[|b| - 1];
      assert (a + b)[..|a + b| - 1] == a + front;
      assert (a + b)[|a + b| - 1] == last;
      RemovedGroupsAppend(a, front, drop);
      match Pruned(last, drop)
      case None =>
      case Some(g) =>
        assert RemovedGroups(a + b, drop) == RemovedGroups(a + front, drop) + [g];
        assert RemovedGroups(b, drop) == RemovedGroups(front, drop) + [g];
    }
  }

  /**
    What becomes of one filter: a group filter with indices left survives,
    renamed, with those indices, its function, its keyword arguments and its
    unparsed option; one with none left is removed; any other filter stays
    as it is.
  */
  lemma RemovedGroupsOne(f: Filter, drop: seq<int>)
    ensures f.kind.ByGroup? && |Without(f.kind.indices, drop)| > 0 ==>
      RemovedGroups([f], drop) == [NewFilter(ByGroup(Without(f.kind.indices, drop), f.kind.passUnparsed), f.func, f.kwargs)]
    ensures f.kind.ByGroup? && |Without(f.kind.indices, drop)| == 0 ==> RemovedGroups([f], drop) == []
    ensures !f.kind.ByGroup? ==> RemovedGroups([f], drop) == [f]
  {
    assert [f][..0] == [];
  }

  /** The filters that are not group filters, in order. */
  function NonGroup(fs: seq<Filter>): seq<Filter> {
    if |fs| == 0 then []
    else NonGroup(fs[..|fs| - 1]) + if fs[|fs| - 1].kind.ByGroup? then [] else [fs[|fs| - 1]]
  }

  /** `remove_by_group` leaves the other filters, and their order, untouched. */
  lemma {:induction false} RemovedGroupsKeepsOthers(fs: seq<Filter>, drop: seq<int>)
    ensures NonGroup(RemovedGroups(fs, drop)) == NonGroup(fs)
  {
    if |fs| > 0 {
      var front := fs[..|fs| - 1];
      RemovedGroupsKeepsOthers(front, drop);
      var r := RemovedGroups(fs, drop);
      var rf := RemovedGroups(front, drop);
      match Pruned(fs[|fs| - 1], drop)
      case None =>
      case Some(g) =>
        assert r == rf + [g];
        assert r[..|r| - 1] == rf;
    }
  }

  /**
    A list whose group filters are named, have indices, and have none to
    drop is left as it is.
  */
  lemma {:induction false} RemovedGroupsNothingToDrop(fs: seq<Filter>, drop: seq<int>)
    requires forall k :: 0 <= k < |fs| ==> Named(fs[k])
    requires forall k :: 0 <= k < |fs| && fs[k].kind.ByGroup? ==>
      |fs[k].kind.indices| > 0 && forall x :: x in fs[k].kind.indices ==> x !in drop
    ensures RemovedGroups(fs, drop) == fs
  {
    if |fs| > 0 {
      var front := fs[..|fs| - 1];
      var f := fs[|fs| - 1];
      assert forall k :: 0 <= k < |front| ==> front[k] == fs[k];
      RemovedGroupsNothingToDrop(front, drop);
      PrunedUnchanged(f, drop);
      assert RemovedGroups(fs, drop) == RemovedGroups(front, drop) + [f];
      assert fs == front + [f];
    }
  }

  /** A named filter with no index to drop is kept as it is. */
  lemma PrunedUnchanged(f: Filter, drop: seq<int>)
    requires Named(f)
    requires f.kind.ByGroup? ==> |f.kind.indices| > 0 && forall x :: x in f.kind.indices ==> x !in drop
    ensures Pruned(f, drop) == Some(f)
  {
    if f.kind.ByGroup? {
      assert Without(f.kind.indices, drop) == f.kind.indices;
    }
  }

  /** Removing the same groups twice is removing them once. */
  lemma RemovedGroupsIdempotent(fs: seq<Filter>, drop: seq<int>)
    requires forall k :: 0 <= k < |fs| ==> Named(fs[k])
    ensures RemovedGroups(RemovedGroups(fs, drop), drop) == RemovedGroups(fs, drop)
  {
    RemovedGroupsNothingToDrop(RemovedGroups(fs, drop), drop);
  }

  /**
    Even with nothing to drop, `remove_by_group` deletes the group filters
    that were created without any index.
  */
  lemma EmptyGroupFilterRemoved(f: Filter)
    requires f.kind.ByGroup? && |f.kind.indices| == 0
    ensures RemovedGroups([f], []) == []
  {
    assert [f][..0] == [];
  }

  /** The filters `remove_by_date` leaves: every one that is not a date filter, in order. */
  function WithoutDates(fs: seq<Filter>): (r: seq<Filter>)
    ensures forall f :: f in r <==> f in fs && !f.kind.ByDate?
    ensures (forall k :: 0 <= k < |fs| ==> !fs[k].kind.ByDate?) ==> r == fs
  {
    if |fs| == 0 then []
    else
      var front := fs[..|fs| - 1];
      var last := fs[|fs| - 1];
      assert fs == front + [last];
      assert forall k :: 0 <= k < |front| ==> front[k] == fs[k];
      assert forall f :: f in fs <==> f in front || f == last;
      var rest := WithoutDates(front);
      var r := rest + if last.kind.ByDate? then [] else [last];
      assert forall k :: 0 <= k < |rest| ==> r[k] == rest[k];
      assert !last.kind.ByDate? ==> r[|rest|] == last;
      r
  }

  /** Removing the date filters twice is removing them once. */
  lemma WithoutDatesIdempotent(fs: seq<Filter>)
    ensures WithoutDates(WithoutDates(fs)) == WithoutDates(fs)
  {
    var r := WithoutDates(fs);
    assert forall k :: 0 <= k < |r| ==> r[k] in r;
  }

  /** The two removals act on different filters, so their order does not matter. */
  lemma {:induction false} RemovalsCommute(fs: seq<Filter>, drop: seq<int>)
    ensures WithoutDates(RemovedGroups(fs, drop)) == RemovedGroups(WithoutDates(fs), drop)
  {
    if |fs| > 0 {
      var front := fs[..|fs| - 1];
      var last := fs[|fs| - 1];
      RemovalsCommute(front, drop);
      var rf := RemovedGroups(front, drop);
      var wf := WithoutDates(front);
      match Pruned(last, drop)
      case None =>
        assert WithoutDates(fs) == wf + [last];
        assert (wf + [last])[..|wf|] == wf;
      case Some(g) =>
        assert (rf + [g])[..|rf|] == rf;
        if last.kind.ByDate? {
          assert WithoutDates(fs) == wf;
        } else {
          assert WithoutDates(fs) == wf + [last];
          assert (wf + [last])[..|wf|] == wf;
        }
    }
  }

  // ---------------------------------------------------------------------
  // FilterList

  /** The filters of a finder, in the order they were added. */
  class FilterList {
    var filters: seq<Filter>

    /** Every filter carries the name its class, indices and function give it. */
    ghost predicate Valid()
      reads this
    {
      forall k :: 0 <= k < |filters| ==> Named(filters[k])
    }

    constructor ()
      ensures filters == [] && Valid()
    {
      filters := [];
    }

    /** `is_valid`: the file is kept when every filter accepts it. */
    function IsValid(s: Subject): (r: Result<bool>)
      reads this
      ensures r == Ok(true) <==> forall k :: 0 <= k < |filters| ==> Check(filters[k], s) == Ok(true)
      ensures |filters| == 0 ==> r == Ok(true)
    {
      AllPass(filters, s)
    }

    /** `add`: a plain filter at the end, which is returned. */
    method Add(func: UserFunc, kwargs: Kwargs) returns (f: Filter)
      requires Valid()
      modifies this
      ensures Valid()
      ensures f == NewFilter(Plain, func, kwargs) && filters == old(filters) + [f]
    {
      f := NewFilter(Plain, func, kwargs);
      filters := filters + [f];
    }

    /**
      `add_by_group`: a group filter at the end, which is returned, holding
      the keyword arguments it is given.
    */
    method AddByGroup(func: UserFunc, indices: seq<int>, passUnparsed: bool, kwargs: Kwargs) returns (f: Filter)
      requires Valid()
      modifies this
      ensures Valid()
      ensures f == GroupFilter(func, indices, passUnparsed, kwargs) && filters == old(filters) + [f]
    {
      f := GroupFilter(func, indices, passUnparsed, kwargs);
      filters := filters + [f];
    }

    /** `add_by_date`: a date filter at the end, which is returned. */
    method AddByDate(func: UserFunc, defaultDate: DefaultDate, kwargs: Kwargs) returns (f: Filter)
      requires Valid()
      modifies this
      ensures Valid()
      ensures f == NewFilter(ByDate(defaultDate), func, kwargs) && filters == old(filters) + [f]
    {
      f := NewFilter(ByDate(defaultDate), func, kwargs);
      filters := filters + [f];
    }

    /** `clear`: no filter left. */
    method Clear()
      modifies this
      ensures filters == [] && Valid()
    {
      filters := [];
    }

    /**
      `remove_by_group`: every group filter loses the given indices and is
      renamed, one left without any index is removed, other filters stay.
    */
    method RemoveByGroup(indices: seq<int>)
      requires Valid()
      modifies this
      ensures Valid()
      ensures filters == RemovedGroups(old(filters), indices)
    {
      var fs := filters;
      var kept: seq<Filter> := [];
      for i := 0 to |fs|
        invariant kept == RemovedGroups(fs[..i], indices)
      {
        assert fs[..i + 1][..i] == fs[..i];
        var f := fs[i];
        if f.kind.ByGroup? {
          var newIndices := Without(f.kind.indices, indices);
          if |newIndices| == 0 {
            continue;
          }
          f := NewFilter(ByGroup(newIndices, f.kind.passUnparsed), f.func, f.kwargs);
        }
        kept := kept + [f];
      }
      assert fs[..|fs|] == fs;
      filters := kept;
    }

    /** `remove_by_date`: every date filter is removed, the others stay in order. */
    method RemoveByDate()
      requires Valid()
      modifies this
      ensures Valid()
      ensures filters == WithoutDates(old(filters))
    {
      var kept := WithoutDates(filters);
      forall k | 0 <= k < |kept| ensures Named(kept[k]) {
        assert kept[k] in kept;
      }
      filters := kept;
    }
  }
}
