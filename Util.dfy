/**
  The helpers of `util.py`: turning one element of a date into a string or a
  value, selecting groups by key, and generating a name that is not taken.
*/
module Util {
  import opened Common
  import opened Strings

  /** The date elements filefinder knows how to read and write. */
  const DatetimeKeys := "YBmdjHMSFxX"

  /** The elements whose value stays a string (month name and the composites). */
  const StringElements := "xXFB"

  /**
    `datetime.strftime`, which is locale dependent for `%B`: a parameter of
    the model.
  */
  type Strftime = (DateTime, string) -> string

  // ---------------------------------------------------------------------
  // datetime_to_str / datetime_to_value

  /** The strftime directive used to render element `elt`. */
  function DirectiveOf(elt: string): (r: string)
    ensures elt == "x" ==> r == "%Y%m%d"
    ensures elt == "X" ==> r == "%H%M%S"
    ensures elt == "F" ==> r == "%Y-%m-%d"
    ensures elt != "x" && elt != "X" && elt != "F" ==> r == "%" + elt
  {
    if elt == "x" then "%Y%m%d"
    else if elt == "X" then "%H%M%S"
    else if elt == "F" then "%Y-%m-%d"
    else "%" + elt
  }

  /**
    The element `elt` of `date` as a string. The guard is Python's substring
    test, so any substring of the key list (the empty one, "Bm", ...) passes.
  */
  function DatetimeToStr(strftime: Strftime, date: DateTime, elt: string): (r: Result<string>)
    ensures r.Err? <==> !Contains(DatetimeKeys, elt)
    ensures r.Err? ==> r.error == KeyError
    ensures r.Ok? ==> r.value == strftime(date, DirectiveOf(elt))
  {
    if !Contains(DatetimeKeys, elt) then Err(KeyError)
    else Ok(strftime(date, DirectiveOf(elt)))
  }

  /** The element `elt` of `date` as a value: a string for `x X F B`, an int otherwise. */
  function DatetimeToValue(strftime: Strftime, date: DateTime, elt: string): (r: Result<Value>)
    ensures !Contains(DatetimeKeys, elt) ==> r == Err(KeyError)
    ensures r.Ok? && r.value.Str? ==> Contains(StringElements, elt)
    ensures r.Ok? && r.value.Num? ==> !Contains(StringElements, elt)
  {
    var formatted :- DatetimeToStr(strftime, date, elt);
    if Contains(StringElements, elt) then Ok(Str(formatted))
    else
      var n :- ParseInt(formatted);
      Ok(Num(n))
  }

  /** For every single key letter, `x X F B` give the rendered string unchanged. */
  lemma {:induction false} DatetimeStringElements(strftime: Strftime, date: DateTime, c: char)
    requires c in StringElements
    ensures DatetimeToValue(strftime, date, [c]) == Ok(Str(strftime(date, DirectiveOf([c]))))
  {
    ContainsChar(DatetimeKeys, c);
    ContainsChar(StringElements, c);
  }

  /**
    A numeric element rendered zero-padded (as strftime renders `%Y`, `%m`,
    `%d`, `%j`, `%H`, `%M`, `%S`) reads back as the number it renders.
  */
  lemma {:induction false} DatetimeNumericElements(strftime: Strftime, date: DateTime, c: char, n: nat, w: nat)
    requires c in DatetimeKeys && c !in StringElements
    requires strftime(date, "%" + [c]) == ZeroPad(n, w)
    ensures DatetimeToValue(strftime, date, [c]) == Ok(Num(n))
  {
    ContainsChar(DatetimeKeys, c);
    ContainsChar(StringElements, c);
    ParseIntZeroPad(n, w);
  }

  /** Any letter outside the key list raises KeyError. */
  lemma {:induction false} DatetimeUnknownElement(strftime: Strftime, date: DateTime, c: char)
    requires c !in DatetimeKeys
    ensures DatetimeToStr(strftime, date, [c]) == Err(KeyError)
    ensures DatetimeToValue(strftime, date, [c]) == Err(KeyError)
  {
    ContainsChar(DatetimeKeys, c);
  }

  /** The substring guard lets the two-letter element "Bm" through to strftime. */
  lemma SubstringElementAccepted(strftime: Strftime, date: DateTime, elt: string)
    requires elt == "Bm"
    ensures DatetimeToStr(strftime, date, elt) == Ok(strftime(date, "%Bm"))
  {
    assert OccursAt(DatetimeKeys, elt, 1);
    assert "%" + elt == "%Bm";
  }

  // ---------------------------------------------------------------------
  // get_groups_indices

  /**
    Whether a group named `name` is selected by the string key `key`; with
    `asDate` the `"date"` pseudo-key selects names that are substrings of the
    key list.
  */
  predicate Selects(name: string, key: string, asDate: bool) {
    if asDate then Contains(DatetimeKeys, name) else name == key
  }

  predicate StrictlyIncreasing(r: seq<int>) {
    forall i, j :: 0 <= i < j < |r| ==> r[i] < r[j]
  }

  /** A strictly increasing sequence is determined by its elements. */
  lemma {:induction false} IncreasingUnique(r: seq<int>, t: seq<int>)
    requires StrictlyIncreasing(r) && StrictlyIncreasing(t)
    requires forall k :: k in r <==> k in t
    ensures r == t
  {
    assert |t| > 0 ==> t[0] in t;
    if |r| != 0 {
      assert r[0] in r;
      assert |t| > 0;
      assert t[0] in t;
      assert r[0] == t[0] by {
        assert forall i :: 0 <= i < |t| ==> t[0] <= t[i];
        assert forall j :: 0 <= j < |r| ==> r[0] <= r[j];
      }
      forall k
        ensures k in r[1..] <==> k in t[1..]
      {
        if k in r[1..] {
          var a :| 1 <= a < |r| && r[a] == k;
          assert k in r && k != t[0];
        }
        if k in t[1..] {
          var a :| 1 <= a < |t| && t[a] == k;
          assert k in t && k != r[0];
        }
      }
      IncreasingUnique(r[1..], t[1..]);
      calc {
        r;
        [r[0]] + r[1..];
        [t[0]] + t[1..];
        t;
      }
    }
  }

  /** The indices, in order, of the names the key selects. */
  function SelectIndices(names: seq<string>, key: string, asDate: bool): (r: seq<int>)
    ensures StrictlyIncreasing(r)
    ensures forall k :: k in r <==> 0 <= k < |names| && Selects(names[k], key, asDate)
  {
    if |names| == 0 then []
    else
      var front := SelectIndices(names[..|names| - 1], key, asDate);
      assert forall k :: 0 <= k < |names| - 1 ==> names[..|names| - 1][k] == names[k];
      assert forall k :: k in front ==> k < |names| - 1;
      assert forall i :: 0 <= i < |front| ==> front[i] in front;
      if Selects(names[|names| - 1], key, asDate) then front + [|names| - 1] else front
  }

  /**
    The indices of the groups (given by their names) that `key` selects: an
    int is returned as is, a string selects by name (or, for `"date"`, by the
    substring test), anything else is a TypeError.
  */
  function GroupsIndices(names: seq<string>, key: Key, dateIsFirstClass: bool): (r: Result<seq<int>>)
    ensures key.IntKey? ==> r == Ok([key.i])
    ensures key.OtherKey? ==> r == Err(TypeError)
    ensures key.StrKey? ==>
      var asDate := key.s == "date" && dateIsFirstClass;
      && (r.Err? <==> forall k :: 0 <= k < |names| ==> !Selects(names[k], key.s, asDate))
      && (r.Err? ==> r.error == IndexError)
      && (r.Ok? ==>
            StrictlyIncreasing(r.value)
            && (forall k :: k in r.value <==> 0 <= k < |names| && Selects(names[k], key.s, asDate)))
  {
    match key
    case IntKey(i) => Ok([i])
    case StrKey(s) =>
      var selected := SelectIndices(names, s, s == "date" && dateIsFirstClass);
      if |selected| == 0 then
        Err(IndexError)
      else
        assert selected[0] in selected;
        Ok(selected)
    case OtherKey => Err(TypeError)
  }

  /**
    With the date pseudo-key, a group named "Bm" counts as a date group while
    a group named "date" does not; without it, only the group named "date" is
    selected.
  */
  lemma DateKeyIsSubstringTest(names: seq<string>)
    requires names == ["Bm", "Y", "date"]
    ensures GroupsIndices(names, StrKey("date"), true) == Ok([0, 1])
    ensures GroupsIndices(names, StrKey("date"), false) == Ok([2])
  {
    assert Selects(names[0], "date", true) by { assert OccursAt(DatetimeKeys, "Bm", 1); }
    assert Selects(names[1], "date", true) by { ContainsChar(DatetimeKeys, 'Y'); }
    assert !Selects(names[2], "date", true) by {
      if Contains(DatetimeKeys, "date") {
        ContainsChars(DatetimeKeys, "date", 'a');
      }
    }
    var r := SelectIndices(names, "date", true);
    IncreasingUnique(r, [0, 1]);
    var q := SelectIndices(names, "date", false);
    IncreasingUnique(q, [2]);
  }

  // ---------------------------------------------------------------------
  // get_unique_name

  /** The `i`-th name tried for `name`: `name__i`. */
  function Candidate(name: string, i: nat): (r: string)
    ensures |r| > |name| + 2 && r[..|name|] == name
  {
    name + "__" + NatToString(i)
  }

  /** Different tries give different names. */
  lemma CandidateInjective(name: string, i: nat, j: nat)
    requires Candidate(name, i) == Candidate(name, j)
    ensures i == j
  {
    assert Candidate(name, i)[|name| + 2..] == NatToString(i);
    assert Candidate(name, j)[|name| + 2..] == NatToString(j);
    NatToStringInjective(i, j);
  }

  /** The names tried before try `i`. */
  function CandidatesBelow(name: string, i: nat): (r: set<string>)
    ensures forall j :: 0 <= j < i ==> Candidate(name, j) in r
  {
    if i == 0 then {} else CandidatesBelow(name, i - 1) + {Candidate(name, i - 1)}
  }

  lemma {:induction false} CandidateNotBelow(name: string, i: nat, j: nat)
    requires i <= j
    ensures Candidate(name, j) !in CandidatesBelow(name, i)
  {
    if i > 0 {
      CandidateNotBelow(name, i - 1, j);
      if Candidate(name, j) == Candidate(name, i - 1) {
        CandidateInjective(name, j, i - 1);
      }
    }
  }

  lemma {:induction false} CandidatesBelowIn(name: string, i: nat, existing: set<string>)
    requires forall j :: 0 <= j < i ==> Candidate(name, j) in existing
    ensures CandidatesBelow(name, i) <= existing
  {
    if i > 0 {
      CandidatesBelowIn(name, i - 1, existing);
    }
  }

  /**
    A name starting with `name` that is not in `existing`: `name__i` for the
    smallest `i` that is free.
  */
  method UniqueName(name: string, existing: set<string>) returns (r: string)
    ensures r !in existing
    ensures exists i: nat :: r == Candidate(name, i) && forall j :: 0 <= j < i ==> Candidate(name, j) in existing
  {
    var i: nat := 0;
    r := Candidate(name, i);
    while r in existing
      invariant r == Candidate(name, i)
      invariant forall j :: 0 <= j < i ==> Candidate(name, j) in existing
      decreases |existing - CandidatesBelow(name, i)|
    {
      CandidatesBelowIn(name, i, existing);
      CandidateNotBelow(name, i, i);
      assert existing - CandidatesBelow(name, i + 1) == (existing - CandidatesBelow(name, i)) - {r};
      i := i + 1;
      r := Candidate(name, i);
    }
  }
}
