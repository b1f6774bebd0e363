/**
  Values shared by every part of the filefinder model: the optional and
  failure-carrying wrappers, the kinds of Python exception the library
  raises, the values a group can be fixed to or parsed into, and the keys
  used to select groups.
*/
module Common {

  datatype Option<+T> = None | Some(value: T) {
    function GetOr(default: T): T {
      match this
      case Some(v) => v
      case None => default
    }
  }

  /** The Python exceptions raised by the modelled code. */
  datatype Error =
    | ValueError
    | KeyError
    | IndexError
    | TypeError
    | NameError
    | AttributeError
    | OverflowError
    | GroupParseError
    | InvalidMatcher

  /** A value or the exception that the Python code raises instead. */
  datatype Result<+T> = Ok(value: T) | Err(error: Error) {
    predicate IsFailure() {
      Err?
    }

    function PropagateFailure<U>(): Result<U>
      requires Err?
    {
      Err(error)
    }

    function Extract(): T
      requires Ok?
    {
      value
    }
  }

  /**
    A scalar Python value as it reaches the library: a string, a boolean or
    any other value (numbers), which is only ever formatted through a format
    specification.
  */
  datatype Value = Str(s: string) | Bool(b: bool) | Num(n: int)

  /** The argument of a fix: one value, or a list/tuple of values. */
  datatype FixArg = One(v: Value) | Many(vs: seq<Value>)

  /** A key selecting groups: an int index, a string name, or anything else. */
  datatype Key = IntKey(i: int) | StrKey(s: string) | OtherKey

  /** A calendar date and time of day, the six fields filefinder reads and writes. */
  datatype DateTime = DateTime(year: int, month: int, day: int, hour: int, minute: int, second: int)

  /** A captured span of a regex match: the substring and its offsets. */
  datatype Capture = Capture(text: string, start: int, end: int)

  /** Python's `s[k]`: negative indices count from the end. */
  function PyIndex<T>(s: seq<T>, k: int): (r: Result<T>)
    ensures r.Ok? <==> -|s| <= k < |s|
    ensures r.Err? ==> r.error == IndexError
    ensures 0 <= k < |s| ==> r == Ok(s[k])
    ensures -|s| <= k < 0 ==> r == Ok(s[|s| + k])
  {
    if 0 <= k < |s| then Ok(s[k])
    else if -|s| <= k < 0 then Ok(s[|s| + k])
    else Err(IndexError)
  }

  /** `[s[k] for k in ks]`: the first bad index raises IndexError. */
  function PickAll<T>(s: seq<T>, ks: seq<int>): (r: Result<seq<T>>)
    ensures r.Ok? <==> forall i :: 0 <= i < |ks| ==> -|s| <= ks[i] < |s|
    ensures r.Err? ==> r.error == IndexError
    ensures r.Ok? ==> |r.value| == |ks| && forall i :: 0 <= i < |ks| ==> r.value[i] == PyIndex(s, ks[i]).value
  {
    if |ks| == 0 then Ok([])
    else
      var first :- PyIndex(s, ks[0]);
      var rest :- PickAll(s, ks[1..]);
      assert forall i :: 1 <= i < |ks| ==> ks[1..][i - 1] == ks[i];
      Ok([first] + rest)
  }
}
