/** The pieces of Python's value semantics the service relies on: the values a
    JSON request body decodes to, `dict.get` on that body, `==` between an int
    and such a value, `len`, slicing with `s[start:end]` and `str.join`. */
module Python {

  datatype Option<+T> = None | Some(value: T)

  /** A value decoded from a JSON request body, as Flask hands it to a view. */
  datatype Value =
    | Null
    | Bool(b: bool)
    | Int(i: int)
    | Float(x: real)
    | Str(s: string)
    | Array(items: seq<Value>)
    | Object(fields: map<string, Value>)

  /** `body.get(key)`, also `body.get(key, None)`: a missing key gives None
      (Null); a body that is not a dict has no `get` and raises (None here). */
  function Get(body: Value, key: string): (r: Option<Value>)
    ensures r.Some? <==> body.Object?
    ensures r.Some? ==> (r.value == Null || key in body.fields)
    ensures body.Object? && key in body.fields ==> r == Some(body.fields[key])
  {
    match body
    case Object(fields) => Some(if key in fields then fields[key] else Null)
    case _ => None
  }

  /** Python's `i == v` for an int `i`: `True == 1`, `False == 0` and
      `1.0 == 1` all hold, while a string, None, list or dict never equals an int. */
  predicate IntEquals(i: int, v: Value)
  {
    match v
    case Bool(b) => i == (if b then 1 else 0)
    case Int(j) => i == j
    case Float(x) => x == i as real
    case _ => false
  }

  /** `len(v)`; None stands for the TypeError raised on a number, bool or None. */
  function Len(v: Value): (r: Option<nat>)
    ensures r.Some? <==> (v.Str? || v.Array? || v.Object?)
    ensures v.Str? ==> r == Some(|v.s|)
  {
    match v
    case Str(s) => Some(|s|)
    case Array(items) => Some(|items|)
    case Object(fields) => Some(|fields|)
    case _ => None
  }

  /** How a slice bound is normalised against a sequence of length `n`: a
      negative bound counts from the end, and either kind is clamped to [0, n]. */
  function SliceBound(i: int, n: nat): (r: nat)
    ensures r <= n
    ensures 0 <= i <= n ==> r == i
    ensures i > n ==> r == n
    ensures i < 0 && i + n >= 0 ==> r == i + n
    ensures i + n < 0 ==> r == 0
  {
    if i < 0 then (if i + n < 0 then 0 else i + n)
    else if i < n then i
    else n
  }

  /** `s[start:end]`. */
  function Slice<T>(s: seq<T>, start: int, end: int): (r: seq<T>)
  {
    var lo, hi := SliceBound(start, |s|), SliceBound(end, |s|);
    if lo < hi then s[lo..hi] else []
  }

  /** The elements of `s[start:end]` are those of `s` from the normalised
      start bound to the normalised end bound, in order. */
  lemma SliceWindow<T>(s: seq<T>, start: int, end: int)
    ensures var lo, hi := SliceBound(start, |s|), SliceBound(end, |s|);
      && |Slice(s, start, end)| == (if lo < hi then hi - lo else 0)
      && forall k :: 0 <= k < |Slice(s, start, end)| ==> Slice(s, start, end)[k] == s[lo + k]
  {
  }

  /** `sep.join(parts)`. */
  function Join(sep: string, parts: seq<string>): (r: string)
    decreases |parts|
  {
    if |parts| == 0 then ""
    else if |parts| == 1 then parts[0]
    else parts[0] + sep + Join(sep, parts[1..])
  }

  /** Joining puts the separator between consecutive parts and nowhere else:
      the length is the parts' lengths plus one separator per gap. */
  lemma {:induction false} JoinLength(sep: string, parts: seq<string>)
    requires |parts| > 0
    ensures |Join(sep, parts)| == TotalLength(parts) + (|parts| - 1) * |sep|
    decreases |parts|
  {
    if |parts| > 1 {
      JoinLength(sep, parts[1..]);
      assert TotalLength(parts) == |parts[0]| + TotalLength(parts[1..]);
    }
  }

  /** Splitting the parts anywhere splits the joined string at a separator:
      joining is the join of the first k parts, the separator, then the join
      of the rest. */
  lemma {:induction false} JoinSplit(sep: string, parts: seq<string>, k: int)
    requires 0 < k < |parts|
    ensures Join(sep, parts) == Join(sep, parts[..k]) + sep + Join(sep, parts[k..])
    decreases k
  {
    if k > 1 {
      var tail := parts[1..];
      JoinSplit(sep, tail, k - 1);
      assert tail[..k - 1] == parts[..k][1..];
      assert tail[k - 1..] == parts[k..];
      assert parts[..k][0] == parts[0];
    } else {
      assert parts[..1] == [parts[0]];
    }
  }

  function TotalLength(parts: seq<string>): nat
    decreases |parts|
  {
    if |parts| == 0 then 0 else |parts[0]| + TotalLength(parts[1..])
  }

  /** Joining two parts is the first, the separator, then the second. */
  lemma JoinPair(sep: string, a: string, b: string)
    ensures Join(sep, [a, b]) == a + sep + b
  {
    assert [a, b][1..] == [b];
  }
}
