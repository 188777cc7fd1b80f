/** The part of Python's value and exception semantics that the video path of
    the hazard analyzer relies on: the values `json.loads` can return, the
    exceptions the path can raise without catching them, `int()` on a float,
    `%` on integers, and the `in`, `[key]` and `len` operations the drawing
    loop applies to a parsed entry. */
module Py {

  datatype Option<T> = None | Some(value: T)

  /** The exceptions that escape `main` and end the run. */
  datatype Exception =
    | ZeroDivisionError     // `frame_count % 0`
    | IndexError            // `annotated_frames[0]` on an empty list
    | KeyError(key: string) // `box['label']` on an entry without that key
    | TypeError             // `in`, `[key]`, `len` or iteration on a value that does not support it
    | OpenCvError           // an OpenCV drawing call rejects a coordinate or a label of the wrong type

  datatype Result<T> = Ok(value: T) | Err(error: Exception)

  /** A value returned by `json.loads`. A number with a fraction or an
      exponent is a Python float and is kept as its text. */
  datatype Json =
    | JNull
    | JBool(b: bool)
    | JInt(i: int)
    | JFloat(text: string)
    | JStr(s: string)
    | JArr(items: seq<Json>)
    | JObj(fields: map<string, Json>)

  /** `int(x)` on a float: truncation toward zero. */
  function Int(x: real): (r: int)
    ensures 0.0 <= x ==> 0 <= r && r as real <= x < r as real + 1.0
    ensures x < 0.0 ==> r <= 0 && r as real - 1.0 < x <= r as real
  {
    if 0.0 <= x then x.Floor else -((-x).Floor)
  }

  function Abs(n: int): nat {
    if n < 0 then -n else n
  }

  /** `a % b` on Python ints: the remainder has the sign of the divisor, and
      it is zero exactly when `b` divides `a`. */
  function Mod(a: int, b: int): (r: int)
    requires b != 0
    ensures 0 < b ==> 0 <= r < b
    ensures b < 0 ==> b < r <= 0
    ensures r == 0 <==> a % Abs(b) == 0
  {
    if 0 < b then a % b
    else if a % -b == 0 then 0
    else a % -b + b
  }

  /** `sub` occurs in `s` starting at index `i`. */
  predicate OccursAt(s: string, sub: string, i: nat) {
    i + |sub| <= |s| && s[i..i + |sub|] == sub
  }

  /** `sub in s` for two Python strings: a substring test. */
  predicate Contains(s: string, sub: string) {
    exists i: nat | i <= |s| :: OccursAt(s, sub, i)
  }

  /** `key in container` for a string `key`. */
  function In(key: string, container: Json): (r: Result<bool>)
    ensures r.Ok? <==> Len(container).Ok?
    ensures r.Err? ==> r.error == TypeError
    ensures container.JObj? ==> (r == Ok(true) <==> key in container.fields)
    ensures container.JArr? ==> (r == Ok(true) <==> exists k :: 0 <= k < |container.items| && container.items[k] == JStr(key))
    ensures container.JStr? ==> (r == Ok(true) <==> Contains(container.s, key))
  {
    match container
    case JObj(m) => Ok(key in m)
    case JArr(xs) => Ok(JStr(key) in xs)
    case JStr(s) => Ok(Contains(s, key))
    case _ => Err(TypeError)  // a number, a bool or None is not a container
  }

  /** `container[key]` for a string `key`. */
  function GetItem(container: Json, key: string): (r: Result<Json>)
    ensures r.Ok? <==> container.JObj? && key in container.fields
    ensures r.Ok? ==> In(key, container) == Ok(true) && r.value == container.fields[key]
    ensures r.Err? ==> r.error == if container.JObj? then KeyError(key) else TypeError
  {
    match container
    case JObj(m) => if key in m then Ok(m[key]) else Err(KeyError(key))
    case _ => Err(TypeError)  // list and str indices must be integers; scalars are not subscriptable
  }

  /** `len(v)`. */
  function Len(v: Json): (r: Result<nat>)
    ensures r.Ok? <==> v.JArr? || v.JStr? || v.JObj?
    ensures r.Err? ==> r.error == TypeError
    ensures v.JArr? ==> r == Ok(|v.items|)
    ensures v.JStr? ==> r == Ok(|v.s|)
    ensures v.JObj? ==> r == Ok(|v.fields|)
  {
    match v
    case JArr(xs) => Ok(|xs|)
    case JStr(s) => Ok(|s|)
    case JObj(m) => Ok(|m|)
    case _ => Err(TypeError)
  }

  /** The elements `for c in s` yields for a Python string: one-character strings. */
  function Chars(s: string): (cs: seq<Json>)
    ensures |cs| == |s|
    ensures forall k :: 0 <= k < |s| ==> cs[k] == JStr([s[k]])
  {
    seq(|s|, k requires 0 <= k < |s| => JStr([s[k]]))
  }
}
