/**
  The decoded JSON values the rename tool manipulates, with the few Python
  operations it applies to them: truthiness, `str()`, `dict.get` and item
  assignment. Objects are association lists in insertion order, as Python
  dicts are; encoding and decoding text are left to callers as oracles.
*/
module Json {
  import opened Wrappers
  import opened Text

  /** The record key under which the recorder writes an image's file name. */
  const FrameFilename := "frame_filename"

  datatype Value =
    | Null
    | Bool(b: bool)
    | Int(i: int)
    /** A float, carried as its Python `repr`. */
    | Float(repr: string)
    | Str(s: string)
    | Arr(items: seq<Value>)
    | Obj(fields: seq<(string, Value)>)

  /** Python's `bool(v)`. The only float reprs of zero are `0.0` and `-0.0`. */
  predicate Truthy(v: Value) {
    match v
    case Null => false
    case Bool(b) => b
    case Int(i) => i != 0
    case Float(t) => t != "0.0" && t != "-0.0"
    case Str(s) => |s| > 0
    case Arr(xs) => |xs| > 0
    case Obj(fs) => |fs| > 0
  }

  /** `sep.join(parts)` for a separator of any length. */
  function JoinWith(parts: seq<string>, sep: string): string {
    if |parts| == 0 then ""
    else if |parts| == 1 then parts[0]
    else parts[0] + sep + JoinWith(parts[1..], sep)
  }

  /** Python's `repr(v)` for a decoded JSON value. */
  function Repr(v: Value): string
    decreases v
  {
    match v
    case Null => "None"
    case Bool(b) => if b then "True" else "False"
    case Int(i) => IntText(i)
    case Float(t) => t
    case Str(s) => "'" + s + "'"
    case Arr(xs) =>
      "[" + JoinWith(seq(|xs|, k requires 0 <= k < |xs| => Repr(xs[k])), ", ") + "]"
    case Obj(fs) =>
      "{" + JoinWith(seq(|fs|, k requires 0 <= k < |fs| => "'" + fs[k].0 + "': " + Repr(fs[k].1)), ", ") + "}"
  }

  /** Python's `str(v)`, which is what an f-string interpolates. */
  function PyStr(v: Value): (s: string)
    ensures v.Str? ==> s == v.s
    ensures v.Int? ==> ParseInt(s) == Some(v.i)
  {
    match v
    case Str(s) => s
    case Int(i) => IntTextRoundTrip(i); Repr(v)
    case _ => Repr(v)
  }

  /** `k in d` for a dict given by its fields. */
  predicate HasField(fs: seq<(string, Value)>, k: string) {
    exists i :: 0 <= i < |fs| && fs[i].0 == k
  }

  /** `d.get(k)`: the value stored under `k`, or None when `k` is absent. */
  function Get(fs: seq<(string, Value)>, k: string): (r: Option<Value>)
    ensures r.Some? <==> HasField(fs, k)
    ensures r.Some? ==> (k, r.value) in fs
  {
    if |fs| == 0 then None
    else if fs[0].0 == k then Some(fs[0].1)
    else
      var r := Get(fs[1..], k);
      assert forall i :: 0 < i < |fs| ==> fs[i] == fs[1..][i - 1];
      assert r.Some? ==> (k, r.value) in fs[1..];
      r
  }

  /**
    `d[k] = v`: an existing key keeps its position and takes the new value,
    a new key is added at the end, and every other key keeps its value.
  */
  function Put(fs: seq<(string, Value)>, k: string, v: Value): (r: seq<(string, Value)>)
    ensures Get(r, k) == Some(v)
    ensures forall k' :: k' != k ==> Get(r, k') == Get(fs, k')
    ensures |r| == if HasField(fs, k) then |fs| else |fs| + 1
  {
    if |fs| == 0 then [(k, v)]
    else if fs[0].0 == k then [(k, v)] + fs[1..]
    else
      var rest := Put(fs[1..], k, v);
      assert HasField(fs, k) <==> HasField(fs[1..], k) by {
        if HasField(fs, k) {
          var i :| 0 <= i < |fs| && fs[i].0 == k;
          assert fs[1..][i - 1] == fs[i];
        }
        if HasField(fs[1..], k) {
          var i :| 0 <= i < |fs[1..]| && fs[1..][i].0 == k;
          assert fs[i + 1] == fs[1..][i];
        }
      }
      [fs[0]] + rest
  }

  /** `v.get(k)` when `v` is a dict, None otherwise. */
  function Field(v: Value, k: string): (r: Option<Value>)
    ensures r.Some? ==> v.Obj? && HasField(v.fields, k)
  {
    if v.Obj? then Get(v.fields, k) else None
  }
}
