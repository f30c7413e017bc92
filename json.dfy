/** Plain Option and Result types used across the model. */
module Wrappers {
  datatype Option<+T> = None | Some(value: T)

  datatype Result<+T, +E> = Ok(value: T) | Err(error: E)
}

/**
 * Already-parsed JSON values: one ledger line after `json.loads`.
 * JSON numbers are modelled as integers only.
 */
module Json {
  import opened Wrappers

  datatype Value =
    | Null
    | Bool(b: bool)
    | Num(n: int)
    | Str(s: string)
    | Arr(elems: seq<Value>)
    | Obj(members: map<string, Value>)

  /** `v[key]` with a string key: it succeeds only on an object holding the key;
      a missing key is a KeyError and any other kind of value a TypeError. */
  function Get(v: Value, key: string): Option<Value>
  {
    if v.Obj? && key in v.members then Some(v.members[key]) else None
  }

  /** `v[i]` with a non-negative integer index, where the result is then
      subscripted with a string key: only a long enough array gives a usable
      value. An object's keys are strings, so `obj[1]` is a KeyError; a string
      such as `"ab"[1]` gives a one-character string, whose `['dest']` is a
      TypeError, so it is `None` here as well. */
  function Index(v: Value, i: nat): Option<Value>
  {
    if v.Arr? && i < |v.elems| then Some(v.elems[i]) else None
  }

  /** The chained lookup `v[k0][k1]...`, failing as soon as one step fails. */
  function GetPath(v: Value, path: seq<string>): (r: Option<Value>)
    decreases |path|
  {
    if path == [] then Some(v)
    else
      match Get(v, path[0])
      case None => None
      case Some(child) => GetPath(child, path[1..])
  }

  /** Values usable as dictionary keys: lists and dictionaries are not hashable. */
  predicate Hashable(v: Value)
  {
    !v.Arr? && !v.Obj?
  }
}
