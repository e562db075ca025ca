/** Small shared vocabulary: optional values, handler outcomes with HTTP-style
    status codes, and the opaque document identifier. */
module Common {

  /** A value that may be absent (Python's `None`). */
  datatype Option<T> = None | Some(value: T)

  /** What a request handler produces: a payload, or the status code and detail
      string of the `HTTPException` it raises. */
  datatype Outcome<T> = Ok(value: T) | Err(status: int, detail: string)

  /** Document identifiers, standing in for MongoDB's `ObjectId`. */
  type Id = nat

  /** Python truthiness of an optional string: `None` and `""` are both false. */
  predicate Truthy(o: Option<string>)
  {
    o.Some? && o.value != ""
  }

  /** Index of the first occurrence of `k` in `s`, if any. */
  function IndexOf<K(==)>(s: seq<K>, k: K): (r: Option<nat>)
    ensures r.Some? <==> k in s
    ensures r.Some? ==> r.value < |s| && s[r.value] == k && k !in s[..r.value]
  {
    if |s| == 0 then None
    else if s[0] == k then Some(0)
    else
      match IndexOf(s[1..], k)
      case None => None
      case Some(j) =>
        assert s[1..][..j] == s[1..j + 1];
        assert s[..j + 1] == [s[0]] + s[1..j + 1];
        Some(j + 1)
  }

  /** The position of the first element of `s` that satisfies `p` (a `find_one`). */
  function Find<T>(s: seq<T>, p: T -> bool): (r: Option<nat>)
    ensures r.Some? ==> r.value < |s| && p(s[r.value])
    ensures r.Some? ==> forall j :: 0 <= j < r.value ==> !p(s[j])
    ensures r.None? <==> forall j :: 0 <= j < |s| ==> !p(s[j])
  {
    if |s| == 0 then None
    else if p(s[0]) then Some(0)
    else
      match Find(s[1..], p)
      case None => None
      case Some(j) => Some(j + 1)
  }

  /** Python's `s.startswith(p)`. */
  predicate StartsWith<K(==)>(s: seq<K>, p: seq<K>)
  {
    |p| <= |s| && s[..|p|] == p
  }
}
