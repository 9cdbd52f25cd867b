/**
 Shared vocabulary: nullable values, the browser's string key-value stores
 (`localStorage`, `sessionStorage`) and URL query strings.
 */
module Base {

  /** A JavaScript value that may be `null`. */
  datatype Option<+T> = None | Some(value: T)

  /** `localStorage` / `sessionStorage`: string keys to string values. */
  type Store = map<string, string>

  /** A parsed query string, in URL order (`URLSearchParams`). */
  type Query = seq<(string, string)>

  /** `storage.getItem(key)`: `null` when the key was never set. */
  function GetItem(s: Store, key: string): (r: Option<string>)
    ensures r.Some? <==> key in s
    ensures r.Some? ==> r.value == s[key]
  {
    if key in s then Some(s[key]) else None
  }

  /** `params.get(key)`: the value of the FIRST pair named `key`, or `null`. */
  function QueryGet(q: Query, key: string): (r: Option<string>)
    ensures r.None? <==> forall k :: 0 <= k < |q| ==> q[k].0 != key
    ensures r.Some? ==> exists k :: 0 <= k < |q| && q[k] == (key, r.value)
  {
    if |q| == 0 then None
    else if q[0].0 == key then Some(q[0].1)
    else QueryGet(q[1..], key)
  }

  /** JavaScript truthiness of a `string | null`: present and non-empty. */
  predicate Truthy(o: Option<string>)
  {
    o.Some? && o.value != ""
  }

  /** `s || null`: the empty string becomes `null`. */
  function NonEmpty(s: string): (r: Option<string>)
    ensures r.None? <==> s == ""
    ensures r.Some? ==> r.value == s
  {
    if s == "" then None else Some(s)
  }
}
