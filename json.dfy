/**
 * The generic tree the example migrations work on: what `encoding/json`
 * decodes into `any` (nil, bool, number, string, `[]any`, `map[string]any`).
 */
module Json {
  datatype Json =
    | Null
    | Bool(b: bool)
    | Num(n: int)
    | Str(s: string)
    | List(items: seq<Json>)
    | Obj(fields: map<string, Json>)

  /** `d[k].(string)` with its `ok`: the string stored under `k`, if that is a string. */
  predicate HasString(d: map<string, Json>, k: string) {
    k in d && d[k].Str?
  }

  /** `s, _ := d[k].(string)`: the string stored under `k`, or "" when missing or not a string. */
  function StringOr(d: map<string, Json>, k: string): (s: string)
    ensures HasString(d, k) ==> Str(s) == d[k]
    ensures !HasString(d, k) ==> s == ""
  {
    if HasString(d, k) then d[k].s else ""
  }
}
