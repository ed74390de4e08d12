/**
 Decoded JSON values as the pipeline sees them after `json.loads`.
 An object keeps Python's dict insertion order, so it is a list of key/value
 pairs; `Lookup` and `Assign` are the dict operations `d[k]` and `d[k] = v`.
 */
module JsonValue {
  import opened Wrappers

  datatype Json =
    | JNull
    | JBool(b: bool)
    | JNum(n: int)
    | JStr(s: string)
    | JArr(items: seq<Json>)
    | JObj(fields: seq<(string, Json)>)

  /** The keys of an object, in insertion order. */
  function Keys(d: seq<(string, Json)>): (ks: seq<string>)
    ensures |ks| == |d|
    ensures forall i :: 0 <= i < |d| ==> ks[i] == d[i].0
  {
    if |d| == 0 then [] else [d[0].0] + Keys(d[1..])
  }

  /** A Python dict never holds a key twice. */
  predicate DistinctKeys(d: seq<(string, Json)>)
  {
    forall i, j :: 0 <= i < j < |d| ==> d[i].0 != d[j].0
  }

  /** `d.get(k)`: the value stored under `k`, if any. */
  function Lookup(d: seq<(string, Json)>, k: string): (r: Option<Json>)
  {
    if |d| == 0 then None
    else if d[0].0 == k then Some(d[0].1)
    else Lookup(d[1..], k)
  }

  /** `k in d`: a lookup finds the key exactly when it is among the keys. */
  lemma {:induction false} LookupFindsKeys(d: seq<(string, Json)>, k: string)
    ensures Lookup(d, k).Some? <==> k in Keys(d)
    ensures Lookup(d, k).Some? ==> (k, Lookup(d, k).value) in d
  {
    if |d| > 0 && d[0].0 != k {
      LookupFindsKeys(d[1..], k);
      assert Keys(d) == [d[0].0] + Keys(d[1..]);
    }
  }

  /**
   `d[k] = v`: an existing key keeps its position and gets the new value,
   a new key is appended at the end; no other entry changes.
   */
  function Assign(d: seq<(string, Json)>, k: string, v: Json): (r: seq<(string, Json)>)
    ensures Lookup(r, k) == Some(v)
    ensures forall k' :: k' != k ==> Lookup(r, k') == Lookup(d, k')
    ensures k in Keys(d) ==> Keys(r) == Keys(d)
    ensures k !in Keys(d) ==> Keys(r) == Keys(d) + [k]
  {
    if |d| == 0 then [(k, v)]
    else if d[0].0 == k then [(k, v)] + d[1..]
    else
      var rest := Assign(d[1..], k, v);
      var r := [d[0]] + rest;
      assert r[1..] == rest;
      assert Keys(d) == [d[0].0] + Keys(d[1..]);
      assert Keys(r) == [d[0].0] + Keys(rest);
      r
  }

  /** Assigning into a well-formed dict leaves it well formed. */
  lemma AssignKeepsDistinctKeys(d: seq<(string, Json)>, k: string, v: Json)
    requires DistinctKeys(d)
    ensures DistinctKeys(Assign(d, k, v))
  {
    var r := Assign(d, k, v);
    forall i, j | 0 <= i < j < |r|
      ensures r[i].0 != r[j].0
    {
      assert Keys(r)[i] == r[i].0 && Keys(r)[j] == r[j].0;
      if k !in Keys(d) {
        if j == |d| {
          assert Keys(d)[i] == Keys(r)[i];
        } else {
          assert Keys(d)[i] == Keys(r)[i] && Keys(d)[j] == Keys(r)[j];
        }
      } else {
        assert Keys(d)[i] == Keys(r)[i] && Keys(d)[j] == Keys(r)[j];
      }
    }
  }

  /** `j[k]` on a decoded value: only an object holding `k` answers; anything else raises. */
  function Member(j: Json, k: string): (r: Option<Json>)
  {
    if j.JObj? then Lookup(j.fields, k) else None
  }
}
