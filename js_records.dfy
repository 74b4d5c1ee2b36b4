/** JavaScript objects as the map page handles them: string keys in insertion order,
    each with a value. Reading a key the object lacks yields `undefined`. */
module JsRecords {

  datatype JsValue = JUndefined | JNull | JBool(b: bool) | JNum(x: real) | JStr(s: string)

  type Prop = (string, JsValue)

  /** An object never holds the same key twice. */
  predicate DistinctKeys(r: seq<Prop>)
  {
    forall i, j :: 0 <= i < j < |r| ==> r[i].0 != r[j].0
  }

  type Record = r: seq<Prop> | DistinctKeys(r)

  /** `Object.keys(r)`: the keys in insertion order. */
  function Keys(r: seq<Prop>): (ks: seq<string>)
    ensures |ks| == |r| && forall k :: 0 <= k < |r| ==> ks[k] == r[k].0
  {
    seq(|r|, k requires 0 <= k < |r| => r[k].0)
  }

  /** `Object.values(r)`: the values in key order. */
  function Values(r: seq<Prop>): (vs: seq<JsValue>)
    ensures |vs| == |r|
  {
    seq(|r|, k requires 0 <= k < |r| => r[k].1)
  }

  /** `r[key]`: the value stored under `key`, `undefined` when there is none. */
  function Get(r: Record, key: string): (v: JsValue)
    ensures forall k :: 0 <= k < |r| && r[k].0 == key ==> v == r[k].1
    ensures key !in Keys(r) ==> v == JUndefined
  {
    if |r| == 0 then JUndefined
    else if r[0].0 == key then
      assert Keys(r)[0] == key;
      r[0].1
    else
      assert DistinctKeys(r[1..]);
      assert Keys(r[1..]) == Keys(r)[1..];
      Get(r[1..], key)
  }

  /** `r[key] = v`: an existing key keeps its place and gets the new value; a new key
      goes last. */
  function Set(r: Record, key: string, v: JsValue): (s: Record)
    ensures Get(s, key) == v
    ensures forall k :: k != key ==> Get(s, k) == Get(r, k)
    ensures key in Keys(r) ==> Keys(s) == Keys(r)
    ensures key !in Keys(r) ==> Keys(s) == Keys(r) + [key] && s == r + [(key, v)]
  {
    if key in Keys(r) then
      var s := seq(|r|, i requires 0 <= i < |r| => if r[i].0 == key then (key, v) else r[i]);
      assert Keys(s) == Keys(r);
      s
    else
      var s := r + [(key, v)];
      assert forall i :: 0 <= i < |r| ==> Keys(r)[i] == r[i].0 != key;
      assert DistinctKeys(s);
      assert Keys(s) == Keys(r) + [key];
      assert s[|r|] == (key, v);
      s
  }
}
