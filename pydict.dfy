/** A Python `dict` with string keys, as the scripts use it: key/value pairs
    in insertion order with no key twice, and `sorted(d.items())`, which
    orders the pairs by key. */
module PyDict {
  import opened Common
  import opened PyStr

  /** `d.get(k)`. */
  function Get<V>(d: seq<(string, V)>, k: string): Option<V>
  {
    if d == [] then None
    else if d[0].0 == k then Some(d[0].1)
    else Get(d[1..], k)
  }

  /** No key occurs twice. */
  predicate DistinctKeys<V>(d: seq<(string, V)>)
  {
    d == [] || (Get(d[1..], d[0].0) == None && DistinctKeys(d[1..]))
  }

  /** `d[k] = v`: an existing key keeps its place and takes the new value,
      a new key is appended at the end. */
  function Put<V>(d: seq<(string, V)>, k: string, v: V): (r: seq<(string, V)>)
    requires DistinctKeys(d)
    ensures DistinctKeys(r)
    ensures forall key {:trigger Get(r, key)} :: Get(r, key) == if key == k then Some(v) else Get(d, key)
    ensures Get(d, k) == None ==> r == d + [(k, v)]
    ensures Get(d, k) != None ==> |r| == |d| && forall i :: 0 <= i < |d| ==> r[i].0 == d[i].0
  {
    if d == [] then [(k, v)]
    else if d[0].0 == k then [(k, v)] + d[1..]
    else [d[0]] + Put(d[1..], k, v)
  }

  /** The keys are in strictly ascending order. */
  predicate StrictlySorted<V>(d: seq<(string, V)>)
  {
    forall i, j :: 0 <= i < j < |d| ==> Less(d[i].0, d[j].0)
  }

  lemma {:induction false} SortedDistinct<V>(d: seq<(string, V)>)
    requires StrictlySorted(d)
    ensures DistinctKeys(d)
  {
    if d != [] {
      SortedGetHead(d);
      SortedDistinct(d[1..]);
    }
  }

  lemma {:induction false} SortedGetHead<V>(d: seq<(string, V)>)
    requires StrictlySorted(d) && d != []
    ensures Get(d[1..], d[0].0) == None
  {
    var k := d[0].0;
    var t := d[1..];
    var n := 0;
    while n < |t|
      invariant 0 <= n <= |t|
      invariant Get(t, k) == Get(t[n..], k)
    {
      LessIrreflexive(k);
      assert Less(k, t[n].0);
      assert t[n..][1..] == t[n + 1..];
      n := n + 1;
    }
  }

  /** Insertion of one new pair into a key-sorted sequence. */
  function Insert<V>(s: seq<(string, V)>, p: (string, V)): (r: seq<(string, V)>)
    requires StrictlySorted(s) && Get(s, p.0) == None
    ensures StrictlySorted(r) && |r| == |s| + 1
    ensures forall i :: 0 <= i < |r| ==> r[i] == p || r[i] in s
    ensures forall key {:trigger Get(r, key)} :: Get(r, key) == if key == p.0 then Some(p.1) else Get(s, key)
  {
    if s == [] then [p]
    else if Less(p.0, s[0].0) then
      assert forall j :: 0 < j < |s| ==> Less(p.0, s[j].0) by {
        forall j | 0 < j < |s| ensures Less(p.0, s[j].0) {
          LessTransitive(p.0, s[0].0, s[j].0);
        }
      }
      [p] + s
    else
      LessTotal(p.0, s[0].0);
      assert StrictlySorted(s[1..]);
      var r := [s[0]] + Insert(s[1..], p);
      assert forall j :: 0 < j < |r| ==> Less(s[0].0, r[j].0);
      r
  }

  /** `sorted(d.items())`: the same pairs, in ascending key order. */
  function SortByKey<V>(d: seq<(string, V)>): (r: seq<(string, V)>)
    requires DistinctKeys(d)
    ensures StrictlySorted(r) && DistinctKeys(r) && |r| == |d|
    ensures forall key {:trigger Get(r, key)} :: Get(r, key) == Get(d, key)
  {
    if d == [] then []
    else
      var r := Insert(SortByKey(d[1..]), d[0]);
      SortedDistinct(r);
      r
  }
}
