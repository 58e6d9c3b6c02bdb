/** Python dictionaries as Dafny values.

    A dictionary is an association list whose keys are distinct, kept in
    insertion order: the order in which `dict.items()` walks it, which is the
    order the metadata filter's `$and` clauses come out in. */
module Dicts {

  datatype Option<+T> = None | Some(value: T) {
    function GetOr(default: T): T {
      if Some? then value else default
    }
  }

  datatype Entry<V> = Entry(key: string, value: V)

  predicate DistinctKeys<V>(s: seq<Entry<V>>) {
    forall i, j :: 0 <= i < j < |s| ==> s[i].key != s[j].key
  }

  /** A Python `dict` with string keys. */
  type Dict<V> = s: seq<Entry<V>> | DistinctKeys(s) witness []

  /** The keys in insertion order (`list(d.keys())`). */
  function Keys<V>(d: seq<Entry<V>>): seq<string> {
    seq(|d|, i requires 0 <= i < |d| => d[i].key)
  }

  /** Where key `k` sits in `d`, or |d| when it is absent. */
  function Find<V>(d: seq<Entry<V>>, k: string): (i: nat)
    ensures i <= |d|
    ensures i < |d| ==> d[i].key == k
    ensures forall j :: 0 <= j < i ==> d[j].key != k
  {
    if d == [] then 0
    else if d[0].key == k then 0
    else 1 + Find(d[1..], k)
  }

  /** A read of `d` by key (`d.get(k)`): the value stored under `k`, if any. */
  function Get<V>(d: Dict<V>, k: string): (r: Option<V>)
    ensures r.Some? <==> k in Keys(d)
    ensures forall i :: 0 <= i < |d| && d[i].key == k ==> r == Some(d[i].value)
  {
    var i := Find(d, k);
    if i < |d| then
      assert Keys(d)[i] == k;
      Some(d[i].value)
    else
      assert forall j :: 0 <= j < |d| ==> Keys(d)[j] != k;
      None
  }

  /** `d[k] = v`: overwrites the entry in place when `k` is present, and
      appends a new entry at the end otherwise. */
  function Set<V>(d: Dict<V>, k: string, v: V): (r: Dict<V>)
    ensures Get(r, k) == Some(v)
    ensures forall k' :: k' != k ==> Get(r, k') == Get(d, k')
    ensures k in Keys(d) ==> Keys(r) == Keys(d)
    ensures k !in Keys(d) ==> Keys(r) == Keys(d) + [k]
  {
    var i := Find(d, k);
    if i < |d| then
      var r := d[i := Entry(k, v)];
      assert forall j :: 0 <= j < |d| ==> r[j].key == d[j].key;
      assert Keys(r) == Keys(d);
      r
    else
      var r := d + [Entry(k, v)];
      assert Keys(r) == Keys(d) + [k];
      r
  }

  /** `a.update(b)` as a record-level metadata update performs it: every
      entry of `b` is written into `a` in turn. */
  function Merge<V>(a: Dict<V>, b: Dict<V>): (r: Dict<V>)
    ensures forall k :: Get(r, k) == if k in Keys(b) then Get(b, k) else Get(a, k)
    decreases |b|
  {
    if b == [] then a
    else
      var rest: Dict<V> := b[1..];
      assert Keys(b) == [b[0].key] + Keys(rest);
      assert b[0].key !in Keys(rest);
      Merge(Set(a, b[0].key, b[0].value), rest)
  }
}
