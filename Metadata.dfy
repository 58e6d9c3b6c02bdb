/** Metadata values and the boolean coercion that `create_memory` and
    `update_memory` apply before anything reaches the store (the store's
    filter language cannot compare booleans). */
module Metadata {
  import opened Dicts

  /** A metadata value: a string, a Python `bool`, or a number (the
      timestamps are floats, modelled as reals). */
  datatype Value = Str(s: string) | Bool(b: bool) | Num(x: real)

  /** Python's `str(b)` for a boolean. */
  function BoolText(b: bool): string {
    if b then "True" else "False"
  }

  /** `str(value)` when `isinstance(value, bool)`, the value itself otherwise. */
  function CoerceValue(v: Value): Value {
    if v.Bool? then Str(BoolText(v.b)) else v
  }

  /** The metadata after coercion: same keys in the same order, booleans
      replaced by their text. */
  function Coerced(d: Dict<Value>): (r: Dict<Value>)
    ensures Keys(r) == Keys(d)
  {
    var r := seq(|d|, i requires 0 <= i < |d| => Entry(d[i].key, CoerceValue(d[i].value)));
    assert Keys(r) == Keys(d);
    r
  }

  /** True when no value of `d` is a boolean. */
  predicate NoBooleans(d: Dict<Value>) {
    forall i :: 0 <= i < |d| ==> !d[i].value.Bool?
  }

  /** The coercion loop: walks the items and writes `metadata[key] = str(value)`
      over every boolean one. */
  method CoerceBooleans(metadata: Dict<Value>) returns (r: Dict<Value>)
    ensures r == Coerced(metadata)
  {
    r := metadata;
    var i := 0;
    while i < |r|
      invariant 0 <= i <= |r| == |metadata|
      invariant forall j :: 0 <= j < i ==> r[j] == Entry(metadata[j].key, CoerceValue(metadata[j].value))
      invariant forall j :: i <= j < |r| ==> r[j] == metadata[j]
    {
      var key, value := r[i].key, r[i].value;
      if value.Bool? {
        assert Find(r, key) == i;
        r := Set(r, key, Str(BoolText(value.b)));
      }
      i := i + 1;
    }
  }

  /** Looking a key up after coercion gives the coerced value of what was
      there, and nothing for an absent key: all other keys and values are
      unchanged. */
  lemma CoercedGet(d: Dict<Value>, k: string)
    ensures Get(Coerced(d), k) == match Get(d, k) case None => None case Some(v) => Some(CoerceValue(v))
  {
    var c := Coerced(d);
    if i :| 0 <= i < |d| && d[i].key == k {
      assert c[i].key == k;
    }
  }

  /** Coercion leaves no boolean behind, and every boolean `b` reads back as
      the string "True" or "False". */
  lemma CoercedHasNoBooleans(d: Dict<Value>, k: string, b: bool)
    ensures NoBooleans(Coerced(d))
    ensures Get(d, k) == Some(Bool(b)) ==> Get(Coerced(d), k) == Some(Str(if b then "True" else "False"))
  {
    CoercedGet(d, k);
  }

  /** A dict with no booleans is its own coercion. */
  lemma CoercedIdentity(d: Dict<Value>)
    requires NoBooleans(d)
    ensures Coerced(d) == d
  {
    assert forall i :: 0 <= i < |d| ==> Coerced(d)[i] == d[i];
  }

  const CreatedAt: string := "created_at"
  const UpdatedAt: string := "updated_at"

  /** The metadata `create_memory` stores: `created_at` and `updated_at`
      written from the two clock readings, in that order, then every boolean
      coerced. */
  function StampCreate(metadata: Dict<Value>, createdTime: real, updatedTime: real): (r: Dict<Value>)
    ensures CreatedAt in Keys(r) && UpdatedAt in Keys(r)
  {
    var stamped := Set(Set(metadata, CreatedAt, Num(createdTime)), UpdatedAt, Num(updatedTime));
    assert Get(stamped, CreatedAt).Some? && Get(stamped, UpdatedAt).Some?;
    Coerced(stamped)
  }

  /** The metadata `update_memory` sends: booleans coerced, then
      `updated_at` written. */
  function StampUpdate(metadata: Dict<Value>, now: real): (r: Dict<Value>)
    ensures Keys(r) == if UpdatedAt in Keys(metadata) then Keys(metadata) else Keys(metadata) + [UpdatedAt]
  {
    Set(Coerced(metadata), UpdatedAt, Num(now))
  }

  /** What a created record's metadata holds: each timestamp equal to its
      own clock reading, every other key with its caller's value (a boolean
      as its text), no other key, and no boolean anywhere. */
  lemma StampCreateSpec(metadata: Dict<Value>, createdTime: real, updatedTime: real, k: string)
    ensures Get(StampCreate(metadata, createdTime, updatedTime), CreatedAt) == Some(Num(createdTime))
    ensures Get(StampCreate(metadata, createdTime, updatedTime), UpdatedAt) == Some(Num(updatedTime))
    ensures k != CreatedAt && k != UpdatedAt ==>
      Get(StampCreate(metadata, createdTime, updatedTime), k)
        == match Get(metadata, k) case None => None case Some(v) => Some(CoerceValue(v))
    ensures NoBooleans(StampCreate(metadata, createdTime, updatedTime))
  {
    var stamped := Set(Set(metadata, CreatedAt, Num(createdTime)), UpdatedAt, Num(updatedTime));
    CoercedGet(stamped, CreatedAt);
    CoercedGet(stamped, UpdatedAt);
    CoercedGet(stamped, k);
    CoercedHasNoBooleans(stamped, k, true);
  }

  /** What an update sends: `updated_at` is the clock reading, every other
      key has its caller's value (a boolean as its text), and there is no
      boolean. */
  lemma StampUpdateSpec(metadata: Dict<Value>, now: real, k: string)
    ensures Get(StampUpdate(metadata, now), UpdatedAt) == Some(Num(now))
    ensures k != UpdatedAt ==>
      Get(StampUpdate(metadata, now), k) == match Get(metadata, k) case None => None case Some(v) => Some(CoerceValue(v))
    ensures NoBooleans(StampUpdate(metadata, now))
  {
    CoercedGet(metadata, k);
    CoercedHasNoBooleans(metadata, k, true);
    var c := Coerced(metadata);
    var r := StampUpdate(metadata, now);
    forall i | 0 <= i < |r| ensures !r[i].value.Bool? {
      if r[i].key != UpdatedAt {
        assert Get(r, r[i].key) == Get(c, r[i].key);
        var j :| 0 <= j < |c| && c[j].key == r[i].key;
      }
    }
  }
}
