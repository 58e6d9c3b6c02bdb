/** How `search_memory` and `get_memories` turn a flat metadata filter into
    the store's `where` expression, and what that expression is meant to
    select. */
module Filters {
  import opened Dicts
  import opened Metadata

  /** One equality clause `{key: {"$eq": value}}`. */
  datatype Clause = Eq(key: string, value: Value)

  /** What one key of a `where` dict holds: a plain value (equality) or,
      under `$and`, a list of clauses. */
  datatype Term = Scalar(v: Value) | AllOf(clauses: seq<Clause>)

  /** A `where` dict: string keys to terms, in insertion order. */
  type Where = Dict<Term>

  const AndKey: string := "$and"
  const UniqueKey: string := "unique"

  /** A flat filter used as a `where` dict as it is. */
  function Lift(f: Dict<Value>): (w: Where)
    ensures Keys(w) == Keys(f)
    ensures forall i :: 0 <= i < |f| ==> w[i] == Entry(f[i].key, Scalar(f[i].value))
  {
    var w := seq(|f|, i requires 0 <= i < |f| => Entry(f[i].key, Scalar(f[i].value)));
    assert Keys(w) == Keys(f);
    w
  }

  /** `[{key: {"$eq": value}} for key, value in filter.items()]` */
  function EqClauses(f: Dict<Value>): (cs: seq<Clause>)
    ensures |cs| == |f|
    ensures forall i :: 0 <= i < |f| ==> cs[i] == Eq(f[i].key, f[i].value)
  {
    seq(|f|, i requires 0 <= i < |f| => Eq(f[i].key, f[i].value))
  }

  /** The filter building of `search_memory` and `get_memories`: a filter of
      more than one key becomes a single `$and` of equality clauses in key
      order, any other filter (or none) is kept; then `unique` writes
      `"unique": "True"` into the result, starting from `{}` when there was
      none, and beside `$and` when there is one. */
  function BuildWhere(filter: Option<Dict<Value>>, unique: bool): (w: Option<Where>)
    ensures unique ==> w.Some? && Get(w.value, UniqueKey) == Some(Scalar(Str("True")))
    ensures !unique ==> (w.None? <==> filter.None?)
    ensures filter.Some? && |filter.value| > 1 ==>
      w.Some? && Keys(w.value) == [AndKey] + (if unique then [UniqueKey] else [])
      && Get(w.value, AndKey) == Some(AllOf(EqClauses(filter.value)))
    ensures filter.Some? && |filter.value| <= 1 && (!unique || UniqueKey in Keys(filter.value)) ==>
      w.Some? && Keys(w.value) == Keys(filter.value)
    ensures filter.Some? && |filter.value| <= 1 && unique && UniqueKey !in Keys(filter.value) ==>
      w.Some? && Keys(w.value) == Keys(filter.value) + [UniqueKey]
  {
    var base: Option<Where> :=
      if filter.Some? && |filter.value| > 1 then Some([Entry(AndKey, AllOf(EqClauses(filter.value)))])
      else if filter.Some? then Some(Lift(filter.value))
      else None;
    assert base.Some? && |base.value| == 1 ==> Keys(base.value) == [base.value[0].key];
    if unique then Some(Set(base.GetOr([]), UniqueKey, Scalar(Str("True")))) else base
  }

  /** The meaning the store gives a `where` dict: every key's term holds of
      the record's metadata. A plain value means equality; `$and` means
      every clause's equality. */
  predicate TermHolds(md: Dict<Value>, key: string, t: Term) {
    match t
    case Scalar(v) => Get(md, key) == Some(v)
    case AllOf(cs) => forall c :: c in cs ==> Get(md, c.key) == Some(c.value)
  }

  predicate Holds(md: Dict<Value>, w: Where) {
    forall i :: 0 <= i < |w| ==> TermHolds(md, w[i].key, w[i].value)
  }

  /** No filter selects every record. */
  predicate HoldsIfAny(md: Dict<Value>, w: Option<Where>) {
    w.None? || Holds(md, w.value)
  }

  /** The caller's intent: the metadata carries every key of the filter with
      the same value. */
  predicate Matches(md: Dict<Value>, f: Dict<Value>) {
    forall i :: 0 <= i < |f| ==> Get(md, f[i].key) == Some(f[i].value)
  }

  lemma LiftMeaning(md: Dict<Value>, f: Dict<Value>)
    ensures Holds(md, Lift(f)) <==> Matches(md, f)
  {
    var w := Lift(f);
    if Matches(md, f) {
      forall i | 0 <= i < |w| ensures TermHolds(md, w[i].key, w[i].value) {
        assert w[i] == Entry(f[i].key, Scalar(f[i].value));
      }
    }
    if Holds(md, w) {
      forall i | 0 <= i < |f| ensures Get(md, f[i].key) == Some(f[i].value) {
        assert TermHolds(md, w[i].key, w[i].value);
      }
    }
  }

  lemma ConjunctionMeaning(md: Dict<Value>, f: Dict<Value>)
    ensures Holds(md, [Entry(AndKey, AllOf(EqClauses(f)))]) <==> Matches(md, f)
  {
    var cs := EqClauses(f);
    if Matches(md, f) {
      forall c | c in cs ensures Get(md, c.key) == Some(c.value) {
        var i :| 0 <= i < |cs| && cs[i] == c;
      }
    }
    var w := [Entry(AndKey, AllOf(cs))];
    if Holds(md, w) {
      assert TermHolds(md, w[0].key, w[0].value);
      forall i | 0 <= i < |f| ensures Get(md, f[i].key) == Some(f[i].value) {
        assert cs[i] in cs;
      }
    }
  }

  /** Adding a key that is not there yet adds one more condition. */
  lemma HoldsAppend(md: Dict<Value>, w: Where, k: string, t: Term)
    requires k !in Keys(w)
    ensures Holds(md, Set(w, k, t)) <==> Holds(md, w) && TermHolds(md, k, t)
  {
    var r := Set(w, k, t);
    assert forall j :: 0 <= j < |w| ==> Keys(w)[j] != k;
    assert r == w + [Entry(k, t)];
    if Holds(md, w) && TermHolds(md, k, t) {
      forall i | 0 <= i < |r| ensures TermHolds(md, r[i].key, r[i].value) {
        if i < |w| {
          assert r[i] == w[i];
        }
      }
    }
    if Holds(md, r) {
      assert TermHolds(md, r[|w|].key, r[|w|].value);
      forall i | 0 <= i < |w| ensures TermHolds(md, w[i].key, w[i].value) {
        assert r[i] == w[i];
      }
    }
  }

  /** Building the `where` dict keeps the filter's meaning: without `unique`
      a record passes exactly when its metadata matches the filter; with
      `unique` (and no `unique` key of the caller's own) it must in addition
      carry `unique = "True"`. Both branches of the builder, flat and `$and`,
      agree on this. */
  lemma BuildWhereMeaning(md: Dict<Value>, filter: Option<Dict<Value>>)
    ensures HoldsIfAny(md, BuildWhere(filter, false)) <==> (filter.None? || Matches(md, filter.value))
    ensures filter.None? || UniqueKey !in Keys(filter.value) ==>
      (Holds(md, BuildWhere(filter, true).value) <==>
        (filter.None? || Matches(md, filter.value)) && Get(md, UniqueKey) == Some(Str("True")))
  {
    if filter.Some? {
      var f := filter.value;
      var base: Where := if |f| > 1 then [Entry(AndKey, AllOf(EqClauses(f)))] else Lift(f);
      if |f| > 1 {
        ConjunctionMeaning(md, f);
        assert Keys(base) == [AndKey];
      } else {
        LiftMeaning(md, f);
      }
      assert BuildWhere(filter, false) == Some(base);
      if UniqueKey !in Keys(f) {
        assert UniqueKey !in Keys(base);
        HoldsAppend(md, base, UniqueKey, Scalar(Str("True")));
      }
    } else {
      HoldsAppend(md, [], UniqueKey, Scalar(Str("True")));
    }
  }

  /** The two branches part ways when the caller's own filter already has a
      `unique` key and `unique=True` is asked for: a one-key filter is
      overwritten and asks only for `unique = "True"`, while beside a `$and`
      holding `unique = "False"` nothing can pass. */
  lemma UniqueFlagConflict(md: Dict<Value>, f: Dict<Value>)
    requires Get(f, UniqueKey) == Some(Str("False"))
    ensures |f| == 1 ==> (Holds(md, BuildWhere(Some(f), true).value) <==> Get(md, UniqueKey) == Some(Str("True")))
    ensures |f| > 1 ==> !Holds(md, BuildWhere(Some(f), true).value)
  {
    var w := BuildWhere(Some(f), true).value;
    if |f| == 1 {
      assert f[0].key == UniqueKey;
      assert w == [Entry(UniqueKey, Scalar(Str("True")))];
    } else {
      var i :| 0 <= i < |f| && f[i].key == UniqueKey;
      var cs := EqClauses(f);
      assert cs[i] == Eq(UniqueKey, Str("False")) && cs[i] in cs;
      assert w == [Entry(AndKey, AllOf(cs)), Entry(UniqueKey, Scalar(Str("True")))];
    }
  }
}
