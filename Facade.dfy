/** The memory facade: category-scoped create, search, get, update, delete
    and wipe over a vector store. The store is a map from category to its
    collection (id to record); what only the store can compute (nearest
    neighbours, filtered fetches) comes in as a function argument that
    stands for the store's answer. */
module Facade {
  import opened Dicts
  import opened Metadata
  import opened Ids
  import opened Filters
  import opened Results

  /** A stored record: its document text and its metadata. */
  datatype Record = Record(document: string, metadata: Dict<Value>)

  /** One category's collection, id to record. */
  type Collection = map<string, Record>

  /** The nearest-neighbour query `search_memory` sends. */
  datatype Query = Query(text: string, where: Option<Where>, whereDocument: Option<string>, nResults: int)

  /** The filtered fetch `get_memories` sends. */
  datatype Fetch = Fetch(where: Option<Where>, whereDocument: Option<string>)

  /** The caller-argument errors of `update_memory`. */
  datatype UpdateError =
    | NoTextOrMetadata  // the explicit "No text or metadata provided"
    | MetadataIsNone    // `metadata["updated_at"] = ...` on `metadata = None`

  datatype Outcome = Done | Failed(error: UpdateError)

  /** `get_or_create_collection`: the category is there afterwards, empty if
      it was missing, and nothing else changes. */
  function Opened(cs: map<string, Collection>, category: string): (r: map<string, Collection>)
    ensures category in r && r.Keys == cs.Keys + {category}
    ensures forall c :: c in cs ==> r[c] == cs[c]
    ensures category !in cs ==> r[category] == map[]
  {
    if category in cs then cs else cs[category := map[]]
  }

  /** `collection.count()` on the collection `get_or_create_collection`
      returns; a category that does not exist has none. */
  function Size(cs: map<string, Collection>, category: string): (n: nat)
    ensures category in cs ==> n == |cs[category]|
    ensures n == 0 <==> category !in cs || cs[category] == map[]
  {
    if category in cs then |cs[category]| else 0
  }

  /** The store after `create_memory`: the record upserted under the given
      id, or under the id made from the count when none is given;
      `createdTime` and `updatedTime` are its two clock readings. */
  function Created(cs: map<string, Collection>, category: string, text: string, metadata: Dict<Value>,
                   id: Option<string>, createdTime: real, updatedTime: real): (r: map<string, Collection>)
    ensures r.Keys == cs.Keys + {category}
    ensures forall c :: c in cs && c != category ==> r[c] == cs[c]
    ensures var newId := if id.Some? then id.value else IdFor(Size(cs, category));
      && newId in r[category]
      && r[category][newId] == Record(text, StampCreate(metadata, createdTime, updatedTime))
      && r[category].Keys == Opened(cs, category)[category].Keys + {newId}
      && forall other :: other in r[category] && other != newId ==> r[category][other] == Opened(cs, category)[category][other]
  {
    var open := Opened(cs, category);
    var newId := if id.Some? then id.value else IdFor(Size(cs, category));
    open[category := open[category][newId := Record(text, StampCreate(metadata, createdTime, updatedTime))]]
  }

  /** Opening a category first changes nothing about a later create. */
  lemma CreatedAfterOpen(cs: map<string, Collection>, category: string)
    ensures Size(Opened(cs, category), category) == Size(cs, category)
    ensures Opened(Opened(cs, category), category) == Opened(cs, category)
  {
  }

  /** The query `search_memory` sends, or none when the category is empty. */
  function PlanSearch(count: nat, searchText: string, nResults: int, filter: Option<Dict<Value>>,
                      containsText: Option<string>, unique: bool): (q: Option<Query>)
    ensures q.None? <==> count == 0
    ensures q.Some? ==> q.value.nResults <= count && q.value.nResults <= nResults
    ensures q.Some? ==> q.value.nResults == count || q.value.nResults == nResults
    ensures q.Some? ==> q.value.where == BuildWhere(filter, unique)
    ensures q.Some? ==> q.value.text == searchText && q.value.whereDocument == containsText
  {
    if count == 0 then None
    else Some(Query(searchText, BuildWhere(filter, unique), containsText, Min(nResults, count)))
  }

  /** What `search_memory` returns when the store answers queries with
      `answer`: nothing for an empty category, otherwise the answer to the
      planned query cut to the distance window. */
  function SearchResult(count: nat, searchText: string, nResults: int, filter: Option<Dict<Value>>,
                        containsText: Option<string>, unique: bool,
                        minDistance: Option<real>, maxDistance: Option<real>,
                        answer: Query -> seq<Hit>): (r: seq<Hit>)
    ensures count == 0 ==> r == []
    ensures count > 0 ==> forall h :: h in r ==>
      h in answer(PlanSearch(count, searchText, nResults, filter, containsText, unique).value)
      && InWindow(h.distance, minDistance, maxDistance)
  {
    var q := PlanSearch(count, searchText, nResults, filter, containsText, unique);
    if q.None? then [] else DistanceWindow(answer(q.value), minDistance, maxDistance)
  }

  /** Search results are never more than the store returned, keep its
      order, and respect the active bounds; an empty category yields
      nothing. */
  lemma SearchResultSpec(count: nat, searchText: string, nResults: int, filter: Option<Dict<Value>>,
                         containsText: Option<string>, unique: bool,
                         minDistance: Option<real>, maxDistance: Option<real>,
                         answer: Query -> seq<Hit>)
    ensures var r := SearchResult(count, searchText, nResults, filter, containsText, unique, minDistance, maxDistance, answer);
      && (count == 0 ==> r == [])
      && (count > 0 ==>
            var q := PlanSearch(count, searchText, nResults, filter, containsText, unique).value;
            && IsSubsequence(r, answer(q))
            && (SortedByDistance(answer(q)) ==> SortedByDistance(r))
            && forall h :: h in r <==> h in answer(q) && InWindow(h.distance, minDistance, maxDistance))
  {
    if count > 0 {
      var q := PlanSearch(count, searchText, nResults, filter, containsText, unique).value;
      DistanceWindowSpec(answer(q), minDistance, maxDistance);
    }
  }

  /** The metadata `create_unique_memory` hands to `create_memory`, given
      what its search found. */
  function UniqueAnnotation(metadata: Dict<Value>, found: seq<Hit>): (r: Dict<Value>)
    ensures UniqueKey in Keys(r)
    ensures |found| > 0 ==> "related_to" in Keys(r) && "related_document" in Keys(r)
  {
    if |found| == 0 then Set(metadata, UniqueKey, Str("True"))
    else
      var md := Set(metadata, UniqueKey, Str("False"));
      var md := Set(md, "related_to", Str(found[0].id));
      Set(md, "related_document", Str(found[0].document))
  }

  /** The search `create_unique_memory` runs: one result at most, among
      unique memories, within `1 - similarity`. */
  function UniqueSearch(count: nat, content: string, similarity: real, answer: Query -> seq<Hit>): (r: seq<Hit>)
    ensures count == 0 ==> r == []
    ensures similarity > 0.0 ==> forall h :: h in r ==> h.distance <= 1.0 - similarity
  {
    SearchResult(count, content, 1, Some([Entry(UniqueKey, Str("True"))]), None, false,
      Some(0.0), Some(1.0 - similarity), answer)
  }

  /** The annotation alone: the flag, and with a match its id and
      document; every other key is the caller's. */
  lemma UniqueAnnotationGet(metadata: Dict<Value>, found: seq<Hit>, k: string)
    ensures |found| == 0 ==> Get(UniqueAnnotation(metadata, found), UniqueKey) == Some(Str("True"))
    ensures |found| > 0 ==>
      && Get(UniqueAnnotation(metadata, found), UniqueKey) == Some(Str("False"))
      && Get(UniqueAnnotation(metadata, found), "related_to") == Some(Str(found[0].id))
      && Get(UniqueAnnotation(metadata, found), "related_document") == Some(Str(found[0].document))
    ensures k != UniqueKey && k != "related_to" && k != "related_document" ==>
      Get(UniqueAnnotation(metadata, found), k) == Get(metadata, k)
  {
    if |found| > 0 {
      var md1 := Set(metadata, UniqueKey, Str("False"));
      var md2 := Set(md1, "related_to", Str(found[0].id));
      assert Get(md2, UniqueKey) == Some(Str("False"));
    }
  }

  /** A match is never farther than `1 - similarity` when `similarity > 0`
      (with `similarity <= 0` the upper bound is not applied). */
  lemma UniqueMatchWithinBound(count: nat, content: string, similarity: real, answer: Query -> seq<Hit>)
    ensures var found := UniqueSearch(count, content, similarity, answer);
      |found| > 0 && similarity > 0.0 ==> found[0].distance <= 1.0 - similarity
  {
    var found := UniqueSearch(count, content, similarity, answer);
    if |found| > 0 && similarity > 0.0 {
      SearchResultSpec(count, content, 1, Some([Entry(UniqueKey, Str("True"))]), None, false,
        Some(0.0), Some(1.0 - similarity), answer);
      assert found[0] in found;
    }
  }

  /** A key other than the timestamps reads back coerced after stamping. */
  lemma StampedKey(md: Dict<Value>, createdTime: real, updatedTime: real, k: string)
    requires k != CreatedAt && k != UpdatedAt
    ensures Get(StampCreate(md, createdTime, updatedTime), k)
      == match Get(md, k) case None => None case Some(v) => Some(CoerceValue(v))
  {
    StampCreateSpec(md, createdTime, updatedTime, k);
  }

  /** What the stored record of `create_unique_memory` says: with no unique
      memory nearby it is flagged `unique = "True"`; otherwise it is flagged
      `"False"` and points at the nearest one by id and document. Keys other
      than these and the timestamps keep the caller's values. */
  lemma UniqueAnnotationSpec(metadata: Dict<Value>, found: seq<Hit>, createdTime: real, updatedTime: real, k: string)
    ensures |found| == 0 ==> Get(StampCreate(UniqueAnnotation(metadata, found), createdTime, updatedTime), UniqueKey) == Some(Str("True"))
    ensures |found| > 0 ==>
      && Get(StampCreate(UniqueAnnotation(metadata, found), createdTime, updatedTime), UniqueKey) == Some(Str("False"))
      && Get(StampCreate(UniqueAnnotation(metadata, found), createdTime, updatedTime), "related_to") == Some(Str(found[0].id))
      && Get(StampCreate(UniqueAnnotation(metadata, found), createdTime, updatedTime), "related_document") == Some(Str(found[0].document))
    ensures k != UniqueKey && k != "related_to" && k != "related_document" && k != CreatedAt && k != UpdatedAt ==>
      Get(StampCreate(UniqueAnnotation(metadata, found), createdTime, updatedTime), k)
        == match Get(metadata, k) case None => None case Some(v) => Some(CoerceValue(v))
  {
    UniqueStoredFlags(metadata, found, createdTime, updatedTime);
    UniqueStoredOthers(metadata, found, createdTime, updatedTime, k);
  }

  lemma UniqueStoredFlags(metadata: Dict<Value>, found: seq<Hit>, createdTime: real, updatedTime: real)
    ensures |found| == 0 ==> Get(StampCreate(UniqueAnnotation(metadata, found), createdTime, updatedTime), UniqueKey) == Some(Str("True"))
    ensures |found| > 0 ==>
      && Get(StampCreate(UniqueAnnotation(metadata, found), createdTime, updatedTime), UniqueKey) == Some(Str("False"))
      && Get(StampCreate(UniqueAnnotation(metadata, found), createdTime, updatedTime), "related_to") == Some(Str(found[0].id))
      && Get(StampCreate(UniqueAnnotation(metadata, found), createdTime, updatedTime), "related_document") == Some(Str(found[0].document))
  {
    var annotated := UniqueAnnotation(metadata, found);
    UniqueAnnotationGet(metadata, found, UniqueKey);
    StampedKey(annotated, createdTime, updatedTime, UniqueKey);
    if |found| > 0 {
      var stamped := StampCreate(annotated, createdTime, updatedTime);
      StampedKey(annotated, createdTime, updatedTime, "related_to");
      assert Get(stamped, "related_to") == Some(Str(found[0].id));
      StampedKey(annotated, createdTime, updatedTime, "related_document");
      assert Get(stamped, "related_document") == Some(Str(found[0].document));
    }
  }

  lemma UniqueStoredOthers(metadata: Dict<Value>, found: seq<Hit>, createdTime: real, updatedTime: real, k: string)
    ensures k != UniqueKey && k != "related_to" && k != "related_document" && k != CreatedAt && k != UpdatedAt ==>
      Get(StampCreate(UniqueAnnotation(metadata, found), createdTime, updatedTime), k)
        == match Get(metadata, k) case None => None case Some(v) => Some(CoerceValue(v))
  {
    if k != UniqueKey && k != "related_to" && k != "related_document" && k != CreatedAt && k != UpdatedAt {
      UniqueAnnotationGet(metadata, found, k);
      StampedKey(UniqueAnnotation(metadata, found), createdTime, updatedTime, k);
    }
  }

  /** The collection after the store's `update`: the document replaced when
      one is given, the metadata keys written over the stored ones; an id
      the collection lacks is left alone. */
  function Updated(col: Collection, id: string, text: Option<string>, metadata: Dict<Value>): (r: Collection)
    ensures r.Keys == col.Keys
    ensures forall other :: other in col && other != id ==> r[other] == col[other]
    ensures id !in col ==> r == col
  {
    if id in col then
      col[id := Record(text.GetOr(col[id].document), Merge(col[id].metadata, metadata))]
    else col
  }

  /** After an update with metadata, the record keeps its id, keeps its
      document unless a text is given, gets `updated_at = now`, keeps every
      stored key the update does not mention (its `created_at` among them),
      and takes the new value, coerced, of every key it does mention. */
  lemma UpdatedSpec(col: Collection, id: string, text: Option<string>, metadata: Dict<Value>, now: real, k: string)
    requires id in col
    ensures var r := Updated(col, id, text, StampUpdate(metadata, now));
      && r.Keys == col.Keys
      && r[id].document == (if text.Some? then text.value else col[id].document)
      && Get(r[id].metadata, UpdatedAt) == Some(Num(now))
      && (k != UpdatedAt && k !in Keys(metadata) ==> Get(r[id].metadata, k) == Get(col[id].metadata, k))
      && (k != UpdatedAt && k in Keys(metadata) ==> Get(r[id].metadata, k) == Some(CoerceValue(Get(metadata, k).value)))
  {
    StampUpdateSpec(metadata, now, k);
    StampUpdateSpec(metadata, now, UpdatedAt);
  }

  /** A call with text alone never reaches the store: `metadata` is `None`
      when `updated_at` is written into it. */
  lemma TextOnlyUpdateFails(text: string)
    ensures UpdateOutcome(Some(text), None) == Failed(MetadataIsNone)
  {
  }

  function UpdateOutcome(text: Option<string>, metadata: Option<Dict<Value>>): (o: Outcome)
    ensures o == Done <==> metadata.Some?
    ensures o == Failed(NoTextOrMetadata) <==> text.None? && metadata.None?
  {
    if metadata.None? && text.None? then Failed(NoTextOrMetadata)
    else if metadata.None? then Failed(MetadataIsNone)
    else Done
  }

  /** The ids of a list, as a set. */
  function IdSet(ids: seq<string>): set<string> {
    set x | x in ids
  }

  lemma IdSetSnoc(ids: seq<string>, id: string)
    ensures IdSet(ids + [id]) == IdSet(ids) + {id}
  {
  }

  /** `collections[category]` without the given ids. */
  function WithoutIds(cs: map<string, Collection>, category: string, ids: seq<string>): (r: map<string, Collection>)
    requires category in cs
    ensures r.Keys == cs.Keys && forall c :: c in cs && c != category ==> r[c] == cs[c]
    ensures forall id :: id in r[category] <==> id in cs[category] && id !in ids
    ensures forall id :: id in r[category] ==> r[category][id] == cs[category][id]
  {
    cs[category := cs[category] - IdSet(ids)]
  }

  /** Deleting one more id after a run of deletes. */
  lemma WithoutOneMore(cs: map<string, Collection>, category: string, ids: seq<string>, id: string)
    requires category in cs
    ensures var w := WithoutIds(cs, category, ids);
      WithoutIds(cs, category, ids + [id]) == w[category := w[category] - {id}]
  {
    IdSetSnoc(ids, id);
    var w := WithoutIds(cs, category, ids);
    assert cs[category] - IdSet(ids + [id]) == w[category] - {id};
  }

  /** The ids `delete_similar_memories` deletes. */
  function SimilarToDelete(count: nat, content: string, threshold: real, answer: Query -> seq<Hit>): (ids: seq<string>)
    ensures count == 0 ==> ids == []
  {
    IdsOf(SimilarPrefix(SearchResult(count, content, 5, None, None, false, None, None, answer), threshold))
  }

  /** The deleted ids are exactly those of the leading run of results that
      are similar enough; a result after the first one that is not is never
      deleted, and when the store's answer is nearest first those are all
      the similar results there are. */
  lemma SimilarToDeleteSpec(count: nat, content: string, threshold: real, answer: Query -> seq<Hit>)
    ensures var hits := SearchResult(count, content, 5, None, None, false, None, None, answer);
      var ids := SimilarToDelete(count, content, threshold, answer);
      && |ids| <= |hits|
      && (forall i :: 0 <= i < |ids| ==> ids[i] == hits[i].id && Similar(hits[i], threshold))
      && (|ids| < |hits| ==> !Similar(hits[|ids|], threshold))
      && (SortedByDistance(hits) ==> forall h :: h in hits && Similar(h, threshold) ==> h.id in ids)
  {
    var hits := SearchResult(count, content, 5, None, None, false, None, None, answer);
    var ids := SimilarToDelete(count, content, threshold, answer);
    var prefix := SimilarPrefix(hits, threshold);
    if SortedByDistance(hits) {
      SortedSimilarPrefix(hits, threshold);
      forall h | h in hits && Similar(h, threshold) ensures h.id in ids {
        var i :| 0 <= i < |prefix| && prefix[i] == h;
        assert ids[i] == h.id;
      }
    }
  }

  /** The store behind the facade: category to collection. */
  class MemoryStore {
    var collections: map<string, Collection>

    constructor ()
      ensures collections == map[]
    {
      collections := map[];
    }

    /** `get_or_create_collection(category)` */
    method OpenCollection(category: string)
      modifies this
      ensures collections == Opened(old(collections), category)
    {
      if category !in collections {
        collections := collections[category := map[]];
      }
    }

    /** `create_memory`: timestamps, an id from the count when none is
        given, boolean coercion, then an upsert. */
    method CreateMemory(category: string, text: string, metadata: Dict<Value>, id: Option<string>,
                        createdTime: real, updatedTime: real)
      modifies this
      ensures collections == Created(old(collections), category, text, metadata, id, createdTime, updatedTime)
    {
      OpenCollection(category);
      var md := Set(metadata, CreatedAt, Num(createdTime));
      md := Set(md, UpdatedAt, Num(updatedTime));
      var newId: string;
      if id.None? {
        newId := IdFor(|collections[category]|);
      } else {
        newId := id.value;
      }
      md := CoerceBooleans(md);
      collections := collections[category := collections[category][newId := Record(text, md)]];
    }

    /** `create_unique_memory`: one search for a unique memory nearby, then
        exactly one create, annotated by what the search found. */
    method CreateUniqueMemory(category: string, content: string, metadata: Dict<Value>, similarity: real,
                              createdTime: real, updatedTime: real, answer: Query -> seq<Hit>)
      modifies this
      ensures collections == Created(old(collections), category, content,
        UniqueAnnotation(metadata, UniqueSearch(Size(old(collections), category), content, similarity, answer)), None,
        createdTime, updatedTime)
    {
      ghost var before := collections;
      var maxDistance := 1.0 - similarity;
      var memories := SearchMemory(category, content, 1, Some([Entry(UniqueKey, Str("True"))]), None, false,
        Some(0.0), Some(maxDistance), answer);
      assert memories == UniqueSearch(Size(before, category), content, similarity, answer);
      CreatedAfterOpen(before, category);
      var md: Dict<Value>;
      if |memories| == 0 {
        md := Set(metadata, UniqueKey, Str("True"));
      } else {
        md := Set(metadata, UniqueKey, Str("False"));
        md := Set(md, "related_to", Str(memories[0].id));
        md := Set(md, "related_document", Str(memories[0].document));
      }
      assert md == UniqueAnnotation(metadata, memories);
      CreateMemory(category, content, md, None, createdTime, updatedTime);
    }

    /** `search_memory`: nothing for an empty category; otherwise one query
        with `n_results` clamped to the count and the built filter, then the
        distance window. */
    method SearchMemory(category: string, searchText: string, nResults: int, filter: Option<Dict<Value>>,
                        containsText: Option<string>, unique: bool,
                        minDistance: Option<real>, maxDistance: Option<real>,
                        answer: Query -> seq<Hit>) returns (results: seq<Hit>)
      modifies this
      ensures collections == Opened(old(collections), category)
      ensures results == SearchResult(Size(old(collections), category), searchText, nResults, filter,
        containsText, unique, minDistance, maxDistance, answer)
    {
      OpenCollection(category);
      var count := |collections[category]|;
      if count == 0 {
        return [];
      }
      var n := Min(nResults, count);
      var where := BuildWhere(filter, unique);
      var query := Query(searchText, where, containsText, n);
      results := answer(query);
      if minDistance.Some? && minDistance.value > 0.0 {
        results := AtLeast(results, minDistance.value);
      }
      if maxDistance.Some? && maxDistance.value < 1.0 {
        results := AtMost(results, maxDistance.value);
      }
    }

    /** `get_memory`: the record under `id`, or nothing. */
    method GetMemory(category: string, id: string) returns (memory: Option<Memory>)
      modifies this
      ensures collections == Opened(old(collections), category)
      ensures memory.Some? <==> id in collections[category]
      ensures memory.Some? ==>
        memory.value == Memory(id, collections[category][id].document, collections[category][id].metadata)
    {
      OpenCollection(category);
      if id !in collections[category] {
        return None;
      }
      var r := collections[category][id];
      memory := Some(Memory(id, r.document, r.metadata));
    }

    /** `get_memories`: one filtered fetch, sorted by id and cut to
        `min(n_results, count)`. */
    method GetMemories(category: string, sortOrder: string, containsText: Option<string>,
                       filter: Option<Dict<Value>>, nResults: int, unique: bool,
                       fetch: Fetch -> seq<Memory>) returns (memories: seq<Memory>)
      modifies this
      ensures collections == Opened(old(collections), category)
      ensures memories == SortAndTruncate(fetch(Fetch(BuildWhere(filter, unique), containsText)),
        sortOrder, nResults, Size(old(collections), category))
    {
      OpenCollection(category);
      var n := Min(nResults, |collections[category]|);
      var where := BuildWhere(filter, unique);
      var fetched := fetch(Fetch(where, containsText));
      var sorted := SortById(fetched, sortOrder == "desc");
      memories := Slice(sorted, n);
    }

    /** `update_memory`: fails without text and metadata, and (as written)
        with text alone; otherwise coerces, stamps `updated_at` and updates. */
    method UpdateMemory(category: string, id: string, text: Option<string>, metadata: Option<Dict<Value>>,
                        now: real) returns (outcome: Outcome)
      modifies this
      ensures outcome == UpdateOutcome(text, metadata)
      ensures metadata.None? ==> collections == Opened(old(collections), category)
      ensures metadata.Some? ==>
        var open := Opened(old(collections), category);
        collections == open[category := Updated(open[category], id, text, StampUpdate(metadata.value, now))]
    {
      OpenCollection(category);
      if metadata.None? && text.None? {
        return Failed(NoTextOrMetadata);
      }
      var md: Dict<Value>;
      if metadata.Some? {
        md := CoerceBooleans(metadata.value);
      } else {
        return Failed(MetadataIsNone);
      }
      md := Set(md, UpdatedAt, Num(now));
      assert md == StampUpdate(metadata.value, now);
      // the store's `update` call
      collections := collections[category := Updated(collections[category], id, text, md)];
      outcome := Done;
    }

    /** `delete_memory`: a no-op for a missing id, a removal otherwise. */
    method DeleteMemory(category: string, id: string)
      modifies this
      ensures var open := Opened(old(collections), category);
        collections == open[category := open[category] - {id}]
      ensures id !in Opened(old(collections), category)[category] ==>
        collections == Opened(old(collections), category)
      ensures Size(collections, category) ==
        Size(old(collections), category) - (if id in Opened(old(collections), category)[category] then 1 else 0)
    {
      OpenCollection(category);
      var found := MemoryExists(category, id, None);
      if !found {
        assert collections[category] - {id} == collections[category];
        return;
      }
      collections := collections[category := collections[category] - {id}];
    }

    /** `delete_similar_memories`: delete the leading run of search results
        that are similar enough, and tell whether there was any. */
    method DeleteSimilarMemories(category: string, content: string, threshold: real,
                                 answer: Query -> seq<Hit>) returns (deleted: bool)
      modifies this
      ensures var ids := SimilarToDelete(Size(old(collections), category), content, threshold, answer);
        && deleted == (|ids| > 0)
        && collections == WithoutIds(Opened(old(collections), category), category, ids)
    {
      var memories := SearchMemory(category, content, 5, None, None, false, None, None, answer);
      var memoriesToDelete := SimilarIds(memories, threshold);
      assert memoriesToDelete == SimilarToDelete(Size(old(collections), category), content, threshold, answer);
      if |memoriesToDelete| > 0 {
        DeleteEach(category, memoriesToDelete);
      } else {
        assert IdSet(memoriesToDelete) == {};
        assert collections[category] - IdSet(memoriesToDelete) == collections[category];
      }
      deleted := |memoriesToDelete| > 0;
    }

    /** The delete loop of `delete_similar_memories`: `delete_memory` for
        each id in turn. */
    method DeleteEach(category: string, ids: seq<string>)
      requires category in collections
      modifies this
      ensures collections == WithoutIds(old(collections), category, ids)
    {
      ghost var open := collections;
      assert IdSet([]) == {};
      assert open[category] - IdSet([]) == open[category];
      var j := 0;
      while j < |ids|
        invariant 0 <= j <= |ids|
        invariant collections == WithoutIds(open, category, ids[..j])
      {
        DeleteMemory(category, ids[j]);
        assert ids[..j + 1] == ids[..j] + [ids[j]];
        WithoutOneMore(open, category, ids[..j], ids[j]);
        j := j + 1;
      }
      assert ids[..j] == ids;
    }

    /** `memory_exists`: whether `id` is stored, and its metadata carries
        every given key and value when a metadata filter is given. */
    method MemoryExists(category: string, id: string, includesMetadata: Option<Dict<Value>>) returns (found: bool)
      modifies this
      ensures collections == Opened(old(collections), category)
      ensures found <==> (id in collections[category] &&
        (includesMetadata.None? || Matches(collections[category][id].metadata, includesMetadata.value)))
    {
      OpenCollection(category);
      if id !in collections[category] {
        return false;
      }
      if includesMetadata.None? {
        return true;
      }
      LiftMeaning(collections[category][id].metadata, includesMetadata.value);
      found := Holds(collections[category][id].metadata, Lift(includesMetadata.value));
    }

    /** `count_memories` without `unique`: the collection's size. */
    method CountMemories(category: string) returns (n: nat)
      modifies this
      ensures collections == Opened(old(collections), category)
      ensures n == Size(old(collections), category)
    {
      OpenCollection(category);
      n := |collections[category]|;
    }

    /** `wipe_category`: the category is dropped when it exists. */
    method WipeCategory(category: string)
      modifies this
      ensures collections == old(collections) - {category}
      ensures Size(collections, category) == 0
    {
      if category in collections {
        collections := collections - {category};
      }
    }
  }

  /** Creating without an id and reading back: the record sits under the
      16-digit id of the count before the insert, holds the text, keeps the
      caller's other metadata, and has `created_at` and `updated_at` from
      the two clock readings; the count grows by one unless that id was
      already taken. */
  lemma CreateThenGet(cs: map<string, Collection>, category: string, text: string,
                      metadata: Dict<Value>, createdTime: real, updatedTime: real, k: string)
    requires Size(cs, category) < Pow10(IdWidth)
    ensures var after := Created(cs, category, text, metadata, None, createdTime, updatedTime);
      var id := IdFor(Size(cs, category));
      && |id| == IdWidth
      && id in after[category]
      && after[category][id].document == text
      && Get(after[category][id].metadata, CreatedAt) == Some(Num(createdTime))
      && Get(after[category][id].metadata, UpdatedAt) == Some(Num(updatedTime))
      && (k != CreatedAt && k != UpdatedAt ==>
            Get(after[category][id].metadata, k) == match Get(metadata, k) case None => None case Some(v) => Some(CoerceValue(v)))
      && Size(after, category) == Size(cs, category) + (if id in Opened(cs, category)[category] then 0 else 1)
  {
    IdLength(Size(cs, category));
    StampCreateSpec(metadata, createdTime, updatedTime, k);
  }

  /** Count-based ids are reused after a delete: create two records without
      ids, delete the first, create a third, and the third overwrites the
      second. */
  lemma IdReusedAfterDelete(category: string, md: Dict<Value>, createdTime: real, updatedTime: real)
    ensures var one := Created(map[], category, "a", md, None, createdTime, updatedTime);
      var two := Created(one, category, "b", md, None, createdTime, updatedTime);
      var three := WithoutIds(two, category, [IdFor(0)]);
      var four := Created(three, category, "c", md, None, createdTime, updatedTime);
      && Size(two, category) == 2
      && Size(four, category) == 1
      && four[category][IdFor(1)].document == "c"
  {
    var one := Created(map[], category, "a", md, None, createdTime, updatedTime);
    var two := Created(one, category, "b", md, None, createdTime, updatedTime);
    TwoCreates(category, md, createdTime, updatedTime);
    CreateAfterDelete(two, category, md, createdTime, updatedTime);
  }

  /** Two creates without ids into a new category use ids 0 and 1. */
  lemma TwoCreates(category: string, md: Dict<Value>, createdTime: real, updatedTime: real)
    ensures var one := Created(map[], category, "a", md, None, createdTime, updatedTime);
      var two := Created(one, category, "b", md, None, createdTime, updatedTime);
      category in two && two[category].Keys == {IdFor(0), IdFor(1)}
  {
    IdRoundTrip(0);
    IdRoundTrip(1);
    assert IdFor(0) != IdFor(1);
    var one := Created(map[], category, "a", md, None, createdTime, updatedTime);
    assert one[category].Keys == {IdFor(0)};
    assert Size(one, category) == 1;
  }

  /** With ids 0 and 1 stored, deleting 0 and creating again reuses id 1. */
  lemma CreateAfterDelete(two: map<string, Collection>, category: string, md: Dict<Value>,
                          createdTime: real, updatedTime: real)
    requires category in two && two[category].Keys == {IdFor(0), IdFor(1)}
    ensures var four := Created(WithoutIds(two, category, [IdFor(0)]), category, "c", md, None, createdTime, updatedTime);
      Size(four, category) == 1 && four[category][IdFor(1)].document == "c"
  {
    IdRoundTrip(0);
    IdRoundTrip(1);
    var three := WithoutIds(two, category, [IdFor(0)]);
    assert IdSet([IdFor(0)]) == {IdFor(0)};
    assert three[category].Keys == {IdFor(1)};
    assert Size(three, category) == 1;
    var four := Created(three, category, "c", md, None, createdTime, updatedTime);
    assert four[category].Keys == {IdFor(1)};
  }
}
