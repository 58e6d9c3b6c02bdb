# agentmemory facade, modelled in Dafny

`agentmemory/main.py` is a thin facade over a vector store. It gives an
agent a category-scoped "memory". Each category is a collection of records,
and each record has an id, a document text and a flat metadata dict. The
facade has calls to create, create-if-unique, search, get, list, update,
delete, delete-similar, test and count records, and to wipe a category.
Nearest-neighbour ranking and persistence happen inside the store. The
facade keeps a small amount of deterministic logic of its own, and this
project models that logic and proves its properties:

- **Ids** (`Ids.dfy`). A record created without an id gets `str(count).zfill(16)`.
  The proofs cover these points:
  - the id reads back as the count;
  - below 10^16 it is exactly 16 characters long;
  - from 10^16 on it is unpadded;
  - below 10^16, Python string order on ids is count order.
- **Metadata** (`Metadata.dfy`, on top of the insertion-ordered dict of `Dicts.dfy`).
  - Booleans are rewritten to `"True"`/`"False"` by the same loop over the items, run on a value. Every other key and value is left alone.
  - Creating stamps `created_at` and `updated_at` from two separate clock readings; updating stamps `updated_at`.
- **Filters** (`Filters.dfy`).
  - A flat filter of more than one key becomes `{"$and": [{k: {"$eq": v}}, ...]}`.
  - `unique=True` then writes `"unique": "True"` into the filter.
  - Each `where` dict is given its intended meaning (`Holds`). Without `unique`, both branches of the builder select exactly the records the caller's filter describes. With `unique`, when the caller's filter has no `unique` key of its own, they select the records it describes that also carry `unique = "True"`. A caller filter holding `unique = "False"` is overwritten (one key) or selects nothing (several keys).
- **Result post-processing** (`Results.dfy`).
  - The distance window of `search_memory` is applied only when `min_distance > 0` or `max_distance < 1.0`.
  - The similar prefix of `delete_similar_memories` is the walk that stops at the first result not similar enough.
  - `get_memories` sorts by id and cuts with a Python slice.
- **The facade** (`Facade.dfy`). A `MemoryStore` class holds `map<category, map<id, Record>>` and has one method per facade call.
  - Each method states the store it leaves behind.
  - `get_or_create_collection` creates the category as a side effect of every call except `wipe_category`.
  - What only the store can compute comes in as a function argument, standing for the store's answer: the ranked hits of a query, or the records a filtered fetch returns.

Two behaviours of the code differ from the facade's documented intent. The
model follows the code in both:

- `update_memory` with a text and no metadata does not update anything. Its
  line `metadata["updated_at"] = ...` runs with `metadata` set to `None`
  and raises. The documentation only rejects a call that has neither.
  `UpdateMemory` returns `Failed(MetadataIsNone)` there, and
  `TextOnlyUpdateFails` states it.
- Generated ids are described as strictly increasing. They come from the
  current count, so after a delete the next generated id can be one already
  in use. The upsert then overwrites that record. `IdReusedAfterDelete` builds this case.

## Model

| member | source | states |
|---|---|---|
| Dicts.Get | agentmemory/main.py:48-51 | a read of a metadata dict by key (`d.get(k)`), the read every metadata contract is stated with: a value exactly when `k` is a key, and then the value stored under `k` |
| Dicts.Set | agentmemory/main.py:37-38 | `d[k] = v` on a dict: afterwards `k` maps to `v`, every other key keeps its value, an existing key stays in place and a new key is appended |
| Dicts.Merge | agentmemory/main.py:353 | the store's metadata update: a key of the update reads back with the update's value, any other key with the stored value |
| Metadata.CoerceBooleans | agentmemory/main.py:48-51 | the in-place loop over the items leaves exactly the coerced dict: same keys in the same order, each boolean replaced by its text |
| Metadata.CoercedGet | agentmemory/main.py:48-51 | after coercion a key reads back as the coerced value of what it held, and an absent key stays absent |
| Metadata.CoercedHasNoBooleans | agentmemory/main.py:48-51 | no boolean survives coercion, and a boolean `b` reads back as `"True"` or `"False"` |
| Metadata.CoercedIdentity | agentmemory/main.py:342-345 | metadata without booleans is left exactly as it was |
| Metadata.Coerced | agentmemory/main.py:48-51 | the metadata after coercion: the same keys in the same order, each boolean replaced by its text |
| Metadata.StampCreate | agentmemory/main.py:36-51 | the metadata `create_memory` stores: `created_at` and `updated_at` written from their two clock readings, then booleans coerced; both timestamp keys are present |
| Metadata.StampUpdate | agentmemory/main.py:340-347 | the metadata `update_memory` sends: booleans coerced, then `updated_at` written; the keys are the caller's, with `updated_at` appended when new |
| Metadata.StampCreateSpec | agentmemory/main.py:36-51 | created metadata has `created_at` equal to the first clock reading and `updated_at` equal to the second, every other key with the caller's (coerced) value, and no boolean |
| Metadata.StampUpdateSpec | agentmemory/main.py:340-347 | metadata sent by an update has `updated_at` equal to the clock reading, every other key with the caller's (coerced) value, and no boolean |
| Ids.DecimalString | agentmemory/main.py:42 | `str(count)` is a non-empty digit string with no leading zero |
| Ids.ZFill | agentmemory/main.py:44 | `zfill(width)` keeps a string of at least `width` characters; a shorter one becomes `width` long, ends with the string, and starts with '0's |
| Ids.IdFor | agentmemory/main.py:41-44 | the generated id `str(count).zfill(16)`: all digits and at least 16 characters |
| Ids.IdRoundTrip | agentmemory/main.py:41-44 | a generated id is all digits and reads back as the count it came from, so distinct counts give distinct ids |
| Ids.IdLength | agentmemory/main.py:41-44 | below 10^16 a generated id is exactly 16 characters |
| Ids.IdUnpadded | agentmemory/main.py:41-44 | from 10^16 on the id is `str(count)` unpadded and longer than 16 characters |
| Ids.IdOrder | agentmemory/main.py:41-44 | for counts below 10^16, the id of the smaller count is strictly smaller in string order, and not the reverse |
| Ids.LexLess | agentmemory/main.py:302 | Python's `<` on strings, which `memories.sort(key=id)` orders ids by: a proper prefix sorts before the longer string, and a longer string never sorts before its own prefix |
| Ids.LexLessValue | agentmemory/main.py:302 | on equal-length digit strings, string order implies numeric order |
| Ids.LexLessIrreflexive | agentmemory/main.py:302 | no id sorts before itself |
| Ids.LexLessTransitive | agentmemory/main.py:302 | the string order used to sort ids is transitive |
| Ids.LexLessTotal | agentmemory/main.py:302 | of two distinct ids one sorts before the other |
| Filters.Lift | agentmemory/main.py:156-162 | a filter of at most one key is used as the `where` dict as it is; what it selects is stated by `Filters.LiftMeaning` |
| Filters.EqClauses | agentmemory/main.py:158-160 | one `$eq` clause per filter key, in key order; what their `$and` selects is stated by `Filters.ConjunctionMeaning` |
| Filters.BuildWhere | agentmemory/main.py:156-167 | with `unique` the result always carries `unique = "True"`; without it, there is a filter exactly when the caller gave one; more than one key gives `$and` of the clauses (plus `unique` beside it); at most one key keeps its keys, with `unique` appended when not already there |
| Filters.LiftMeaning | agentmemory/main.py:156-162 | the flat `where` selects a record exactly when its metadata carries every filter key with the filter's value |
| Filters.ConjunctionMeaning | agentmemory/main.py:158-162 | the `$and` of equality clauses selects exactly the records the flat filter describes |
| Filters.HoldsAppend | agentmemory/main.py:164-167 | writing a new key into a `where` dict adds its condition to the existing ones |
| Filters.BuildWhereMeaning | agentmemory/main.py:156-167 | without `unique` a record passes iff there is no filter or its metadata matches; with `unique` (and no `unique` key in the caller's filter) iff it matches and carries `unique = "True"` |
| Filters.UniqueFlagConflict | agentmemory/main.py:164-167 | a caller filter holding `unique = "False"` is overwritten by `unique=True` when it has one key, and selects nothing beside `$and` when it has more |
| Results.AtLeast | agentmemory/main.py:184-185 | the `min_distance` comprehension: no longer than its input, and every kept result was in the input with distance at least the bound |
| Results.AtMost | agentmemory/main.py:187-188 | the `max_distance` comprehension: no longer than its input, and every kept result was in the input with distance at most the bound |
| Results.MinActive | agentmemory/main.py:184 | the guard `min_distance is not None and min_distance > 0`: off for the default `None` and for 0.0, the lower end of the documented range |
| Results.MaxActive | agentmemory/main.py:187 | the guard `max_distance is not None and max_distance < 1.0`: off for the default `None` and for 1.0, the upper end of the documented range |
| Results.SkippedBoundsKeepAll | agentmemory/main.py:108-109 | on distances in the documented 0.0 - 1.0 range, a bound that is given but inactive would have kept every result had its comprehension run, so skipping it loses nothing |
| Results.DistanceWindow | agentmemory/main.py:184-188 | the two filters, each applied only when active: never longer than the input, every kept result is from the input and inside the active bounds, and with no active bound the input is returned as it is |
| Results.TwoPassesAreOne | agentmemory/main.py:184-188 | the two list comprehensions together equal one pass keeping the results inside every active bound |
| Results.KeepInWindowFacts | agentmemory/main.py:184-188 | one pass keeps an order-preserving subsequence, no longer than the input, whose members are exactly the in-window results |
| Results.KeepInWindowSorted | agentmemory/main.py:184-188 | filtering keeps a nearest-first list nearest first |
| Results.DistanceWindowSpec | agentmemory/main.py:184-188 | the window is an order-preserving subsequence, never longer than the input; a result stays iff it passes every active bound (`>= min` when `min > 0`, `<= max` when `max < 1.0`); it keeps sortedness; with no active bound it is the identity |
| Results.SimilarPrefix | agentmemory/main.py:408-415 | the longest prefix of the results whose similarity `1 - distance` exceeds the threshold: all of it is similar, and the first result after it is not |
| Results.Similar | agentmemory/main.py:410-411 | `1.0 - distance > similarity_threshold`: exactly when the distance is below `1 - threshold`, and never for a non-negative distance when the threshold is 1 or more |
| Results.IdsOf | agentmemory/main.py:412 | the ids of the results, one per result, in order; that the loop collects exactly the similar prefix's ids is stated by `Results.SimilarIds` |
| Results.SortedSimilarPrefix | agentmemory/main.py:414-415 | when the results are nearest first, the prefix holds exactly the similar results |
| Results.SimilarIds | agentmemory/main.py:405-415 | the collecting loop with `break` returns the ids of exactly the similar prefix |
| Results.PrecedesAsymmetric | agentmemory/main.py:302 | in either sort direction no two ids precede each other |
| Results.NotPrecedesTransitive | agentmemory/main.py:302 | "does not precede" is transitive, so sorting by it is well defined |
| Results.InsertSorted | agentmemory/main.py:302 | inserting into an id-sorted list keeps it sorted |
| Results.InsertMultiset | agentmemory/main.py:302 | inserting adds exactly the one record |
| Results.SortById | agentmemory/main.py:302 | the sort yields a permutation of the fetched records, sorted by id, descending iff asked |
| Results.SortedUnique | agentmemory/main.py:302 | two id-sorted permutations of records with distinct ids are equal, so the sorted order is determined by the records alone |
| Results.Precedes | agentmemory/main.py:302 | `reverse=sort_order == "desc"`: an id never precedes itself, and of two distinct ids, when one does not precede the other then the other precedes it in the chosen direction |
| Results.Slice | agentmemory/main.py:305 | Python's `s[:n]`: a prefix of `s`, of length `min(n, len(s))` for `n >= 0` and `max(len(s) + n, 0)` for a negative `n` |
| Results.SortAndTruncate | agentmemory/main.py:269-305 | the sort by id (descending iff `sort_order == "desc"`) cut to `min(n_results, count)`: a prefix of the sorted fetch, no longer than the fetch |
| Results.SortAndTruncateSpec | agentmemory/main.py:269-305 | the result is a prefix of the fetched records in id order (descending iff `sort_order == "desc"`), sorted, holding only fetched records; it has `min(n_results, count, matches)` records when `n_results >= 0`, and a negative `n_results` drops that many from the end |
| Facade.Opened | agentmemory/main.py:34 | `get_or_create_collection` leaves the category present (empty if it was missing) and every other category as it was |
| Facade.Size | agentmemory/main.py:486-490 | `collection.count()` (also the source of generated ids and of the `n_results` clamp): the number of records of an existing category, and 0 exactly when the category is missing or empty |
| Facade.Created | agentmemory/main.py:33-59 | the store after a create: only the category gains a key; the record (text, stamped metadata) sits under the given id or `IdFor` of the pre-insert count, and every other record and category is unchanged |
| Facade.PlanSearch | agentmemory/main.py:146-176 | no query on an empty category; otherwise one query with the text, the document filter, the built `where`, and `n_results` clamped to `min(n_results, count)` |
| Facade.SearchResult | agentmemory/main.py:141-192 | what a search returns: `[]` for an empty category, otherwise only results from the store's answer to the planned query that lie inside the active distance bounds |
| Facade.SearchResultSpec | agentmemory/main.py:141-192 | search returns `[]` on an empty category; otherwise an order-preserving subsequence of the store's answer, sorted if the answer is, holding exactly the answers inside the active distance bounds |
| Facade.UniqueSearch | agentmemory/main.py:78-87 | the bounded search of `create_unique_memory`: nothing for an empty category, and with `similarity > 0` every result within distance `1 - similarity` |
| Facade.UniqueAnnotation | agentmemory/main.py:89-96 | the metadata passed on to `create_memory`: it always carries `unique`, and with a match also `related_to` and `related_document` |
| Facade.UniqueAnnotationGet | agentmemory/main.py:89-96 | with no match the metadata gets `unique = "True"`; with a match `unique = "False"`, `related_to` = its id and `related_document` = its document; every other key is the caller's |
| Facade.UniqueMatchWithinBound | agentmemory/main.py:78-87 | with `similarity > 0`, a match found for a unique memory lies within distance `1 - similarity` |
| Facade.UniqueAnnotationSpec | agentmemory/main.py:89-97 | the record stored by a unique create carries the flag (and, with a match, its id and document) after stamping; other keys keep the caller's coerced values |
| Facade.UpdateOutcome | agentmemory/main.py:337-347 | an update goes through iff metadata is given; it is rejected as "No text or metadata provided" iff both are missing |
| Facade.TextOnlyUpdateFails | agentmemory/main.py:347 | an update with a text and no metadata fails on `metadata` being `None` |
| Facade.Updated | agentmemory/main.py:349-353 | the collection after the store's update: same ids, every other record unchanged, and a missing id leaves the collection as it was |
| Facade.UpdatedSpec | agentmemory/main.py:340-353 | after an update with metadata the ids are unchanged; the document is the new text if given and the old one otherwise; `updated_at` is the clock reading; keys the update does not name (`created_at` among them) keep their stored values; named keys take the new coerced value |
| Facade.WithoutIds | agentmemory/main.py:422-423 | the store after deleting a list of ids from one category: an id stays exactly when it is not in the list, kept records are unchanged, and other categories are untouched |
| Facade.SimilarToDelete | agentmemory/main.py:402-415 | the ids `delete_similar_memories` deletes: those of the similar prefix of the five-result search, none for an empty category |
| Facade.WithoutOneMore | agentmemory/main.py:422-423 | deleting one more id after a run of deletes is deleting the run extended by that id |
| Facade.SimilarToDeleteSpec | agentmemory/main.py:402-415 | the deleted ids are those of the leading similar run of the five-result search, in order; the first result after the run is not similar; with nearest-first results every similar result is deleted |
| Facade.CreateThenGet | agentmemory/main.py:36-59 | a create without an id stores the record under the 16-character id of the pre-insert count, with the text, `created_at` and `updated_at` from the first and second clock readings, the caller's other keys coerced, and the count one higher unless that id was taken |
| Facade.IdReusedAfterDelete | agentmemory/main.py:41-44 | create, create, delete the first, create: the third create reuses the second's id and overwrites it |
| Facade.MemoryStore.OpenCollection | agentmemory/main.py:34 | the store after `get_or_create_collection` |
| Facade.MemoryStore.CreateMemory | agentmemory/main.py:14-59 | the new store is the old one with the record (stamped, coerced metadata) upserted under the given id or the generated one |
| Facade.MemoryStore.CreateUniqueMemory | agentmemory/main.py:64-97 | exactly one create, of the content, with the metadata annotated from the result of the bounded search for a unique memory |
| Facade.MemoryStore.SearchMemory | agentmemory/main.py:100-192 | the category is opened and the results are `SearchResult` of the pre-call count and the store's answer |
| Facade.MemoryStore.GetMemory | agentmemory/main.py:195-234 | returns the record iff the id is stored (nothing otherwise), with its id, document and metadata |
| Facade.MemoryStore.GetMemories | agentmemory/main.py:237-309 | the category is opened and the result is the sorted, truncated fetch of the built filter |
| Facade.MemoryStore.UpdateMemory | agentmemory/main.py:312-358 | outcome as `UpdateOutcome`; on failure only the category is opened; otherwise the record (if present) is updated with the stamped, coerced metadata and an absent id leaves the store alone |
| Facade.MemoryStore.DeleteMemory | agentmemory/main.py:361-390 | the id is removed from the category; a missing id changes nothing (beyond opening the category); the count drops by one exactly when the id was there |
| Facade.MemoryStore.DeleteSimilarMemories | agentmemory/main.py:393-428 | exactly the ids of `SimilarToDelete` are removed, and the result is true iff there was at least one |
| Facade.MemoryStore.DeleteEach | agentmemory/main.py:417-423 | the delete loop removes every listed id from the category and nothing else |
| Facade.MemoryStore.MemoryExists | agentmemory/main.py:431-462 | true iff the id is stored and, when a metadata filter is given, its metadata carries every filter key and value |
| Facade.MemoryStore.CountMemories | agentmemory/main.py:465-490 | the number of records in the category (0 for a new one), which is opened |
| Facade.MemoryStore.WipeCategory | agentmemory/main.py:493-518 | the category is dropped if it exists and nothing else changes; its count is 0 afterwards |

## Left out

- The vector store itself is not modelled. Embedding computation, nearest-neighbour ranking, and the store's validation of `where` expressions happen there. Query answers and filtered fetches are function parameters, and the model assumes nothing about them beyond what a caller can observe.
- The store's write semantics are assumed: `upsert` replaces the whole record; `update` replaces the document when one is given, merges the metadata, and ignores an id that is not stored; `delete` removes the id.
- Facade.MemoryStore.MemoryExists: the caller's `includes_metadata` is given its intended meaning (every key equal). The store itself may reject a `where` dict of more than one key without `$and`, and that rejection is not modelled.
- The `embedding` argument of `create_memory` and the `include_embeddings` / `include_distances` flags are not modelled. They only decide which fields the store stores or returns.
- Timestamps: the clock readings are arguments (`createdTime` and `updatedTime` for the two readings of `create_memory`, `now` for `update_memory`). Whether `updated_at > created_at` after an update depends on the clock, so it is not stated.
- Floating point: distances, similarities and timestamps are reals, so rounding of `1.0 - similarity` and `1.0 - distance` is not modelled.
- `debug_log`, `print` warnings and `check_client_initialized` are logging or lazy setup with no effect on results.
- `wipe_all_memories` is not modelled. It is a loop over the store's `list_collections`, whose behaviour is not visible.
- `count_memories(unique=True)` is not modelled. It calls `.count()` on the result of the store's `get`, whose type is not visible. CountMemories covers `unique=False`.
- Python's shared mutable default `metadata={}` and the caller-visible mutation of the passed dict are not modelled; metadata is a value.
- Results.SortById: `list.sort` sorts in place; the model sorts a value with an insertion sort. `Insert` places a record before the first one it does not follow, so records with equal ids keep their fetched order in both directions, as with Python's stable sort. This stability is not stated as a lemma. `SortedUnique` shows that with distinct ids the sorted order is determined anyway.
- Ids.ZFill: models `zfill` on the unsigned strings that `str(count)` produces. The sign handling of `zfill` is not modelled.
- `str(id)` on caller ids: ids are strings in the model.
