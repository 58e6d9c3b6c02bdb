/** What the facade does with the records the store hands back: the distance
    window of `search_memory`, the similar prefix of
    `delete_similar_memories`, and the sort-and-truncate of `get_memories`. */
module Results {
  import opened Dicts
  import opened Metadata
  import opened Ids

  /** One search result, nearest first in the store's answer. */
  datatype Hit = Hit(id: string, document: string, metadata: Dict<Value>, distance: real)

  /** One record as `get_memory` and `get_memories` return it. */
  datatype Memory = Memory(id: string, document: string, metadata: Dict<Value>)

  predicate SortedByDistance(hits: seq<Hit>) {
    forall i, j :: 0 <= i < j < |hits| ==> hits[i].distance <= hits[j].distance
  }

  /** `a` is `b` with some elements left out, in the same order. */
  ghost predicate IsSubsequence(a: seq<Hit>, b: seq<Hit>) {
    if a == [] then true
    else if b == [] then false
    else (a[0] == b[0] && IsSubsequence(a[1..], b[1..])) || IsSubsequence(a, b[1..])
  }

  // ---------------------------------------------------------------------
  // The distance window of search_memory

  /** `min_distance` only filters when it is given and above 0: the
      default and the lower end of the documented 0.0 - 1.0 range do not. */
  predicate MinActive(minDistance: Option<real>): (r: bool)
    ensures minDistance.None? ==> !r
    ensures minDistance == Some(0.0) ==> !r
  {
    minDistance.Some? && minDistance.value > 0.0
  }

  /** `max_distance` only filters when it is given and below 1.0: the
      default and the upper end of the documented 0.0 - 1.0 range do not. */
  predicate MaxActive(maxDistance: Option<real>): (r: bool)
    ensures maxDistance.None? ==> !r
    ensures maxDistance == Some(1.0) ==> !r
  {
    maxDistance.Some? && maxDistance.value < 1.0
  }

  /** `[res for res in hits if res["distance"] >= lo]` */
  function AtLeast(hits: seq<Hit>, lo: real): (r: seq<Hit>)
    ensures |r| <= |hits|
    ensures forall h :: h in r ==> h in hits && h.distance >= lo
  {
    if hits == [] then []
    else (if hits[0].distance >= lo then [hits[0]] else []) + AtLeast(hits[1..], lo)
  }

  /** `[res for res in hits if res["distance"] <= hi]` */
  function AtMost(hits: seq<Hit>, hi: real): (r: seq<Hit>)
    ensures |r| <= |hits|
    ensures forall h :: h in r ==> h in hits && h.distance <= hi
  {
    if hits == [] then []
    else (if hits[0].distance <= hi then [hits[0]] else []) + AtMost(hits[1..], hi)
  }

  /** Skipping a bound that is given but inactive loses nothing on
      distances in the documented 0.0 - 1.0 range: had its comprehension
      run, it would have kept every result. */
  lemma {:induction false} SkippedBoundsKeepAll(hits: seq<Hit>, minDistance: Option<real>, maxDistance: Option<real>)
    requires forall h :: h in hits ==> 0.0 <= h.distance <= 1.0
    ensures minDistance.Some? && !MinActive(minDistance) ==> AtLeast(hits, minDistance.value) == hits
    ensures maxDistance.Some? && !MaxActive(maxDistance) ==> AtMost(hits, maxDistance.value) == hits
  {
    if hits != [] {
      assert hits[0] in hits;
      assert forall h :: h in hits[1..] ==> h in hits;
      SkippedBoundsKeepAll(hits[1..], minDistance, maxDistance);
      assert hits == [hits[0]] + hits[1..];
    }
  }

  /** The two filters of `search_memory`, each applied only when active. */
  function DistanceWindow(hits: seq<Hit>, minDistance: Option<real>, maxDistance: Option<real>): (r: seq<Hit>)
    ensures |r| <= |hits|
    ensures forall h :: h in r ==> h in hits && InWindow(h.distance, minDistance, maxDistance)
    ensures !MinActive(minDistance) && !MaxActive(maxDistance) ==> r == hits
  {
    var kept := if MinActive(minDistance) then AtLeast(hits, minDistance.value) else hits;
    if MaxActive(maxDistance) then AtMost(kept, maxDistance.value) else kept
  }

  /** Whether a distance passes the window. */
  predicate InWindow(d: real, minDistance: Option<real>, maxDistance: Option<real>) {
    && (MinActive(minDistance) ==> d >= minDistance.value)
    && (MaxActive(maxDistance) ==> d <= maxDistance.value)
  }

  /** The window as one pass over the results: the reference the two-pass
      filter is checked against. */
  function KeepInWindow(hits: seq<Hit>, minDistance: Option<real>, maxDistance: Option<real>): seq<Hit> {
    if hits == [] then []
    else
      (if InWindow(hits[0].distance, minDistance, maxDistance) then [hits[0]] else [])
      + KeepInWindow(hits[1..], minDistance, maxDistance)
  }

  lemma {:induction false} TwoPassesAreOne(hits: seq<Hit>, minDistance: Option<real>, maxDistance: Option<real>)
    ensures DistanceWindow(hits, minDistance, maxDistance) == KeepInWindow(hits, minDistance, maxDistance)
  {
    if hits != [] {
      var x, t := hits[0], hits[1..];
      TwoPassesAreOne(t, minDistance, maxDistance);
      assert hits == [x] + t;
      var keptTail := if MinActive(minDistance) then AtLeast(t, minDistance.value) else t;
      var head := if MinActive(minDistance) ==> x.distance >= minDistance.value then [x] else [];
      var kept := if MinActive(minDistance) then AtLeast(hits, minDistance.value) else hits;
      assert kept == head + keptTail;
      if MaxActive(maxDistance) {
        var hi := maxDistance.value;
        if head == [x] {
          assert (head + keptTail)[0] == x && (head + keptTail)[1..] == keptTail;
          assert AtMost(kept, hi) == (if x.distance <= hi then [x] else []) + AtMost(keptTail, hi);
        } else {
          assert kept == keptTail;
        }
      }
    }
  }

  lemma {:induction false} KeepInWindowFacts(hits: seq<Hit>, minDistance: Option<real>, maxDistance: Option<real>)
    ensures IsSubsequence(KeepInWindow(hits, minDistance, maxDistance), hits)
    ensures forall h :: h in KeepInWindow(hits, minDistance, maxDistance) <==>
      h in hits && InWindow(h.distance, minDistance, maxDistance)
    ensures |KeepInWindow(hits, minDistance, maxDistance)| <= |hits|
  {
    if hits != [] {
      var x, t := hits[0], hits[1..];
      var r, rt := KeepInWindow(hits, minDistance, maxDistance), KeepInWindow(t, minDistance, maxDistance);
      KeepInWindowFacts(t, minDistance, maxDistance);
      assert hits == [x] + t;
      assert forall h :: h in hits <==> h == x || h in t;
      if InWindow(x.distance, minDistance, maxDistance) {
        assert r == [x] + rt;
        assert r[0] == hits[0] && r[1..] == rt;
        assert forall h :: h in r <==> h == x || h in rt;
      } else {
        assert r == rt;
      }
    }
  }

  lemma {:induction false} KeepInWindowSorted(hits: seq<Hit>, minDistance: Option<real>, maxDistance: Option<real>)
    requires SortedByDistance(hits)
    ensures SortedByDistance(KeepInWindow(hits, minDistance, maxDistance))
  {
    if hits != [] {
      var t := hits[1..];
      SortedTail(hits);
      KeepInWindowSorted(t, minDistance, maxDistance);
      KeepInWindowFacts(t, minDistance, maxDistance);
      var rt := KeepInWindow(t, minDistance, maxDistance);
      if InWindow(hits[0].distance, minDistance, maxDistance) {
        forall h | h in rt ensures hits[0].distance <= h.distance {
          var k :| 0 <= k < |t| && t[k] == h;
          assert hits[k + 1] == h;
        }
        SortedCons(hits[0], rt);
      }
    }
  }

  lemma SortedTail(hits: seq<Hit>)
    requires hits != [] && SortedByDistance(hits)
    ensures SortedByDistance(hits[1..])
  {
    var t := hits[1..];
    forall i, j | 0 <= i < j < |t| ensures t[i].distance <= t[j].distance {
      assert t[i] == hits[i + 1] && t[j] == hits[j + 1];
    }
  }

  lemma SortedCons(x: Hit, t: seq<Hit>)
    requires SortedByDistance(t)
    requires forall h :: h in t ==> x.distance <= h.distance
    ensures SortedByDistance([x] + t)
  {
    var r := [x] + t;
    forall i, j | 0 <= i < j < |r| ensures r[i].distance <= r[j].distance {
      assert r[j] == t[j - 1];
      if i > 0 {
        assert r[i] == t[i - 1];
      } else {
        assert t[j - 1] in t;
      }
    }
  }

  /** The window keeps, in their order, exactly the results whose distance
      passes every active bound; it never lengthens the list, keeps it sorted
      by distance, and with neither bound active it changes nothing. */
  lemma DistanceWindowSpec(hits: seq<Hit>, minDistance: Option<real>, maxDistance: Option<real>)
    ensures IsSubsequence(DistanceWindow(hits, minDistance, maxDistance), hits)
    ensures |DistanceWindow(hits, minDistance, maxDistance)| <= |hits|
    ensures forall h :: h in DistanceWindow(hits, minDistance, maxDistance) <==>
      && h in hits
      && (MinActive(minDistance) ==> h.distance >= minDistance.value)
      && (MaxActive(maxDistance) ==> h.distance <= maxDistance.value)
    ensures SortedByDistance(hits) ==> SortedByDistance(DistanceWindow(hits, minDistance, maxDistance))
    ensures !MinActive(minDistance) && !MaxActive(maxDistance) ==> DistanceWindow(hits, minDistance, maxDistance) == hits
  {
    TwoPassesAreOne(hits, minDistance, maxDistance);
    KeepInWindowFacts(hits, minDistance, maxDistance);
    if SortedByDistance(hits) {
      KeepInWindowSorted(hits, minDistance, maxDistance);
    }
  }

  // ---------------------------------------------------------------------
  // The similar prefix of delete_similar_memories

  /** `1.0 - distance > similarity_threshold`: the result lies strictly
      closer than `1 - threshold`, so with a threshold of 1 or more no
      result at a non-negative distance is similar. */
  predicate Similar(h: Hit, threshold: real): (r: bool)
    ensures r <==> h.distance < 1.0 - threshold
    ensures threshold >= 1.0 && h.distance >= 0.0 ==> !r
  {
    1.0 - h.distance > threshold
  }

  /** The longest prefix of the results that are all similar enough: the
      walk stops at the first result that is not. */
  function SimilarPrefix(hits: seq<Hit>, threshold: real): (r: seq<Hit>)
    ensures |r| <= |hits| && r == hits[..|r|]
    ensures forall i :: 0 <= i < |r| ==> Similar(r[i], threshold)
    ensures |r| < |hits| ==> !Similar(hits[|r|], threshold)
  {
    if hits == [] || !Similar(hits[0], threshold) then []
    else [hits[0]] + SimilarPrefix(hits[1..], threshold)
  }

  function IdsOf(hits: seq<Hit>): (ids: seq<string>)
    ensures |ids| == |hits|
    ensures forall i :: 0 <= i < |hits| ==> ids[i] == hits[i].id
  {
    seq(|hits|, i requires 0 <= i < |hits| => hits[i].id)
  }

  /** When the results really are nearest first, nothing after the prefix
      would have matched either: the prefix is every similar result. */
  lemma SortedSimilarPrefix(hits: seq<Hit>, threshold: real)
    requires SortedByDistance(hits)
    ensures forall h :: h in SimilarPrefix(hits, threshold) <==> h in hits && Similar(h, threshold)
  {
    var r := SimilarPrefix(hits, threshold);
    forall h | h in hits && Similar(h, threshold) ensures h in r {
      var j :| 0 <= j < |hits| && hits[j] == h;
      if j < |r| {
        assert r[j] == h;
      }
    }
  }

  /** The first loop of `delete_similar_memories`: collect ids while the
      results are similar enough and `break` at the first that is not. */
  method SimilarIds(hits: seq<Hit>, threshold: real) returns (ids: seq<string>)
    ensures ids == IdsOf(SimilarPrefix(hits, threshold))
  {
    ids := [];
    var i := 0;
    if |hits| > 0 {
      while i < |hits|
        invariant 0 <= i <= |hits|
        invariant ids == IdsOf(hits[..i])
        invariant forall j :: 0 <= j < i ==> Similar(hits[j], threshold)
      {
        var goalSimilarity := 1.0 - hits[i].distance;
        if goalSimilarity > threshold {
          ids := ids + [hits[i].id];
        } else {
          break;
        }
        i := i + 1;
      }
    }
    PrefixIsSimilarPrefix(hits, threshold, i);
  }

  /** A prefix that is all similar and stops at the end or at a result that
      is not similar is the similar prefix. */
  lemma {:induction false} PrefixIsSimilarPrefix(hits: seq<Hit>, threshold: real, n: nat)
    requires n <= |hits|
    requires forall j :: 0 <= j < n ==> Similar(hits[j], threshold)
    requires n < |hits| ==> !Similar(hits[n], threshold)
    ensures SimilarPrefix(hits, threshold) == hits[..n]
  {
  }

  // ---------------------------------------------------------------------
  // The sort and truncation of get_memories

  /** Whether id `a` comes before id `b`: ascending string order, or
      descending when `descending` holds (`reverse=True`). */
  predicate Precedes(a: string, b: string, descending: bool): (r: bool)
    ensures r ==> a != b
    ensures a != b && !r ==> (if descending then LexLess(a, b) else LexLess(b, a))
  {
    LexLessIrreflexive(a);
    LexLessTotal(a, b);
    if descending then LexLess(b, a) else LexLess(a, b)
  }

  predicate SortedById(s: seq<Memory>, descending: bool) {
    forall i, j :: 0 <= i < j < |s| ==> !Precedes(s[j].id, s[i].id, descending)
  }

  predicate DistinctIds(s: seq<Memory>) {
    forall i, j :: 0 <= i < j < |s| ==> s[i].id != s[j].id
  }

  lemma PrecedesAsymmetric(a: string, b: string, descending: bool)
    requires Precedes(a, b, descending)
    ensures !Precedes(b, a, descending)
  {
    if Precedes(b, a, descending) {
      LexLessTransitive(a, b, a);
      LexLessIrreflexive(a);
    }
  }

  /** "Not after" is transitive. */
  lemma NotPrecedesTransitive(a: string, b: string, c: string, descending: bool)
    requires !Precedes(a, b, descending) && !Precedes(b, c, descending)
    ensures !Precedes(a, c, descending)
  {
    if Precedes(a, c, descending) && b != c {
      LexLessTotal(b, c);
      if descending {
        LexLessTransitive(b, c, a);
      } else {
        LexLessTransitive(a, c, b);
      }
    }
  }

  /** One step of insertion sort. */
  function Insert(m: Memory, s: seq<Memory>, descending: bool): seq<Memory> {
    if s == [] || !Precedes(s[0].id, m.id, descending) then [m] + s
    else [s[0]] + Insert(m, s[1..], descending)
  }

  lemma {:induction false} InsertMultiset(m: Memory, s: seq<Memory>, descending: bool)
    ensures multiset(Insert(m, s, descending)) == multiset(s) + multiset{m}
  {
    if s != [] && Precedes(s[0].id, m.id, descending) {
      InsertMultiset(m, s[1..], descending);
      assert s == [s[0]] + s[1..];
    }
  }

  lemma {:induction false} InsertSorted(m: Memory, s: seq<Memory>, descending: bool)
    requires SortedById(s, descending)
    ensures SortedById(Insert(m, s, descending), descending)
  {
    var r := Insert(m, s, descending);
    if s == [] {
    } else if !Precedes(s[0].id, m.id, descending) {
      assert r == [m] + s;
      forall j | 1 <= j < |r| ensures !Precedes(r[j].id, m.id, descending) {
        if j > 1 {
          assert r[j] == s[j - 1];
          NotPrecedesTransitive(r[j].id, s[0].id, m.id, descending);
        }
      }
    } else {
      var t := s[1..];
      InsertSorted(m, t, descending);
      InsertMultiset(m, t, descending);
      var rt := Insert(m, t, descending);
      assert r == [s[0]] + rt;
      PrecedesAsymmetric(s[0].id, m.id, descending);
      forall j | 0 <= j < |rt| ensures !Precedes(rt[j].id, s[0].id, descending) {
        InsertedNotBefore(m, t, descending, j, s[0]);
        if rt[j] != m {
          var k :| 0 <= k < |t| && t[k] == rt[j];
          assert s[k + 1] == rt[j];
        }
      }
    }
  }

  lemma InsertedNotBefore(m: Memory, t: seq<Memory>, descending: bool, j: nat, first: Memory)
    requires j < |Insert(m, t, descending)|
    ensures Insert(m, t, descending)[j] == m || Insert(m, t, descending)[j] in t
  {
    InsertMultiset(m, t, descending);
    assert Insert(m, t, descending)[j] in multiset(Insert(m, t, descending));
  }

  /** `memories.sort(key=lambda x: x["id"], reverse=descending)`: a library
      sort, modelled by insertion sort. */
  function SortById(s: seq<Memory>, descending: bool): (r: seq<Memory>)
    ensures multiset(r) == multiset(s)
    ensures SortedById(r, descending)
  {
    if s == [] then []
    else
      var rest := SortById(s[1..], descending);
      InsertSorted(s[0], rest, descending);
      InsertMultiset(s[0], rest, descending);
      assert s == [s[0]] + s[1..];
      Insert(s[0], rest, descending)
  }

  /** Two lists sorted the same way with the same elements and distinct ids
      are equal: any correct sort gives the list `SortById` gives. */
  lemma {:induction false} SortedUnique(a: seq<Memory>, b: seq<Memory>, descending: bool)
    requires SortedById(a, descending) && SortedById(b, descending)
    requires multiset(a) == multiset(b) && DistinctIds(a)
    ensures a == b
  {
    if a != [] {
      SameFirst(a, b, descending);
      assert a == [a[0]] + a[1..] && b == [b[0]] + b[1..];
      assert multiset(a) == multiset{a[0]} + multiset(a[1..]);
      assert multiset(b) == multiset{b[0]} + multiset(b[1..]);
      assert multiset(a[1..]) == multiset(a) - multiset{a[0]};
      assert multiset(b[1..]) == multiset(b) - multiset{b[0]};
      TailFacts(a, descending);
      TailFacts(b, descending);
      SortedUnique(a[1..], b[1..], descending);
    }
  }

  lemma SameFirst(a: seq<Memory>, b: seq<Memory>, descending: bool)
    requires a != [] && SortedById(a, descending) && SortedById(b, descending)
    requires multiset(a) == multiset(b) && DistinctIds(a)
    ensures b != [] && a[0] == b[0]
  {
    assert a[0] in multiset(b);
    var k :| 0 <= k < |b| && b[k] == a[0];
    assert b[0] in multiset(a);
    var j :| 0 <= j < |a| && a[j] == b[0];
    // each first element sorts no later than the other, so their ids agree
    NotBeforeFirst(a, j, descending);
    NotBeforeFirst(b, k, descending);
    assert a[0].id == b[0].id;
    assert j == 0;
  }

  lemma NotBeforeFirst(s: seq<Memory>, i: int, descending: bool)
    requires SortedById(s, descending) && 0 <= i < |s|
    ensures !Precedes(s[i].id, s[0].id, descending)
  {
  }

  lemma TailFacts(a: seq<Memory>, descending: bool)
    requires a != []
    ensures SortedById(a, descending) ==> SortedById(a[1..], descending)
    ensures DistinctIds(a) ==> DistinctIds(a[1..])
  {
    assert forall i :: 0 <= i < |a| - 1 ==> a[1..][i] == a[i + 1];
  }

  /** Python's `s[:n]`, a negative `n` counting from the end. */
  function Slice(s: seq<Memory>, n: int): (r: seq<Memory>)
    ensures |r| <= |s| && r == s[..|r|]
    ensures n >= 0 ==> |r| == Min(n, |s|)
    ensures n < 0 ==> |r| == if |s| + n > 0 then |s| + n else 0
  {
    if n >= 0 then s[..if n < |s| then n else |s|]
    else s[..if |s| + n > 0 then |s| + n else 0]
  }

  function Min(a: int, b: int): int {
    if a < b then a else b
  }

  /** What `get_memories` returns from the records the store handed back:
      sorted by id, descending exactly when `sort_order == "desc"`, then cut
      to `min(n_results, count)`. */
  function SortAndTruncate(fetched: seq<Memory>, sortOrder: string, nResults: int, count: nat): (r: seq<Memory>)
    ensures |r| <= |fetched| && r == SortById(fetched, sortOrder == "desc")[..|r|]
  {
    assert |multiset(SortById(fetched, sortOrder == "desc"))| == |multiset(fetched)|;
    Slice(SortById(fetched, sortOrder == "desc"), Min(nResults, count))
  }

  /** The result is a prefix of the fetched records in id order (descending
      iff `sort_order == "desc"`), holds nothing that was not fetched, and
      has `min(n_results, count, matches)` records for a non-negative
      `n_results`; a negative one drops that many from the end. */
  lemma SortAndTruncateSpec(fetched: seq<Memory>, sortOrder: string, nResults: int, count: nat)
    ensures var r := SortAndTruncate(fetched, sortOrder, nResults, count);
      && r == SortById(fetched, sortOrder == "desc")[..|r|]
      && SortedById(r, sortOrder == "desc")
      && multiset(r) <= multiset(fetched)
      && (nResults >= 0 ==> |r| == Min(Min(nResults, count), |fetched|))
      && (nResults < 0 ==> |r| == if |fetched| + nResults > 0 then |fetched| + nResults else 0)
  {
    var sorted := SortById(fetched, sortOrder == "desc");
    var r := SortAndTruncate(fetched, sortOrder, nResults, count);
    PrefixFacts(sorted, |r|, sortOrder == "desc");
  }

  lemma PrefixFacts(s: seq<Memory>, n: nat, descending: bool)
    requires n <= |s|
    ensures multiset(s[..n]) <= multiset(s)
    ensures SortedById(s, descending) ==> SortedById(s[..n], descending)
  {
    assert s == s[..n] + s[n..];
    assert multiset(s) == multiset(s[..n]) + multiset(s[n..]);
  }
}
