/**
 * The cache policy of services/imageStore.ts, stated on values.
 *
 * `localStorage` is a map from keys to stored values; the value under
 * CACHE_KEY is the JSON text of an array of CachedImage records, modelled by
 * what parsing it yields. `Date.now()` is the parameter `now`, the answer of
 * `setItem` is the parameter `outcome`, and the output of the canvas
 * transcoder is the parameter `transcoded`.
 */
module CachePolicy {
  import opened Options
  import ImageHash

  const CACHE_KEY: string := "innerspace_image_cache"
  const MAX_CACHE_SIZE: nat := 12
  /**
   * The source's bound is the double `1048576 * 1.33`, about 1394606.08; an
   * integer length passes its `<=` test exactly when it is at most 1394606.
   */
  const MAX_BASE64_LENGTH: nat := 1394606

  /**
   * An image's data URI. JavaScript measures its `length` in UTF-16 code
   * units, so it is a sequence of code units like the text it is cached for.
   */
  type Payload = seq<ImageHash.CodeUnit>

  /** One cached image: its key, its data URI and the time it was last written or read. */
  datatype CachedImage = CachedImage(hash: string, data: Payload, timestamp: int)

  /**
   * What `getItem(CACHE_KEY)` followed by `JSON.parse` gives: the empty string
   * (falsy, so never parsed), an array of entries, or text that parsing or the
   * array methods called on its result reject.
   */
  datatype Stored = Blank | Entries(list: seq<CachedImage>) | Unparsable

  type Storage = map<string, Stored>

  /** How a `setItem` call ends. */
  datatype WriteOutcome = Written | QuotaExceeded | WriteFailed

  /** What `getCachedImage` returns and the storage it leaves behind. */
  datatype LookupResult = LookupResult(image: Option<Payload>, storage: Storage)

  // ---------------------------------------------------------------------------
  // compressImage: the pass-through guard
  // ---------------------------------------------------------------------------

  /** The test `base64Data.length <= MAX_BASE64_LENGTH`, against the exact product 1048576 * 1.33. */
  function WithinLimit(length: nat): (b: bool)
    ensures b <==> (length as real) <= 1048576.0 * 1.33
  {
    length <= MAX_BASE64_LENGTH
  }

  /**
   * `compressImage`: a payload within the limit is returned unchanged; a larger
   * one is replaced by what the transcoder produced (the input itself when the
   * image fails to load or no 2D context is available).
   */
  function CompressImage(data: Payload, transcoded: Payload): (r: Payload)
    ensures r == data || r == transcoded
    ensures WithinLimit(|data|) ==> r == data
    ensures !WithinLimit(|data|) ==> r == transcoded
  {
    if |data| <= MAX_BASE64_LENGTH then data else transcoded
  }

  // ---------------------------------------------------------------------------
  // The array operations the two functions use
  // ---------------------------------------------------------------------------

  /** `cache.findIndex(item => item.hash === hash)`: the first matching index, or -1. */
  function FindIndex(cache: seq<CachedImage>, hash: string): (r: int)
    ensures -1 <= r < |cache|
    ensures r >= 0 ==> cache[r].hash == hash
  {
    if cache == [] then -1
    else if cache[0].hash == hash then 0
    else
      var r := FindIndex(cache[1..], hash);
      if r == -1 then -1 else r + 1
  }

  /** No entry before the found index has the key, and none at all when the result is -1. */
  lemma {:induction false} FindIndexFirst(cache: seq<CachedImage>, hash: string)
    ensures forall k :: 0 <= k < |cache| && (FindIndex(cache, hash) == -1 || k < FindIndex(cache, hash))
                    ==> cache[k].hash != hash
  {
    if cache != [] && cache[0].hash != hash {
      FindIndexFirst(cache[1..], hash);
      forall k | 0 < k < |cache| ensures cache[k].hash == cache[1..][k - 1].hash {
      }
    }
  }

  /** `cache[i].timestamp = now` on the parsed array. */
  function Touch(cache: seq<CachedImage>, i: nat, now: int): seq<CachedImage>
    requires i < |cache|
  {
    cache[i := cache[i].(timestamp := now)]
  }

  /** `cache.filter(item => item.hash !== hash)`. */
  function RemoveHash(cache: seq<CachedImage>, hash: string): (r: seq<CachedImage>)
    ensures |r| <= |cache|
  {
    if cache == [] then []
    else (if cache[0].hash != hash then [cache[0]] else []) + RemoveHash(cache[1..], hash)
  }

  /** Filtering keeps exactly the entries with another key. */
  lemma {:induction false} RemoveHashMembers(cache: seq<CachedImage>, hash: string)
    ensures forall x :: x in RemoveHash(cache, hash) <==> x in cache && x.hash != hash
  {
    if cache != [] {
      RemoveHashMembers(cache[1..], hash);
      assert cache == [cache[0]] + cache[1..];
    }
  }

  /** `a` is `b` with some elements left out and the rest in their order. */
  ghost predicate IsSubsequence(a: seq<CachedImage>, b: seq<CachedImage>)
    decreases |b|
  {
    if a == [] then true
    else if b == [] then false
    else (a[0] == b[0] && IsSubsequence(a[1..], b[1..])) || IsSubsequence(a, b[1..])
  }

  /** Filtering keeps the surviving entries in their order. */
  lemma {:induction false} RemoveHashIsSubsequence(cache: seq<CachedImage>, hash: string)
    ensures IsSubsequence(RemoveHash(cache, hash), cache)
  {
    if cache != [] {
      RemoveHashIsSubsequence(cache[1..], hash);
      var rest := RemoveHash(cache[1..], hash);
      if cache[0].hash != hash {
        assert RemoveHash(cache, hash) == [cache[0]] + rest;
        assert ([cache[0]] + rest)[1..] == rest;
      } else {
        assert RemoveHash(cache, hash) == rest;
      }
    }
  }

  predicate SortedByTimestamp(s: seq<CachedImage>) {
    forall i, j :: 0 <= i < j < |s| ==> s[i].timestamp <= s[j].timestamp
  }

  /** Places `x` after every element whose timestamp is not greater than its own. */
  function InsertByTimestamp(x: CachedImage, s: seq<CachedImage>): (r: seq<CachedImage>)
    ensures |r| == |s| + 1
  {
    if s == [] || x.timestamp < s[0].timestamp then [x] + s
    else [s[0]] + InsertByTimestamp(x, s[1..])
  }

  /** Insertion adds exactly `x`. */
  lemma {:induction false} InsertPermutes(x: CachedImage, s: seq<CachedImage>)
    ensures multiset(InsertByTimestamp(x, s)) == multiset(s) + multiset{x}
  {
    if s != [] && !(x.timestamp < s[0].timestamp) {
      InsertPermutes(x, s[1..]);
      assert s == [s[0]] + s[1..];
    }
  }

  lemma {:induction false} InsertSorted(x: CachedImage, s: seq<CachedImage>)
    requires SortedByTimestamp(s)
    ensures SortedByTimestamp(InsertByTimestamp(x, s))
  {
    if s == [] {
    } else if x.timestamp < s[0].timestamp {
      SortedHeadLeast(s);
      SortedCons(x, s);
    } else {
      var rest := InsertByTimestamp(x, s[1..]);
      SortedSuffix(s, 1);
      InsertSorted(x, s[1..]);
      InsertPermutes(x, s[1..]);
      SortedHeadLeast(s);
      forall y | y in rest ensures s[0].timestamp <= y.timestamp {
        assert y in multiset(rest);
        assert y in s[1..] || y == x;
      }
      SortedCons(s[0], rest);
    }
  }

  /** The head of a sorted list is no newer than any of its elements. */
  lemma SortedHeadLeast(s: seq<CachedImage>)
    requires s != [] && SortedByTimestamp(s)
    ensures forall y :: y in s ==> s[0].timestamp <= y.timestamp
  {
    forall y | y in s ensures s[0].timestamp <= y.timestamp {
      var i :| 0 <= i < |s| && s[i] == y;
    }
  }

  /** An element no newer than every element of a sorted list may go in front of it. */
  lemma SortedCons(a: CachedImage, t: seq<CachedImage>)
    requires SortedByTimestamp(t)
    requires forall y :: y in t ==> a.timestamp <= y.timestamp
    ensures SortedByTimestamp([a] + t)
  {
    var r := [a] + t;
    forall i, j | 0 <= i < j < |r| ensures r[i].timestamp <= r[j].timestamp {
      assert r[j] == t[j - 1];
      if i == 0 {
        assert r[j] in t;
      } else {
        assert r[i] == t[i - 1];
      }
    }
  }

  /**
   * `cache.sort((a, b) => a.timestamp - b.timestamp)`. ECMAScript requires the
   * sort to be stable, so this is the insertion sort that keeps entries with
   * equal timestamps in their original order.
   */
  function SortByTimestamp(s: seq<CachedImage>): (r: seq<CachedImage>)
    ensures |r| == |s|
  {
    if s == [] then []
    else InsertByTimestamp(s[|s| - 1], SortByTimestamp(s[..|s| - 1]))
  }

  /** The sort's result is a permutation of its input. */
  lemma {:induction false} SortPermutes(s: seq<CachedImage>)
    ensures multiset(SortByTimestamp(s)) == multiset(s)
  {
    if s != [] {
      SortPermutes(s[..|s| - 1]);
      InsertPermutes(s[|s| - 1], SortByTimestamp(s[..|s| - 1]));
      SplitLast(s);
    }
  }

  /** The sort's result is in ascending timestamp order. */
  lemma {:induction false} SortSorted(s: seq<CachedImage>)
    ensures SortedByTimestamp(SortByTimestamp(s))
  {
    if s != [] {
      SortSorted(s[..|s| - 1]);
      InsertSorted(s[|s| - 1], SortByTimestamp(s[..|s| - 1]));
    }
  }

  /** An element no older than every element of `s` goes to the end. */
  lemma {:induction false} InsertNewest(x: CachedImage, s: seq<CachedImage>)
    requires forall y :: y in s ==> y.timestamp <= x.timestamp
    ensures InsertByTimestamp(x, s) == s + [x]
  {
    if s != [] {
      InsertNewest(x, s[1..]);
      assert s == [s[0]] + s[1..];
    }
  }

  /** Sorting a list that is already in timestamp order leaves it as it is (stability). */
  lemma {:induction false} SortSortedIsIdentity(s: seq<CachedImage>)
    requires SortedByTimestamp(s)
    ensures SortByTimestamp(s) == s
  {
    if s != [] {
      var p := s[..|s| - 1];
      var x := s[|s| - 1];
      SortedInit(s);
      SortSortedIsIdentity(p);
      InsertNewest(x, p);
      SplitLast(s);
    }
  }

  lemma SplitLast(s: seq<CachedImage>)
    requires s != []
    ensures s == s[..|s| - 1] + [s[|s| - 1]]
  {
  }

  /** Dropping the last element of a sorted list leaves a sorted list no newer than that element. */
  lemma SortedInit(s: seq<CachedImage>)
    requires s != [] && SortedByTimestamp(s)
    ensures SortedByTimestamp(s[..|s| - 1])
    ensures forall y :: y in s[..|s| - 1] ==> y.timestamp <= s[|s| - 1].timestamp
  {
    var p := s[..|s| - 1];
    forall i, j | 0 <= i < j < |p| ensures p[i].timestamp <= p[j].timestamp {
      assert p[i] == s[i] && p[j] == s[j];
    }
    forall y | y in p ensures y.timestamp <= s[|s| - 1].timestamp {
      var i :| 0 <= i < |p| && p[i] == y;
      assert s[i] == y;
    }
  }

  /** When the last element is the newest, it stays last after sorting. */
  lemma {:induction false} SortKeepsNewestLast(s: seq<CachedImage>)
    requires s != []
    requires forall k :: 0 <= k < |s| ==> s[k].timestamp <= s[|s| - 1].timestamp
    ensures SortByTimestamp(s)[|s| - 1] == s[|s| - 1]
  {
    var p := s[..|s| - 1];
    var sp := SortByTimestamp(p);
    SortPermutes(p);
    forall y | y in sp ensures y.timestamp <= s[|s| - 1].timestamp {
      assert y in multiset(sp);
      assert y in p;
    }
    InsertNewest(s[|s| - 1], sp);
  }

  /** The entries of `s` whose timestamp is `t`, in their order in `s`. */
  function WithTimestamp(s: seq<CachedImage>, t: int): seq<CachedImage> {
    if s == [] then []
    else (if s[0].timestamp == t then [s[0]] else []) + WithTimestamp(s[1..], t)
  }

  lemma {:induction false} WithTimestampAppend(a: seq<CachedImage>, b: seq<CachedImage>, t: int)
    ensures WithTimestamp(a + b, t) == WithTimestamp(a, t) + WithTimestamp(b, t)
  {
    if a == [] {
      assert a + b == b;
    } else {
      assert (a + b)[1..] == a[1..] + b;
      WithTimestampAppend(a[1..], b, t);
    }
  }

  lemma {:induction false} WithTimestampNone(s: seq<CachedImage>, t: int)
    requires forall k :: 0 <= k < |s| ==> s[k].timestamp != t
    ensures WithTimestamp(s, t) == []
  {
    if s != [] {
      WithTimestampNone(s[1..], t);
    }
  }

  lemma WithTimestampCons(a: CachedImage, s: seq<CachedImage>, t: int)
    ensures WithTimestamp([a] + s, t) == (if a.timestamp == t then [a] else []) + WithTimestamp(s, t)
  {
    assert ([a] + s)[1..] == s;
  }

  /** Insertion into a sorted list puts `x` after every entry with its timestamp. */
  lemma {:induction false} InsertKeepsTies(x: CachedImage, s: seq<CachedImage>, t: int)
    requires SortedByTimestamp(s)
    ensures WithTimestamp(InsertByTimestamp(x, s), t) == WithTimestamp(s, t) + (if x.timestamp == t then [x] else [])
  {
    if s == [] {
      WithTimestampCons(x, [], t);
    } else if x.timestamp < s[0].timestamp {
      WithTimestampCons(x, s, t);
      if x.timestamp == t {
        forall k | 0 <= k < |s| ensures s[k].timestamp != t {
          assert s[0].timestamp <= s[k].timestamp;
        }
        WithTimestampNone(s, t);
      }
    } else {
      var rest := InsertByTimestamp(x, s[1..]);
      SortedSuffix(s, 1);
      InsertKeepsTies(x, s[1..], t);
      WithTimestampCons(s[0], rest, t);
      WithTimestampCons(s[0], s[1..], t);
      assert s == [s[0]] + s[1..];
    }
  }

  /**
   * Stability: the entries sharing any one timestamp come out of the sort in
   * the order they went in.
   */
  lemma {:induction false} SortIsStable(s: seq<CachedImage>, t: int)
    ensures WithTimestamp(SortByTimestamp(s), t) == WithTimestamp(s, t)
  {
    if s != [] {
      var p := s[..|s| - 1];
      var x := s[|s| - 1];
      SortIsStable(p, t);
      SortSorted(p);
      InsertKeepsTies(x, SortByTimestamp(p), t);
      SplitLast(s);
      WithTimestampAppend(p, [x], t);
      assert [x][1..] == [];
    }
  }

  /**
   * The LRU limit: when more than MAX_CACHE_SIZE entries remain, sort by
   * timestamp and `shift` from the front until exactly MAX_CACHE_SIZE remain.
   */
  function Evict(cache: seq<CachedImage>): (r: seq<CachedImage>)
    ensures |r| <= MAX_CACHE_SIZE
    ensures |cache| > MAX_CACHE_SIZE ==> |r| == MAX_CACHE_SIZE
    ensures |cache| <= MAX_CACHE_SIZE ==> r == cache
  {
    if |cache| <= MAX_CACHE_SIZE then cache
    else
      var s := SortByTimestamp(cache);
      s[|s| - MAX_CACHE_SIZE..]
  }

  /** Eviction keeps only entries that were there. */
  lemma EvictSubMultiset(cache: seq<CachedImage>)
    ensures multiset(Evict(cache)) <= multiset(cache)
  {
    if |cache| > MAX_CACHE_SIZE {
      var s := SortByTimestamp(cache);
      var n := |s| - MAX_CACHE_SIZE;
      SortPermutes(cache);
      assert s == s[..n] + s[n..];
    }
  }

  /** After an eviction the kept entries are in ascending timestamp order. */
  lemma EvictSorted(cache: seq<CachedImage>)
    requires |cache| > MAX_CACHE_SIZE
    ensures SortedByTimestamp(Evict(cache))
  {
    var s := SortByTimestamp(cache);
    SortSorted(cache);
    SortedSuffix(s, |s| - MAX_CACHE_SIZE);
  }

  /** Eviction removes only entries no newer than every entry it keeps. */
  lemma EvictionOrder(cache: seq<CachedImage>)
    requires |cache| > MAX_CACHE_SIZE
    ensures forall x, y :: x in multiset(cache) - multiset(Evict(cache)) && y in Evict(cache)
                       ==> x.timestamp <= y.timestamp
  {
    var s := SortByTimestamp(cache);
    var n := |s| - MAX_CACHE_SIZE;
    EvictRemovesPrefix(cache);
    SortSorted(cache);
    SortedSplit(s, n);
  }

  /** What eviction removes is the front of the sorted list. */
  lemma EvictRemovesPrefix(cache: seq<CachedImage>)
    requires |cache| > MAX_CACHE_SIZE
    ensures var s := SortByTimestamp(cache);
            multiset(cache) - multiset(Evict(cache)) == multiset(s[..|s| - MAX_CACHE_SIZE])
  {
    var s := SortByTimestamp(cache);
    var n := |s| - MAX_CACHE_SIZE;
    SortPermutes(cache);
    assert multiset(s) == multiset(s[..n]) + multiset(s[n..]) by {
      assert s == s[..n] + s[n..];
    }
  }

  lemma SortedSuffix(s: seq<CachedImage>, n: nat)
    requires SortedByTimestamp(s) && n <= |s|
    ensures SortedByTimestamp(s[n..])
  {
    forall i, j | 0 <= i < j < |s| - n ensures s[n..][i].timestamp <= s[n..][j].timestamp {
      assert s[n..][i] == s[n + i] && s[n..][j] == s[n + j];
    }
  }

  /** In a sorted list every element before a cut point is no newer than every element after it. */
  lemma SortedSplit(s: seq<CachedImage>, n: nat)
    requires SortedByTimestamp(s) && n <= |s|
    ensures forall x, y :: x in multiset(s[..n]) && y in s[n..] ==> x.timestamp <= y.timestamp
  {
    forall x: CachedImage, y: CachedImage | x in multiset(s[..n]) && y in s[n..]
      ensures x.timestamp <= y.timestamp
    {
      assert x in s[..n];
      var i :| 0 <= i < n && s[..n][i] == x;
      var j :| 0 <= j < |s| - n && s[n..][j] == y;
      assert s[i] == x && s[n + j] == y;
    }
  }

  /**
   * Ties are broken by position: of the entries sharing a timestamp, the ones
   * kept are the last of them in stored order, so the earlier ones go first.
   */
  lemma EvictBreaksTiesByPosition(cache: seq<CachedImage>, t: int)
    ensures var kept := WithTimestamp(Evict(cache), t);
            var all := WithTimestamp(cache, t);
            |kept| <= |all| && kept == all[|all| - |kept|..]
  {
    if |cache| > MAX_CACHE_SIZE {
      var s := SortByTimestamp(cache);
      var n := |s| - MAX_CACHE_SIZE;
      SortIsStable(cache, t);
      assert s == s[..n] + s[n..];
      WithTimestampAppend(s[..n], s[n..], t);
    }
  }

  /** An appended entry no older than any other survives eviction, as the last entry. */
  lemma EvictKeepsNewestLast(cache: seq<CachedImage>)
    requires cache != []
    requires forall k :: 0 <= k < |cache| ==> cache[k].timestamp <= cache[|cache| - 1].timestamp
    ensures Evict(cache) != [] && Evict(cache)[|Evict(cache)| - 1] == cache[|cache| - 1]
  {
    if |cache| > MAX_CACHE_SIZE {
      SortKeepsNewestLast(cache);
    }
  }

  /** Entries whose timestamp is above that of some other entry survive an eviction of one entry. */
  lemma SingleEvictionRemovesOnlyOldest(cache: seq<CachedImage>)
    requires |cache| == MAX_CACHE_SIZE + 1
    ensures forall y, z :: y in cache && z in cache && z.timestamp < y.timestamp ==> y in Evict(cache)
  {
    var s := SortByTimestamp(cache);
    EvictRemovesPrefix(cache);
    assert s[..1] == [s[0]];
    assert multiset(cache) - multiset(Evict(cache)) == multiset{s[0]};
    SortSorted(cache);
    SortPermutes(cache);
    SortedHeadLeast(s);
    forall y, z | y in cache && z in cache && z.timestamp < y.timestamp ensures y in Evict(cache) {
      assert z in multiset(s);
      assert y != s[0];
      assert y !in multiset(cache) - multiset(Evict(cache));
    }
  }

  // ---------------------------------------------------------------------------
  // Unique keys
  // ---------------------------------------------------------------------------

  /** No two entries share a key. */
  predicate UniqueHashes(s: seq<CachedImage>) {
    forall i, j :: 0 <= i < j < |s| ==> s[i].hash != s[j].hash
  }

  lemma UniqueCons(a: CachedImage, t: seq<CachedImage>)
    requires UniqueHashes(t)
    requires forall y :: y in t ==> y.hash != a.hash
    ensures UniqueHashes([a] + t)
  {
    var r := [a] + t;
    forall i, j | 0 <= i < j < |r| ensures r[i].hash != r[j].hash {
      assert r[j] == t[j - 1];
      if i == 0 {
        assert r[j] in t;
      } else {
        assert r[i] == t[i - 1];
      }
    }
  }

  lemma UniqueSuffix(s: seq<CachedImage>, n: nat)
    requires UniqueHashes(s) && n <= |s|
    ensures UniqueHashes(s[n..])
  {
    forall i, j | 0 <= i < j < |s| - n ensures s[n..][i].hash != s[n..][j].hash {
      assert s[n..][i] == s[n + i] && s[n..][j] == s[n + j];
    }
  }

  /** The first element of a list without repeated keys has a key none of the others has. */
  lemma UniqueHead(s: seq<CachedImage>)
    requires s != [] && UniqueHashes(s)
    ensures forall y :: y in s[1..] ==> y.hash != s[0].hash
  {
    forall y | y in s[1..] ensures y.hash != s[0].hash {
      var i :| 0 <= i < |s| - 1 && s[1..][i] == y;
      assert s[i + 1] == y;
    }
  }

  lemma UniqueInit(s: seq<CachedImage>)
    requires s != [] && UniqueHashes(s)
    ensures UniqueHashes(s[..|s| - 1])
    ensures forall y :: y in s[..|s| - 1] ==> y.hash != s[|s| - 1].hash
  {
    var p := s[..|s| - 1];
    forall i, j | 0 <= i < j < |p| ensures p[i].hash != p[j].hash {
      assert p[i] == s[i] && p[j] == s[j];
    }
    forall y | y in p ensures y.hash != s[|s| - 1].hash {
      var i :| 0 <= i < |p| && p[i] == y;
      assert s[i] == y;
    }
  }

  lemma {:induction false} InsertUnique(x: CachedImage, t: seq<CachedImage>)
    requires UniqueHashes(t)
    requires forall y :: y in t ==> y.hash != x.hash
    ensures UniqueHashes(InsertByTimestamp(x, t))
  {
    if t == [] || x.timestamp < t[0].timestamp {
      UniqueCons(x, t);
    } else {
      var rest := InsertByTimestamp(x, t[1..]);
      UniqueSuffix(t, 1);
      InsertUnique(x, t[1..]);
      InsertPermutes(x, t[1..]);
      UniqueHead(t);
      forall y | y in rest ensures y.hash != t[0].hash {
        assert y in multiset(rest);
        assert y in t[1..] || y == x;
      }
      UniqueCons(t[0], rest);
    }
  }

  lemma {:induction false} SortUnique(s: seq<CachedImage>)
    requires UniqueHashes(s)
    ensures UniqueHashes(SortByTimestamp(s))
  {
    if s != [] {
      var p := s[..|s| - 1];
      UniqueInit(s);
      SortUnique(p);
      SortPermutes(p);
      forall y | y in SortByTimestamp(p) ensures y.hash != s[|s| - 1].hash {
        assert y in multiset(SortByTimestamp(p));
        assert y in p;
      }
      InsertUnique(s[|s| - 1], SortByTimestamp(p));
    }
  }

  lemma EvictUnique(cache: seq<CachedImage>)
    requires UniqueHashes(cache)
    ensures UniqueHashes(Evict(cache))
  {
    if |cache| > MAX_CACHE_SIZE {
      var s := SortByTimestamp(cache);
      SortUnique(cache);
      UniqueSuffix(s, |s| - MAX_CACHE_SIZE);
    }
  }

  lemma {:induction false} RemoveHashUnique(cache: seq<CachedImage>, hash: string)
    requires UniqueHashes(cache)
    ensures UniqueHashes(RemoveHash(cache, hash))
  {
    if cache != [] {
      var rest := RemoveHash(cache[1..], hash);
      UniqueSuffix(cache, 1);
      RemoveHashUnique(cache[1..], hash);
      if cache[0].hash != hash {
        RemoveHashMembers(cache[1..], hash);
        UniqueHead(cache);
        UniqueCons(cache[0], rest);
      }
    }
  }

  // ---------------------------------------------------------------------------
  // getCachedImage
  // ---------------------------------------------------------------------------

  /** The entry list stored under CACHE_KEY, when the stored text parses to one. */
  function StoredList(st: Storage): Option<seq<CachedImage>> {
    if CACHE_KEY in st && st[CACHE_KEY].Entries? then Some(st[CACHE_KEY].list) else None
  }

  /**
   * `getCachedImage` once the key `hash` has been computed: the image of the
   * first entry with the key, after its timestamp has been set to `now` and
   * the list written back. A missing, empty or unparsable value, a key no
   * entry has, and a failed write-back all give `null` and leave the storage
   * as it was.
   */
  function Lookup(st: Storage, hash: string, now: int, outcome: WriteOutcome): LookupResult {
    match StoredList(st)
    case None => LookupResult(None, st)
    case Some(cache) =>
      var i := FindIndex(cache, hash);
      if i == -1 || outcome != Written then LookupResult(None, st)
      else LookupResult(Some(cache[i].data), st[CACHE_KEY := Entries(Touch(cache, i, now))])
  }

  /** A hit returns the first matching entry's image and refreshes that entry's timestamp, and nothing else. */
  lemma LookupHit(st: Storage, hash: string, now: int, cache: seq<CachedImage>, i: nat)
    requires StoredList(st) == Some(cache)
    requires i < |cache| && cache[i].hash == hash
    requires forall k :: 0 <= k < i ==> cache[k].hash != hash
    ensures Lookup(st, hash, now, Written).image == Some(cache[i].data)
    ensures var st' := Lookup(st, hash, now, Written).storage;
            && st'.Keys == st.Keys
            && (forall key :: key in st && key != CACHE_KEY ==> st'[key] == st[key])
            && StoredList(st').Some?
            && var cache' := StoredList(st').value;
               && |cache'| == |cache|
               && cache'[i] == CachedImage(cache[i].hash, cache[i].data, now)
               && (forall k :: 0 <= k < |cache| && k != i ==> cache'[k] == cache[k])
  {
    FindIndexFirst(cache, hash);
    assert FindIndex(cache, hash) == i;
  }

  /**
   * `getCachedImage` returns an image exactly when the stored list parses, some
   * entry has the key and the write-back succeeds; otherwise storage is untouched.
   */
  lemma LookupReturnsIff(st: Storage, hash: string, now: int, outcome: WriteOutcome)
    ensures Lookup(st, hash, now, outcome).image.Some?
        <==> && StoredList(st).Some?
             && outcome == Written
             && exists k :: 0 <= k < |StoredList(st).value| && StoredList(st).value[k].hash == hash
    ensures Lookup(st, hash, now, outcome).image.None? ==> Lookup(st, hash, now, outcome).storage == st
  {
    if StoredList(st).Some? {
      var cache := StoredList(st).value;
      var i := FindIndex(cache, hash);
      FindIndexFirst(cache, hash);
      if i != -1 {
        assert cache[i].hash == hash;
      }
    }
  }

  // ---------------------------------------------------------------------------
  // saveImageToCache
  // ---------------------------------------------------------------------------

  /** What `saveImageToCache` reads: `rawCache ? JSON.parse(rawCache) : []`, or None when that throws. */
  function ReadForSave(st: Storage): Option<seq<CachedImage>> {
    if CACHE_KEY !in st then Some([])
    else match st[CACHE_KEY]
      case Blank => Some([])
      case Entries(cache) => Some(cache)
      case Unparsable => None
  }

  /** The list after `filter` and `push`, before the LRU limit. */
  function Pending(cache: seq<CachedImage>, hash: string, data: Payload, now: int): seq<CachedImage> {
    RemoveHash(cache, hash) + [CachedImage(hash, data, now)]
  }

  /**
   * `saveImageToCache` once the key `hash` and the (possibly compressed) image
   * `data` have been computed: drop the entries with the key, append the new
   * entry, apply the LRU limit and write the list back. A failed parse or a
   * failed write other than QuotaExceededError changes nothing;
   * QuotaExceededError removes CACHE_KEY.
   */
  function Save(st: Storage, hash: string, data: Payload, now: int, outcome: WriteOutcome): Storage {
    match ReadForSave(st)
    case None => st
    case Some(cache) =>
      match outcome
      case Written => st[CACHE_KEY := Entries(Evict(Pending(cache, hash, data, now)))]
      case QuotaExceeded => st - {CACHE_KEY}
      case WriteFailed => st
  }

  /** The two ways a list leaves the LRU limit (unfolds Evict for callers). */
  lemma EvictCases(cache: seq<CachedImage>)
    ensures |cache| <= MAX_CACHE_SIZE ==> Evict(cache) == cache
    ensures |cache| > MAX_CACHE_SIZE ==>
              Evict(cache) == SortByTimestamp(cache)[|SortByTimestamp(cache)| - MAX_CACHE_SIZE..]
  {
    if |cache| > MAX_CACHE_SIZE {
      var s := SortByTimestamp(cache);
      assert Evict(cache) == s[|s| - MAX_CACHE_SIZE..];
    }
  }

  /** The list a successful save stores (unfolds Save for the lemmas below). */
  lemma SaveWritten(st: Storage, hash: string, data: Payload, now: int, cache: seq<CachedImage>)
    requires ReadForSave(st) == Some(cache)
    ensures StoredList(Save(st, hash, data, now, Written)) == Some(Evict(Pending(cache, hash, data, now)))
  {
  }

  lemma TwoOccurrences(s: seq<CachedImage>, i: nat, j: nat)
    requires i < j < |s| && s[i] == s[j]
    ensures multiset(s)[s[i]] >= 2
  {
    assert s == s[..j] + [s[j]] + s[j + 1..];
    assert s[..j][i] == s[i];
    assert s[i] in multiset(s[..j]);
  }

  /** The new entry occurs once in the pending list and is its only entry with the key. */
  lemma PendingHasOneEntryForKey(cache: seq<CachedImage>, hash: string, data: Payload, now: int)
    ensures var entry := CachedImage(hash, data, now);
            && multiset(Pending(cache, hash, data, now))[entry] == 1
            && forall x :: x in Pending(cache, hash, data, now) && x.hash == hash ==> x == entry
  {
    var entry := CachedImage(hash, data, now);
    var filtered := RemoveHash(cache, hash);
    RemoveHashMembers(cache, hash);
    assert entry !in filtered;
    assert multiset(filtered + [entry]) == multiset(filtered) + multiset{entry};
  }

  /** After a successful save the new entry is the only one with its key. */
  lemma SaveDeduplicates(st: Storage, hash: string, data: Payload, now: int)
    requires ReadForSave(st).Some?
    ensures var st' := Save(st, hash, data, now, Written);
            && StoredList(st').Some?
            && var saved := StoredList(st').value;
               && (forall i :: 0 <= i < |saved| && saved[i].hash == hash ==> saved[i] == CachedImage(hash, data, now))
               && (forall i, j :: 0 <= i < j < |saved| ==> saved[i].hash != hash || saved[j].hash != hash)
  {
    SaveWritten(st, hash, data, now, ReadForSave(st).value);
    var entry := CachedImage(hash, data, now);
    var pending := Pending(ReadForSave(st).value, hash, data, now);
    var saved := Evict(pending);
    PendingHasOneEntryForKey(ReadForSave(st).value, hash, data, now);
    EvictSubMultiset(pending);
    forall i | 0 <= i < |saved| && saved[i].hash == hash ensures saved[i] == entry {
      assert saved[i] in multiset(pending);
    }
    forall i, j | 0 <= i < j < |saved| ensures saved[i].hash != hash || saved[j].hash != hash {
      if saved[i].hash == hash && saved[j].hash == hash {
        assert saved[i] in multiset(pending) && saved[j] in multiset(pending);
        TwoOccurrences(saved, i, j);
      }
    }
  }

  /** After a successful save at most MAX_CACHE_SIZE entries are stored, exactly that many when the pending list was longer. */
  lemma SaveBound(st: Storage, hash: string, data: Payload, now: int, cache: seq<CachedImage>)
    requires ReadForSave(st) == Some(cache)
    ensures var pending := Pending(cache, hash, data, now);
            && StoredList(Save(st, hash, data, now, Written)).Some?
            && var saved := StoredList(Save(st, hash, data, now, Written)).value;
               && |saved| <= MAX_CACHE_SIZE
               && (|pending| > MAX_CACHE_SIZE ==> |saved| == MAX_CACHE_SIZE)
               && (|pending| <= MAX_CACHE_SIZE ==> |saved| == |pending|)
  {
    SaveWritten(st, hash, data, now, cache);
  }

  /**
   * When the pending list is over the limit, the stored entries are in ascending
   * timestamp order, come from the pending list, and every dropped entry is no
   * newer than every kept one.
   */
  lemma SaveEvictsOldestFirst(st: Storage, hash: string, data: Payload, now: int, cache: seq<CachedImage>)
    requires ReadForSave(st) == Some(cache)
    requires |Pending(cache, hash, data, now)| > MAX_CACHE_SIZE
    ensures var pending := Pending(cache, hash, data, now);
            && StoredList(Save(st, hash, data, now, Written)).Some?
            && var saved := StoredList(Save(st, hash, data, now, Written)).value;
               && SortedByTimestamp(saved)
               && multiset(saved) <= multiset(pending)
               && (forall x, y :: x in multiset(pending) - multiset(saved) && y in saved ==> x.timestamp <= y.timestamp)
  {
    SaveWritten(st, hash, data, now, cache);
    var pending := Pending(cache, hash, data, now);
    EvictSorted(pending);
    EvictionOrder(pending);
    EvictSubMultiset(pending);
  }

  /**
   * When the pending list is within the limit, the surviving old entries are
   * stored in their original order, followed by the new entry.
   */
  lemma SaveWithoutEvictionKeepsOrder(st: Storage, hash: string, data: Payload, now: int, cache: seq<CachedImage>)
    requires ReadForSave(st) == Some(cache)
    requires |Pending(cache, hash, data, now)| <= MAX_CACHE_SIZE
    ensures StoredList(Save(st, hash, data, now, Written)) == Some(RemoveHash(cache, hash) + [CachedImage(hash, data, now)])
    ensures IsSubsequence(RemoveHash(cache, hash), cache)
  {
    SaveWritten(st, hash, data, now, cache);
    RemoveHashIsSubsequence(cache, hash);
  }

  /** If no stored entry is newer than `now`, the new entry is a newest entry of the pending list. */
  lemma PendingNewestLast(cache: seq<CachedImage>, hash: string, data: Payload, now: int)
    requires forall k :: 0 <= k < |cache| ==> cache[k].timestamp <= now
    ensures var pending := Pending(cache, hash, data, now);
            forall k :: 0 <= k < |pending| ==> pending[k].timestamp <= pending[|pending| - 1].timestamp
  {
    var pending := Pending(cache, hash, data, now);
    var filtered := RemoveHash(cache, hash);
    RemoveHashMembers(cache, hash);
    forall k | 0 <= k < |pending| ensures pending[k].timestamp <= now {
      if k < |filtered| {
        assert pending[k] == filtered[k] && pending[k] in cache;
      }
    }
  }

  /** If no stored entry is newer than `now`, the new entry survives the LRU limit as the last entry. */
  lemma SaveKeepsNewEntry(st: Storage, hash: string, data: Payload, now: int, cache: seq<CachedImage>)
    requires ReadForSave(st) == Some(cache)
    requires forall k :: 0 <= k < |cache| ==> cache[k].timestamp <= now
    ensures && StoredList(Save(st, hash, data, now, Written)).Some?
            && var saved := StoredList(Save(st, hash, data, now, Written)).value;
               && saved != []
               && saved[|saved| - 1] == CachedImage(hash, data, now)
  {
    var pending := Pending(cache, hash, data, now);
    assert pending[|pending| - 1] == CachedImage(hash, data, now);
    PendingNewestLast(cache, hash, data, now);
    EvictKeepsNewestLast(pending);
    SaveWritten(st, hash, data, now, cache);
  }

  /** Round trip: after a successful save, looking the key up returns the saved image. */
  lemma SaveThenLookup(st: Storage, hash: string, data: Payload, now: int, cache: seq<CachedImage>, later: int)
    requires ReadForSave(st) == Some(cache)
    requires forall k :: 0 <= k < |cache| ==> cache[k].timestamp <= now
    ensures Lookup(Save(st, hash, data, now, Written), hash, later, Written).image == Some(data)
  {
    var st' := Save(st, hash, data, now, Written);
    SaveKeepsNewEntry(st, hash, data, now, cache);
    SaveDeduplicates(st, hash, data, now);
    var saved := StoredList(st').value;
    var i := FindIndex(saved, hash);
    FindIndexFirst(saved, hash);
    assert saved[|saved| - 1].hash == hash;
    assert i != -1;
  }

  /** QuotaExceededError removes the whole cache, so every later lookup misses. */
  lemma SaveQuotaClearsCache(st: Storage, hash: string, data: Payload, now: int)
    requires ReadForSave(st).Some?
    ensures var st' := Save(st, hash, data, now, QuotaExceeded);
            && CACHE_KEY !in st'
            && (forall key :: key != CACHE_KEY ==> (key in st' <==> key in st))
            && (forall key :: key in st' ==> st'[key] == st[key])
            && (forall h, n, w :: Lookup(st', h, n, w).image == None)
  {
  }

  /** A stored value that does not parse, or a write that fails for another reason, leaves storage unchanged. */
  lemma SaveOtherFailuresChangeNothing(st: Storage, hash: string, data: Payload, now: int, outcome: WriteOutcome)
    requires ReadForSave(st) == None || outcome == WriteFailed
    ensures Save(st, hash, data, now, outcome) == st
  {
  }

  /** A save changes no key other than CACHE_KEY. */
  lemma SaveTouchesOnlyCacheKey(st: Storage, hash: string, data: Payload, now: int, outcome: WriteOutcome)
    ensures var st' := Save(st, hash, data, now, outcome);
            && (forall key :: key != CACHE_KEY ==> (key in st' <==> key in st))
            && (forall key :: key in st && key != CACHE_KEY ==> st'[key] == st[key])
  {
  }

  /**
   * When the save drops one entry, every old entry with another key that is
   * newer than some other such entry survives: only the oldest goes.
   */
  lemma SaveDropsOnlyTheOldest(st: Storage, hash: string, data: Payload, now: int, cache: seq<CachedImage>)
    requires ReadForSave(st) == Some(cache)
    requires |RemoveHash(cache, hash)| == MAX_CACHE_SIZE
    ensures && StoredList(Save(st, hash, data, now, Written)).Some?
            && forall y, z :: && y in cache && z in cache && y.hash != hash && z.hash != hash
                              && z.timestamp < y.timestamp
                           ==> y in StoredList(Save(st, hash, data, now, Written)).value
  {
    SaveWritten(st, hash, data, now, cache);
    var pending := Pending(cache, hash, data, now);
    RemoveHashMembers(cache, hash);
    SingleEvictionRemovesOnlyOldest(pending);
    forall y, z | y in cache && z in cache && y.hash != hash && z.hash != hash && z.timestamp < y.timestamp
      ensures y in Evict(pending)
    {
      assert y in pending && z in pending;
    }
  }

  // ---------------------------------------------------------------------------
  // The stored list's invariant
  // ---------------------------------------------------------------------------

  /** The stored list, when it parses, is within the size bound and has no repeated key. */
  predicate CacheInvariant(st: Storage) {
    StoredList(st).Some? ==> |StoredList(st).value| <= MAX_CACHE_SIZE && UniqueHashes(StoredList(st).value)
  }

  lemma LookupPreservesInvariant(st: Storage, hash: string, now: int, outcome: WriteOutcome)
    requires CacheInvariant(st)
    ensures CacheInvariant(Lookup(st, hash, now, outcome).storage)
  {
    var st' := Lookup(st, hash, now, outcome).storage;
    if st' != st {
      var cache := StoredList(st).value;
      var i := FindIndex(cache, hash);
      var cache' := Touch(cache, i, now);
      assert StoredList(st') == Some(cache');
      forall a, b | 0 <= a < b < |cache'| ensures cache'[a].hash != cache'[b].hash {
        assert cache'[a].hash == cache[a].hash && cache'[b].hash == cache[b].hash;
      }
    }
  }

  lemma PendingUnique(cache: seq<CachedImage>, hash: string, data: Payload, now: int)
    requires UniqueHashes(cache)
    ensures UniqueHashes(Pending(cache, hash, data, now))
  {
    var entry := CachedImage(hash, data, now);
    var filtered := RemoveHash(cache, hash);
    var pending := filtered + [entry];
    RemoveHashUnique(cache, hash);
    RemoveHashMembers(cache, hash);
    forall i, j | 0 <= i < j < |pending| ensures pending[i].hash != pending[j].hash {
      assert pending[i] == filtered[i];
      if j == |filtered| {
        assert filtered[i] in filtered;
      } else {
        assert pending[j] == filtered[j];
      }
    }
  }

  lemma SavePreservesInvariant(st: Storage, hash: string, data: Payload, now: int, outcome: WriteOutcome)
    requires CacheInvariant(st)
    ensures CacheInvariant(Save(st, hash, data, now, outcome))
  {
    if ReadForSave(st).Some? && outcome == Written {
      var cache := ReadForSave(st).value;
      assert UniqueHashes(cache);
      PendingUnique(cache, hash, data, now);
      EvictUnique(Pending(cache, hash, data, now));
      SaveWritten(st, hash, data, now, cache);
    }
  }
}
