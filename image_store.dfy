/**
 * The exported operations of the image cache, over a mutable view of the
 * browser's localStorage. Each method follows the statements of its source
 * function and is proved to leave the storage exactly as the corresponding
 * function of CachePolicy says, so every lemma proved there holds of it.
 */
module ImageStore {
  import opened Options
  import opened ImageHash
  import opened CachePolicy

  /**
   * The LRU limit of `saveImageToCache`: when the list is over MAX_CACHE_SIZE,
   * sort it by timestamp and `shift` the oldest entry until MAX_CACHE_SIZE remain.
   */
  method ApplyLimit(pending: seq<CachedImage>) returns (cache: seq<CachedImage>)
    ensures cache == Evict(pending)
  {
    cache := pending;
    EvictCases(pending);
    if |cache| > MAX_CACHE_SIZE {
      cache := SortByTimestamp(cache);
      ghost var sorted := cache;
      ghost var shifted := 0;
      while |cache| > MAX_CACHE_SIZE
        invariant shifted + |cache| == |sorted| && |cache| >= MAX_CACHE_SIZE
        invariant cache == sorted[shifted..]
        decreases |cache|
      {
        assert cache[1..] == sorted[shifted + 1..];
        cache := cache[1..];
        shifted := shifted + 1;
      }
    }
  }

  /** The localStorage the cache reads and writes, one value per key. */
  class ImageCache {
    var storage: Storage

    constructor(initial: Storage)
      ensures storage == initial
    {
      storage := initial;
    }

    /**
     * `getCachedImage(text, emotion)`. `now` is what `Date.now()` returns and
     * `outcome` is how the `setItem` write-back ends.
     */
    method GetCachedImage(text: seq<CodeUnit>, emotion: seq<CodeUnit>, now: int, outcome: WriteOutcome)
      returns (image: Option<Payload>)
      modifies this
      ensures LookupResult(image, storage) == Lookup(old(storage), Fingerprint(text, emotion), now, outcome)
      ensures CacheInvariant(old(storage)) ==> CacheInvariant(storage)
    {
      if CacheInvariant(storage) {
        LookupPreservesInvariant(storage, Fingerprint(text, emotion), now, outcome);
      }
      var hash := GenerateHash(text, emotion);
      var raw := if CACHE_KEY in storage then storage[CACHE_KEY] else Blank;
      if raw == Blank {
        // `if (!rawCache) return null`
        return None;
      }
      if raw == Unparsable {
        // JSON.parse or findIndex throws; the catch returns null
        return None;
      }
      var cache := raw.list;
      var entryIndex := FindIndex(cache, hash);
      if entryIndex != -1 {
        var entry := cache[entryIndex];
        cache := cache[entryIndex := entry.(timestamp := now)];
        if outcome != Written {
          // setItem throws; the catch returns null and nothing was stored
          return None;
        }
        storage := storage[CACHE_KEY := Entries(cache)];
        return Some(entry.data);
      }
      return None;
    }

    /**
     * `saveImageToCache(text, emotion, imageData)`. `transcoded` is what the
     * canvas transcoder yields for an oversized image, `now` is `Date.now()`
     * and `outcome` is how the `setItem` write ends.
     */
    method SaveImageToCache(text: seq<CodeUnit>, emotion: seq<CodeUnit>, imageData: Payload, transcoded: Payload,
                            now: int, outcome: WriteOutcome)
      modifies this
      ensures storage == Save(old(storage), Fingerprint(text, emotion), CompressImage(imageData, transcoded), now, outcome)
      ensures CacheInvariant(old(storage)) ==> CacheInvariant(storage)
    {
      if CacheInvariant(storage) {
        SavePreservesInvariant(storage, Fingerprint(text, emotion), CompressImage(imageData, transcoded), now, outcome);
      }
      var compressedData := CompressImage(imageData, transcoded);
      var hash := GenerateHash(text, emotion);
      var parsed := ReadForSave(storage);
      if parsed.None? {
        // JSON.parse (or filter on a non-array) throws; the catch stores nothing
        return;
      }
      var cache := RemoveHash(parsed.value, hash);
      cache := cache + [CachedImage(hash, compressedData, now)];
      assert cache == Pending(parsed.value, hash, compressedData, now);
      cache := ApplyLimit(cache);
      match outcome
      case Written =>
        storage := storage[CACHE_KEY := Entries(cache)];
      case QuotaExceeded =>
        // the catch removes the key when the error is QuotaExceededError
        storage := storage - {CACHE_KEY};
      case WriteFailed =>
    }
  }

  /**
   * What the application relies on: once an image is saved for a text, asking
   * again with any text of the same normal form (other padding, other case)
   * and the same emotion label returns the stored, possibly compressed, image.
   */
  lemma SavedImageIsFoundAgain(st: Storage, text: seq<CodeUnit>, other: seq<CodeUnit>, emotion: seq<CodeUnit>,
                               imageData: Payload, transcoded: Payload, now: int, later: int, cache: seq<CachedImage>)
    requires Normalize(text) == Normalize(other)
    requires ReadForSave(st) == Some(cache)
    requires forall k :: 0 <= k < |cache| ==> cache[k].timestamp <= now
    ensures var saved := Save(st, Fingerprint(text, emotion), CompressImage(imageData, transcoded), now, Written);
            Lookup(saved, Fingerprint(other, emotion), later, Written).image == Some(CompressImage(imageData, transcoded))
  {
    SameNormalFormSameKey(text, other, emotion);
    SaveThenLookup(st, Fingerprint(text, emotion), CompressImage(imageData, transcoded), now, cache, later);
  }
}
