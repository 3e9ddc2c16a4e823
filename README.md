# Bounded image cache — a Dafny model

This project models the image cache of `services/imageStore.ts`. The
application uses the cache to skip regenerating artwork for a (text, emotion)
pair it has already seen. The cache lives under one `localStorage` key
(`CACHE_KEY`) as a list of entries `{hash, data, timestamp}`. The list holds at
most `MAX_CACHE_SIZE = 12` entries, and the least recently used entries are
evicted first.

The model is in four files.

- `options.dfy`: the `Option` datatype.
- `fingerprint.dfy` (module `ImageHash`) models `generateHash`.
  - Text and emotion label are sequences of UTF-16 code units.
  - `Normalize` is `text.trim().toLowerCase()`. Trimming removes the ECMAScript white-space and line-terminator set.
  - `HashCodeUnits` is the accumulator loop. Each step is `(hash << 5) - hash + c` followed by `hash & hash`, with both 32-bit truncations written out (`Wrap32`).
  - `ToBase36` is `Number.prototype.toString(36)` on the resulting signed 32-bit integer.
  - `GenerateHash` puts the pieces together and is proved equal to the specification function `Fingerprint`.
- `cache_policy.dfy` (module `CachePolicy`) holds the constants, the `compressImage` length guard and the list operations:
  - `FindIndex` (`findIndex`), `RemoveHash` (`filter`), `SortByTimestamp` (the stable `sort`) and `Evict` (the limit);
  - the two operations as functions of the storage: `Lookup` for `getCachedImage` and `Save` for `saveImageToCache`;
  - the lemmas stating what the cache promises.
- `image_store.dfy` (module `ImageStore`) holds the class `ImageCache`.
  - Its field `storage` is the `localStorage` contents as a map from key to stored value.
  - Its methods `GetCachedImage` and `SaveImageToCache` follow the statements of the two source functions.
  - Each method is proved to leave `storage` exactly as `Lookup`, respectively `Save`, prescribes, so every lemma about those functions holds of it.
  - `ApplyLimit` is the `while (cache.length > MAX_CACHE_SIZE) cache.shift()` loop after the sort. It is proved equal to `Evict`.

A stored value is one of three cases:

- `Blank`: the empty string, which both functions treat as no cache;
- `Entries(list)`: a JSON array of entries;
- `Unparsable`: anything on which `JSON.parse`, `filter` or `findIndex` throws.

A missing key is read as `null`. In the source, every exception is caught. The
model therefore has no error path that escapes: each failure becomes the
result the `catch` block produces.

Three things outside the cache are parameters:

- `now` is the value of `Date.now()`;
- `outcome` says how `localStorage.setItem` ends: `Written`, `QuotaExceeded` (an error named `QuotaExceededError`) or `WriteFailed` (any other error);
- `transcoded` is what the canvas transcoder of `compressImage` resolves to for an oversized image.

An image's data URI (`Payload`) is a sequence of UTF-16 code units, like the text. The guard compares `base64Data.length`, which counts code units.

## Model

| member | source | states |
|---|---|---|
| ImageHash.TrimStartShape | services/imageStore.ts:20 | `trim` drops a leading run of white space: the result is a suffix of the text, everything removed is white space, and the result is empty or starts with a non-white unit |
| ImageHash.TrimEndShape | services/imageStore.ts:20 | the symmetric statement for trailing white space |
| ImageHash.TrimmedEnds | services/imageStore.ts:20 | trimmed text is empty or begins and ends with a non-white unit |
| ImageHash.LowerUnit | services/imageStore.ts:20 | lower-casing one unit leaves no ASCII capital, moves a unit by the case offset or not at all, and neither creates nor removes white space |
| ImageHash.ToLower | services/imageStore.ts:20 | the ASCII lower-casing works unit by unit and preserves the length of the text |
| ImageHash.ToLowerIdempotent | services/imageStore.ts:20 | lower-casing twice is lower-casing once |
| ImageHash.TrimCommutesWithLower | services/imageStore.ts:20 | trimming and lower-casing can be done in either order |
| ImageHash.NormalizeIdempotent | services/imageStore.ts:20 | normalising normalised text changes nothing |
| ImageHash.PaddingIsIgnored | services/imageStore.ts:20 | white space added at either end of the text does not change the trimmed text |
| ImageHash.LowerCaseIsIgnored | services/imageStore.ts:20 | lower-cased text has the same normal form as the original |
| ImageHash.HashInputTextIff | services/imageStore.ts:20 | for a fixed emotion label, the hashed strings are equal if and only if the texts have the same normal form |
| ImageHash.HashInputEmotionIff | services/imageStore.ts:20 | for a fixed text, the hashed strings are equal if and only if the emotion labels are equal, so the label is used verbatim and case-sensitively |
| ImageHash.SameNormalFormSameKey | services/imageStore.ts:19-20 | texts with the same normal form give the same key for every emotion label |
| ImageHash.PaddedCapitalisedTextSharesKey | services/imageStore.ts:19-20 | text with white-space padding on either side gives the same key as its lower-cased unpadded form |
| ImageHash.Wrap32 | services/imageStore.ts:24-25 | the truncation to a signed 32-bit integer lies in the signed range and is congruent to its argument modulo 2^32 |
| ImageHash.Wrap32Shift | services/imageStore.ts:24-25 | adding a multiple of 2^32 does not change the truncation |
| ImageHash.Wrap32Congruent | services/imageStore.ts:24-25 | numbers congruent modulo 2^32 truncate to the same 32-bit value |
| ImageHash.HashStep | services/imageStore.ts:24-25 | the loop step `(hash << 5) - hash + c` followed by `hash & hash` is 31·hash + c wrapped to signed 32 bits |
| ImageHash.HashValueIsWrappedPolynomial | services/imageStore.ts:21-26 | the folded hash is the polynomial Σ c_i·31^(n-1-i), wrapped once to signed 32 bits |
| ImageHash.HashCodeUnits | services/imageStore.ts:21-26 | the accumulator loop over the code units computes the folded hash |
| ImageHash.Digit36 | services/imageStore.ts:27 | every digit value below 36 renders as one of `0-9a-z` |
| ImageHash.DigitValue | services/imageStore.ts:27 | reading a base-36 digit inverts rendering it |
| ImageHash.Digits | services/imageStore.ts:27 | a magnitude renders as at least one base-36 digit, with no leading zero except for the number 0 itself |
| ImageHash.ToBase36Shape | services/imageStore.ts:27 | `toString(36)` gives a non-empty string of base-36 digits with at most one leading `-`, present exactly for negative numbers |
| ImageHash.DigitsRoundTrip | services/imageStore.ts:27 | reading back the digits of a magnitude gives the magnitude |
| ImageHash.Base36RoundTrip | services/imageStore.ts:27 | parsing the base-36 rendering of any integer gives that integer back |
| ImageHash.Base36Injective | services/imageStore.ts:27 | distinct hash values render as distinct keys |
| ImageHash.DigitsLength | services/imageStore.ts:27 | a magnitude below 36^k renders in at most k digits |
| ImageHash.Base36Length | services/imageStore.ts:27 | a key has at most 7 characters, a sign and six digits |
| ImageHash.KeyEqualIffHashEqual | services/imageStore.ts:19-28 | two (text, emotion) pairs share a key if and only if their 32-bit hashes are equal |
| ImageHash.GenerateHash | services/imageStore.ts:19-28 | `generateHash` yields the key of the normalised text and label, and that key parses back to the 32-bit hash |
| CachePolicy.WithinLimit | services/imageStore.ts:34 | a payload passes the guard exactly when its length is at most 1048576 × 1.33 |
| CachePolicy.CompressImage | services/imageStore.ts:33-36 | the stored payload is the input unchanged when the guard passes and the transcoder's output when it fails |
| CachePolicy.FindIndex | services/imageStore.ts:80 | `findIndex` gives -1 or a valid index whose entry carries the hash |
| CachePolicy.FindIndexFirst | services/imageStore.ts:80 | no entry before the found index carries the hash, and no entry at all when the result is -1 |
| CachePolicy.RemoveHash | services/imageStore.ts:104 | filtering never lengthens the list |
| CachePolicy.RemoveHashMembers | services/imageStore.ts:104 | an entry survives the filter if and only if it was in the list and has another hash |
| CachePolicy.RemoveHashIsSubsequence | services/imageStore.ts:104 | the filtered list keeps the surviving entries in their original order |
| CachePolicy.RemoveHashUnique | services/imageStore.ts:104 | filtering a list without repeated keys leaves no repeated keys |
| CachePolicy.InsertByTimestamp | services/imageStore.ts:115 | inserting into the sorted prefix adds exactly one entry |
| CachePolicy.InsertPermutes | services/imageStore.ts:115 | insertion adds the entry and loses none |
| CachePolicy.InsertSorted | services/imageStore.ts:115 | insertion into an ascending list keeps it ascending |
| CachePolicy.InsertNewest | services/imageStore.ts:115 | an entry no older than all others is inserted at the end |
| CachePolicy.SortByTimestamp | services/imageStore.ts:115 | sorting preserves the length |
| CachePolicy.SortPermutes | services/imageStore.ts:115 | sorting is a permutation of the list |
| CachePolicy.SortSorted | services/imageStore.ts:115 | the sorted list is in ascending timestamp order |
| CachePolicy.SortSortedIsIdentity | services/imageStore.ts:115 | sorting a list that is already ascending leaves it unchanged, as a stable sort does |
| CachePolicy.InsertKeepsTies | services/imageStore.ts:115 | inserting into an ascending list puts the entry after every entry with the same timestamp |
| CachePolicy.SortIsStable | services/imageStore.ts:115 | the sort is stable: for every timestamp, the entries carrying it come out in the order they went in |
| CachePolicy.SortKeepsNewestLast | services/imageStore.ts:115 | an entry at the end that is no older than any other stays at the end |
| CachePolicy.SortUnique | services/imageStore.ts:115 | sorting introduces no repeated key |
| CachePolicy.Evict | services/imageStore.ts:114-119 | after the limit at most 12 entries remain, exactly 12 when there were more, and a list of at most 12 is left alone |
| CachePolicy.EvictSubMultiset | services/imageStore.ts:114-119 | the limit only removes entries |
| CachePolicy.EvictSorted | services/imageStore.ts:114-119 | when the limit applies, the kept entries are in ascending timestamp order |
| CachePolicy.EvictionOrder | services/imageStore.ts:114-119 | every removed entry is no newer than every kept entry |
| CachePolicy.EvictRemovesPrefix | services/imageStore.ts:114-119 | the removed entries are exactly the front of the sorted list, all but its last 12 |
| CachePolicy.EvictBreaksTiesByPosition | services/imageStore.ts:114-119 | among entries sharing a timestamp, the ones kept are the last of them in stored order, so earlier ones are evicted first |
| CachePolicy.EvictKeepsNewestLast | services/imageStore.ts:114-119 | a last entry no older than the others is kept, still last |
| CachePolicy.EvictUnique | services/imageStore.ts:114-119 | the limit introduces no repeated key |
| CachePolicy.SingleEvictionRemovesOnlyOldest | services/imageStore.ts:114-119 | when 13 entries are cut to 12, every entry newer than some other entry is kept |
| ImageStore.ApplyLimit | services/imageStore.ts:114-119 | the sort and the `shift` loop compute exactly the limit `Evict` |
| CachePolicy.LookupHit | services/imageStore.ts:80-87 | on a hit, the data of the first matching entry is returned, and the list written back has the same keys, length and order; only that entry changes, and only its timestamp, which becomes `now` |
| CachePolicy.LookupReturnsIff | services/imageStore.ts:73-94 | an image is returned if and only if the stored list parses, some entry carries the key and the write-back succeeds; on every miss storage is unchanged |
| CachePolicy.LookupPreservesInvariant | services/imageStore.ts:73-94 | a lookup keeps the stored list within 12 entries and free of repeated keys |
| ImageStore.ImageCache.GetCachedImage | services/imageStore.ts:73-94 | `getCachedImage` returns what `Lookup` returns for the text's key and leaves storage as `Lookup` says; it keeps the cache invariant |
| CachePolicy.PendingHasOneEntryForKey | services/imageStore.ts:104-111 | after the filter and the push, the new entry occurs once and is the only entry with its key |
| CachePolicy.PendingUnique | services/imageStore.ts:104-111 | the filter and push keep a list free of repeated keys |
| CachePolicy.PendingNewestLast | services/imageStore.ts:104-111 | when no old timestamp is after `now`, the pushed last entry is no older than any other |
| CachePolicy.SaveDeduplicates | services/imageStore.ts:104-111 | after a successful save, every entry with the new key is the new entry, and no two entries carry the new key |
| CachePolicy.SaveBound | services/imageStore.ts:113-119 | after a successful save at most 12 entries are stored, exactly 12 when filter and push left more, and otherwise all of them |
| CachePolicy.SaveEvictsOldestFirst | services/imageStore.ts:104-119 | when eviction happens, the stored entries are ascending by timestamp, come from the pending list, and every dropped entry is no newer than every kept one |
| CachePolicy.SaveWithoutEvictionKeepsOrder | services/imageStore.ts:104-119 | when no eviction happens, the surviving old entries keep their order and the new entry is appended last |
| CachePolicy.SaveKeepsNewEntry | services/imageStore.ts:107-119 | when no old timestamp is after `now`, the new entry with its payload and `now` survives the limit as the last entry |
| CachePolicy.SaveDropsOnlyTheOldest | services/imageStore.ts:113-119 | when the save pushes the list to 13, every old entry with another key that is newer than some other such entry is kept |
| CachePolicy.SaveThenLookup | services/imageStore.ts:96-121 | after a successful save with no old timestamp after `now`, a lookup of the same key returns the saved payload |
| CachePolicy.SaveQuotaClearsCache | services/imageStore.ts:122-128 | a `QuotaExceededError` removes the cache key, leaves every other key as it was, and makes every later lookup miss |
| CachePolicy.SaveOtherFailuresChangeNothing | services/imageStore.ts:122-128 | a stored value that does not parse, or a write that fails for another reason, leaves storage unchanged |
| CachePolicy.SaveTouchesOnlyCacheKey | services/imageStore.ts:121-127 | a save, whatever its outcome, changes no key other than the cache key |
| CachePolicy.SavePreservesInvariant | services/imageStore.ts:96-129 | a save keeps the stored list within 12 entries and free of repeated keys, even from an empty or cleared cache |
| ImageStore.ImageCache.SaveImageToCache | services/imageStore.ts:96-129 | `saveImageToCache` leaves storage exactly as `Save` prescribes for the text's key and the guarded payload; it keeps the cache invariant |
| ImageStore.SavedImageIsFoundAgain | services/imageStore.ts:96-121 | once an image is saved, a lookup with any text of the same normal form and the same label returns the stored, possibly transcoded, payload |

## Left out

- The canvas transcoding in `compressImage` (services/imageStore.ts:36-70) uses browser image decoding, drawing and float rescaling. Its result is the parameter `transcoded`. The fallbacks that resolve to the original data are the case `transcoded == imageData`.
- LowerUnit, ToLower, Normalize: lower-case ASCII `A`–`Z` only, one unit at a time. The Unicode case mapping of `toLowerCase` is a large table and is not modelled. It can change the length of the text (U+0130 becomes two code units) and depends on context (final sigma), so `ToLower`'s length contract and the unit-by-unit proofs hold only of this model. The properties about normal forms carry over to any unit-wise, length-preserving, idempotent mapping that keeps white space.
- HashInputEmotionIff: the case-sensitivity of the emotion label is stated on the hashed string, not on the key. Distinct strings can share a 32-bit hash, so no statement about keys would be true.
- JSON serialisation and `localStorage` are modelled as a map from key to parsed value. Several cases are not modelled: a parsed array whose elements are not well-formed entries, a `timestamp` that is not an integer, and a value that parses to a non-array on which the list methods happen to exist.
- The module-level `localStorage` is the field `storage` of one `ImageCache` object. Other browsing contexts writing the same key are not modelled.
- The suspension at `await compressImage(...)` is not modelled: storage is read after it, as in the source, and no other code runs in between.
- `Date.now()` is the parameter `now`. The outcome of `setItem` is the parameter `outcome`. Both are chosen by the caller, not by the model.
- `console.warn` is left out. It only logs.
- `findIndex` and `filter` are modelled as recursive functions (`FindIndex`, `RemoveHash`), because the source calls them as library methods rather than writing loops. The in-place `sort` is modelled by the insertion sort `SortByTimestamp` on a sequence. ECMAScript requires `Array.prototype.sort` to be stable, and `SortIsStable` proves that this one is.
- The React components, the AI service wrappers and the audio code are not part of this model. They are not part of the cache.
