# GoRD document store, LRU cache and Lesson2 algorithms in Dafny

This project models the sequential logic of the GoRD course repository and proves properties
about it. Every Go mutator becomes a pure function from the old state to `Result<State>`. An
`Err` result means the state is unchanged, which is what Go does on every error path. `Panic`
stands for a Go runtime panic.

**The document store, revision by revision**

- *Lesson11* (`Lesson11Collection`): a primary-key map of documents plus named secondary
  indexes. Each index is a sequence of entries kept sorted by one string field.
  - Put places a new entry with `sort.Search`, modelled exactly (`InsertPosition`).
  - The collection invariant is `Valid`: each index is sorted, holds each key at most once,
    and holds exactly the stored documents that have a string under its field.
- *Lesson9* (`Lesson9Collection`): the first indexed revision.
  - It re-sorts an index with `sort.Slice` after every change.
  - It reads field values with unchecked `.(string)` assertions.
  - Its document map may be nil.
- *Lessons 3 to 6*: `Lesson3DocumentStore`, `Lesson4Collection` and `Lesson6Collection`.
  - Lesson5's `collection.go` has the same Put, Get, Delete and List as Lesson6's, without
    the logging and with the struct fields exported as `Config` and `Documents`.
    `Lesson6Collection` models both, and its `GetAll` is the `GetAll` that both revisions
    declare in `store.go`. Lesson5's `store.go` spells the fields `config` and `documents`,
    so that revision does not compile as written (see "Left out").
- *Stores*: one generic map of named collections (`Registry`), plus a thin module per
  revision (`Lesson4Store`, `Lesson5Store`, `Lesson6Store`, `Lesson9Store`).
- *`toDocumentField`*: `Documents.ToDocumentField`. The Lesson5, Lesson6 and Lesson9 copies
  have the same cases.

**Modelling conventions**

- Go `any` is the datatype `Dyn`: string, float64, bool, slice, map, or anything else.
- A Go map's iteration order is an explicit parameter `order`. The contract requires it to
  list each key exactly once (`Sequences.Enumerates`). No property depends on which order
  that is.
- `sort.Slice` is unstable. It is modelled by one particular insertion sort (`Sorting.Sort`),
  and everything proved about it holds for any sort: the result is sorted and has the same
  elements.
- Go compares strings byte-wise. For UTF-8 text that is the code-point order of `StrLt`.

**Lesson8 LRU cache** (`Lru`): the recency list is a sequence of items, front first. The Go
key map is the list's key set.

**Lesson2 algorithms**

- `Parentheses`: the stack matcher is proved equal to an independent definition, "the bracket
  subsequence cancels to empty, one adjacent matching pair at a time".
- `Fibonacci`: the loop equals the recursion.
- `Prime`: trial division up to the square root decides primality.
- `BinaryPalindrome`: decides whether the base-2 numeral equals its reverse.
- `Increment`: rests on a model of Go's `strconv` (`StrConv`). This covers `ParseInt` (Atoi
  is ParseInt in base 10), `FormatInt`, and the int64 clamping and wrap-around they involve.

## Model

| member | source | states |
|---|---|---|
| Documents.ToDocumentField | Lesson9/documentstore/store.go:108-129 | Supported values (string, float64, bool, slice, map) give a field whose tag matches the value's kind and which holds the value unchanged; anything else gives ErrUnsupportedDocumentField |
| Documents.ClassifiedStringFieldsHoldStrings | Lesson9/documentstore/store.go:110-113 | A converted field reads as a string field exactly when the value was a Go string |
| Lesson11Collection.PrimaryKey | Lesson11/documentstore/collection.go:166-180 | Key validation gives four distinct errors, each exactly when it applies: a missing field, a non-String tag, a String tag without a string value, and the empty string. It succeeds exactly when the field holds a non-empty string, and returns that string |
| Lesson11Collection.InsertPosition | Lesson11/documentstore/collection.go:261-276 | On a sorted index, sort.Search returns the lower bound: every entry before it is smaller than the value, and none after it is |
| Lesson11Collection.SearchFrom | Lesson11/documentstore/collection.go:261-276 | The binary search stays within its window, and when everything below the window is smaller than the value and nothing above it is, it returns the split point of the whole sorted index |
| Lesson11Collection.UpdateIndex | Lesson11/documentstore/collection.go:238-279 | The key's old entry is dropped and every other entry kept. The new entry is present exactly when the document has a string under the field |
| Lesson11Collection.UpdateIndexKeepsOrder | Lesson11/documentstore/collection.go:238-279 | The updated index stays sorted and holds the key at most once. Removing the key from it gives what removing the key from the old index gives |
| Lesson11Collection.UpdateIndexInsertsAtLowerBound | Lesson11/documentstore/collection.go:261-278 | The new entry is spliced in at the first remaining entry whose value is at least the new value |
| Lesson11Collection.UpdateIndexes | Lesson11/documentstore/collection.go:231-236 | Every index loses the key's old entry and gains the new entry exactly when the document has a string under that field. Entries for other keys stay, a sorted, key-distinct index stays sorted and key-distinct, and the set of indexed fields is unchanged |
| Lesson11Collection.Put | Lesson11/documentstore/collection.go:162-204 | A key error is returned as is and nothing changes. Otherwise the document is stored under its key, replacing any earlier one, every other document is kept, and the set of indexed fields is unchanged |
| Lesson11Collection.PutPreservesValid | Lesson11/documentstore/collection.go:182-203 | Put keeps the invariant: every index sorted, each key at most once, and exactly the documents with a string under the field |
| Lesson11Collection.PutCountsNewKeysOnce | Lesson11/documentstore/collection.go:182-189 | Put adds one to NumDocuments exactly when the key is new |
| Lesson11Collection.PutThenGet | Lesson11/documentstore/collection.go:162-204 | Get after a successful Put returns the document just stored |
| Lesson11Collection.Delete | Lesson11/documentstore/collection.go:206-229 | An absent key gives ErrDocumentNotFound. A present key panics when some index is empty; otherwise the result is that of DeleteCorrected |
| Lesson11Collection.DeleteWithEmptyIndexPanics | Lesson11/documentstore/collection.go:287-295 | One document without the indexed field leaves that index empty, and Delete of the document then panics while DeleteCorrected succeeds |
| Lesson11Collection.DeleteCorrected | Lesson11/documentstore/collection.go:206-229 | ErrDocumentNotFound exactly when the key is absent. Otherwise only that document is removed, and each index loses exactly the entries with that key |
| Lesson11Collection.DeletePreservesValid | Lesson11/documentstore/collection.go:281-295 | Deleting a stored document keeps the invariant |
| Lesson11Collection.DeleteTwiceFails | Lesson11/documentstore/collection.go:206-214 | A second Delete of the same key reports ErrDocumentNotFound |
| Lesson11Collection.DeleteCountsDown | Lesson11/documentstore/collection.go:220-229 | A successful delete lowers NumDocuments by one |
| Lesson11Collection.Candidates | Lesson11/documentstore/collection.go:72-93 | The collected entries are exactly the stored documents that have a string under the field, each with that string |
| Lesson11Collection.CreateIndex | Lesson11/documentstore/collection.go:51-106 | ErrIndexExists exactly when the field is already indexed. Otherwise a new index is added for that field, with documents and other indexes unchanged |
| Lesson11Collection.BuildIndex | Lesson11/documentstore/collection.go:72-103 | The built index is sorted by the field's string, has each key once when the keys are distinct, holds only stored documents under their own keys, and holds every document with a string under the field |
| Lesson11Collection.BuildIndexMatches | Lesson11/documentstore/collection.go:72-103 | The built index holds exactly the documents with a string under the field, each key once, in ascending order of that string |
| Lesson11Collection.CreateIndexPreservesValid | Lesson11/documentstore/collection.go:51-106 | CreateIndex keeps the invariant |
| Lesson11Collection.DeleteIndex | Lesson11/documentstore/collection.go:108-120 | ErrIndexNotFound exactly when there is no such index. Otherwise only that index is dropped |
| Lesson11Collection.DeleteIndexPreservesValid | Lesson11/documentstore/collection.go:108-120 | DeleteIndex keeps the invariant |
| Lesson11Collection.Scan | Lesson11/documentstore/collection.go:136-152 | An entry is kept exactly when it is in the index, has a string under the field, and that string lies within the optional inclusive bounds. The kept entries stay in index order |
| Lesson11Collection.Query | Lesson11/documentstore/collection.go:122-160 | ErrIndexNotFound exactly when the field has no index; otherwise a result no longer than the index |
| Lesson11Collection.QueryDescIsReverse | Lesson11/documentstore/collection.go:154-158 | The descending result is the ascending result reversed |
| Lesson11Collection.AscendingQueryReturnsRange | Lesson11/documentstore/collection.go:122-160 | On a valid collection the ascending result is exactly the in-range documents with a string under the field, each once, in non-decreasing order of that string |
| Lesson11Collection.DescendingQueryReturnsRange | Lesson11/documentstore/collection.go:122-160 | The descending result is the same documents, each once, in non-increasing order |
| Lesson11Collection.IndexOrdersByFieldValue | Lesson11/documentstore/collection.go:51-160 | Documents "1" (tag "b") and "2" (tag "a"): after indexing "tag", the ascending query lists "2" before "1" |
| Lesson11Collection.Get | Lesson11/documentstore/collection.go:297-312 | The stored document exactly when the key is present, ErrDocumentNotFound otherwise |
| Lesson11Collection.List | Lesson11/documentstore/collection.go:314-329 | One document per stored key, and only stored documents |
| Lesson11Collection.NumDocuments | Lesson11/documentstore/collection.go:331-335 | The number of stored documents |
| Lesson11Collection.GetAll | Lesson11/documentstore/collection.go:337-352 | Never an error, an empty collection included. Every stored document is returned, one per key |
| IndexEntries.RemoveKey | Lesson9/documentstore/collection.go:174-187 | Filtering out a key keeps exactly the entries with other keys |
| IndexEntries.RemoveFromIndexes | Lesson11/documentstore/collection.go:281-285 | Every index keeps exactly its entries for other keys and no longer mentions the key. A key-distinct index stays key-distinct, and the set of indexes is unchanged |
| Lesson9Collection.SortIndex | Lesson9/documentstore/collection.go:63-65 | sort.Slice panics exactly when there are two or more entries and one of them lacks a Go string under the field |
| Lesson9Collection.SortIndexSorts | Lesson9/documentstore/collection.go:63-65 | A sort that does not panic returns a permutation of the entries, each as often as before, pairwise in non-decreasing order. Distinct keys stay distinct |
| Lesson9Collection.CreateIndex | Lesson9/documentstore/collection.go:45-69 | ErrIndexExists exactly when the field is already indexed. A success adds only that index and changes nothing else |
| Lesson9Collection.CreateIndexBuildsSortedIndex | Lesson9/documentstore/collection.go:52-68 | A new index panics exactly when two documents are String-tagged under the field and one of them holds no string. Otherwise it holds exactly the String-tagged documents, each once, sorted |
| Lesson9Collection.DeleteIndex | Lesson9/documentstore/collection.go:71-80 | ErrIndexNotFound exactly when absent; otherwise only that index is dropped |
| Lesson9Collection.Query | Lesson9/documentstore/collection.go:82-107 | ErrIndexNotFound exactly when absent. It panics exactly when some indexed entry holds no string. Otherwise it returns exactly the documents of in-range entries |
| Lesson9Collection.Scan | Lesson9/documentstore/collection.go:88-99 | An entry is kept exactly when it is in the index and its string lies within the optional inclusive bounds. The kept entries stay in index order |
| Lesson9Collection.QueryDescIsReverse | Lesson9/documentstore/collection.go:100-104 | The descending result is the ascending result reversed |
| Lesson9Collection.AscendingQueryIsSorted | Lesson9/documentstore/collection.go:88-99 | Over a sorted index the ascending result is in non-decreasing order of the field |
| Lesson9Collection.UpdateIndexes | Lesson9/documentstore/collection.go:154-172 | As written, updateIndexes never reports an error and keeps the set of indexes |
| Lesson9Collection.UpdateIndexesKeepsKeyOnlyInLast | Lesson9/documentstore/collection.go:154-187 | When no index qualifies, all indexes are left as they were, stale entries included. Otherwise the key ends up only in the last qualifying index in iteration order |
| Lesson9Collection.PutLosesEarlierIndexEntry | Lesson9/documentstore/collection.go:154-172 | With indexes "a" then "b", a document qualifying for both ends up only in "b" |
| Lesson9Collection.PutLeavesStaleEntry | Lesson9/documentstore/collection.go:129-138 | Replacing a document with one lacking the indexed field leaves the old entry, so Query returns a document that is no longer stored |
| Lesson9Collection.UpdateIndexesCorrected | Lesson9/documentstore/collection.go:154-172 | The corrected update never reports an error and keeps the set of indexes |
| Lesson9Collection.UpdateIndexesCorrectedPlacesKey | Lesson9/documentstore/collection.go:154-172 | The corrected update puts the key in exactly the qualifying indexes and keeps every other entry. Keys stay distinct, and every touched index is sorted |
| Lesson9Collection.CorrectedPutKeepsBothEntries | Lesson9/documentstore/collection.go:154-172 | The corrected update keeps the document in both "a" and "b" |
| Lesson9Collection.Put | Lesson9/documentstore/collection.go:109-139 | Key errors are returned as is. Otherwise the document is stored, others are kept, the map becomes non-nil, and the set of indexes is unchanged |
| Lesson9Collection.PutWithOneIndex | Lesson9/documentstore/collection.go:129-138 | With a single qualifying index, Put leaves it sorted, with the key once and every other entry kept |
| Lesson9Collection.Delete | Lesson9/documentstore/collection.go:141-152 | ErrDocumentNotFound exactly when absent, a nil map included. Otherwise the document and its index entries are removed and nothing else changes |
| Lesson9Collection.DeleteTwiceFails | Lesson9/documentstore/collection.go:141-152 | A second Delete of the same key fails |
| Lesson9Collection.Get | Lesson9/documentstore/collection.go:189-198 | The stored document exactly when present, else ErrDocumentNotFound |
| Lesson9Collection.List | Lesson9/documentstore/collection.go:200-209 | One document per stored key, none for a nil map |
| Lesson9Collection.NumDocuments | Lesson9/documentstore/collection.go:211-216 | The number of stored documents, 0 for a nil map |
| Lesson9Collection.GetAll | Lesson9/documentstore/collection.go:218-227 | ErrNoDocuments exactly when the map is nil. An empty map gives an empty result |
| Lesson9Collection.PutThenGet | Lesson9/documentstore/collection.go:109-139 | Get after a successful Put returns the document |
| Lesson6Collection.PrimaryKey | Lesson6/documentstore/collection.go:27-46 | Missing field, non-String tag, and a non-string or empty value each give their error exactly when they apply. Success exactly for a non-empty string |
| Lesson6Collection.Put | Lesson6/documentstore/collection.go:26-51 | Key errors pass through unchanged. Otherwise the document is stored under its key and every other document is kept |
| Lesson6Collection.Get | Lesson6/documentstore/collection.go:54-62 | The stored document exactly when present, else ErrDocumentNotFound |
| Lesson6Collection.Delete | Lesson6/documentstore/collection.go:65-73 | ErrDocumentNotFound exactly when absent; otherwise only that key is removed |
| Lesson6Collection.List | Lesson6/documentstore/collection.go:76-84 | One document per stored key, and only stored documents |
| Lesson6Collection.NumDocuments | Lesson6/documentstore/collection.go:87-90 | The number of stored documents |
| Lesson6Collection.GetAll | Lesson6/documentstore/store.go:72-84 | ErrDocumentNotFound exactly when the collection is empty; otherwise every document |
| Lesson6Collection.PutThenGet | Lesson6/documentstore/collection.go:26-62 | Get after a successful Put returns the document |
| Lesson6Collection.PutThenDelete | Lesson6/documentstore/collection.go:26-73 | Deleting the key just put restores every other document, and Get then fails |
| Lesson6Collection.DeleteTwiceFails | Lesson6/documentstore/collection.go:65-73 | A second Delete of the same key fails |
| Lesson6Collection.CountFollowsPutAndDelete | Lesson6/documentstore/collection.go:26-90 | Put adds one exactly for a new key; Delete subtracts one |
| Lesson4Collection.ValidKey | Lesson4/documentstore/collection.go:17-24 | A key exists exactly when the primary-key field is String-tagged and holds a non-empty string |
| Lesson4Collection.Put | Lesson4/documentstore/collection.go:16-29 | A document without a valid key leaves the map unchanged. Otherwise it is stored, and others are kept |
| Lesson4Collection.Get | Lesson4/documentstore/collection.go:31-37 | The document exactly when present |
| Lesson4Collection.Delete | Lesson4/documentstore/collection.go:39-46 | true and the key removed exactly when present; false and no change otherwise |
| Lesson4Collection.List | Lesson4/documentstore/collection.go:48-54 | One document per stored key |
| Lesson4Collection.PutGetDelete | Lesson4/documentstore/collection.go:16-46 | A stored document reads back, and deleting it succeeds once |
| Lesson3DocumentStore.Put | Lesson3/documentstore/documentstore.go:26-40 | Stored under the "key" field's string when that field is String-tagged and holds a string, the empty string included; otherwise nothing changes |
| Lesson3DocumentStore.Get | Lesson3/documentstore/documentstore.go:42-48 | The document exactly when present |
| Lesson3DocumentStore.Delete | Lesson3/documentstore/documentstore.go:50-57 | true and the key removed exactly when present |
| Lesson3DocumentStore.List | Lesson3/documentstore/documentstore.go:59-65 | One document per stored key |
| Lesson3DocumentStore.EmptyKeyIsStored | Lesson3/documentstore/documentstore.go:27-37 | A document whose key is "" is stored and can be read back |
| Lesson3DocumentStore.DeleteTwice | Lesson3/documentstore/documentstore.go:50-57 | A second Delete reports false |
| Registry.NewStore | Lesson9/documentstore/store.go:26-31 | A new store has no collections |
| Registry.NumCollections | Lesson9/documentstore/store.go:159-162 | The number of registered collections |
| Registry.Create | Lesson9/documentstore/store.go:34-47 | ErrCollectionAlreadyExists exactly when the name is taken. Otherwise the name is registered, other names are unchanged, and the count goes up by one |
| Registry.Get | Lesson9/documentstore/store.go:50-58 | The collection exactly when registered, else ErrCollectionNotFound |
| Registry.Delete | Lesson9/documentstore/store.go:61-69 | ErrCollectionNotFound exactly when absent; otherwise only that name is removed |
| Registry.CreateGetDelete | Lesson9/documentstore/store.go:34-69 | A created collection can be fetched, and deleting it restores the store |
| Registry.DeleteThenGetFails | Lesson9/documentstore/store.go:50-69 | After a delete, Get and a second Delete fail |
| Lesson9Store.CreateCollection | Lesson9/documentstore/store.go:34-47 | An error exactly when the name is taken, and a fresh name always succeeds. A success registers a collection with the config, a non-nil empty map and no index, and leaves every other name and collection as it was |
| Lesson9Store.CreatedCollectionIsEmpty | Lesson9/documentstore/store.go:40-44 | A new collection has no documents, and GetAll succeeds with none |
| Lesson6Store.CreateCollection | Lesson6/documentstore/store.go:34-47 | An error exactly when the name is taken, and a fresh name always succeeds. A success registers an empty collection with the config and leaves every other name and collection as it was |
| Lesson6Store.CreatedCollectionGetAllFails | Lesson6/documentstore/store.go:72-84 | GetAll on a new collection reports ErrDocumentNotFound |
| Lesson5Store.CreateCollection | Lesson5/documentstore/store.go:32-43 | An error exactly when the name is taken, and a fresh name always succeeds. The returned collection is empty, has the config, and is the one registered, and every other name and collection is left as it was |
| Lesson4Store.CreateCollection | Lesson4/documentstore/store.go:13-24 | (false, nil) and no change exactly when the name is taken; otherwise the new empty collection, registered |
| Lesson4Store.GetCollection | Lesson4/documentstore/store.go:26-29 | The collection exactly when registered |
| Lesson4Store.DeleteCollection | Lesson4/documentstore/store.go:31-38 | true exactly when registered, and then only that name is removed |
| Lru.NewLruCache | Lesson8/lru/cache.go:18-24 | An empty cache with the given capacity, in which every key misses |
| Lru.Put | Lesson8/lru/cache.go:26-42 | The key moves to the front with the new value. A present key changes nothing else. A new key on a full list evicts exactly the back key. The other items keep their relative order. The key map and list stay in agreement, and with capacity at least 1 the size never exceeds it |
| Lru.Get | Lesson8/lru/cache.go:44-50 | A hit returns the stored value and moves the key to the front without changing any value, the other items keeping their relative order. A miss returns ("", false) and changes nothing |
| Lru.ReplayKeepsRecencyOrder | Lesson8/lru/cache.go:18-50 | From a new cache of capacity at least 1, after any run of Put and Get the list holds the capacity most recently touched keys, most recent first, so the back is the least recently touched key |
| Lru.ZeroCapacityOverflows | Lesson8/lru/cache.go:32-41 | With capacity 0 the list is never "full" once it holds an item, so it grows past its capacity |
| Lru.EvictsLeastRecentlyUsed | Lesson8/lru/cache_test.go:90-105 | Capacity 2: put x, put y, get x, put z evicts y and keeps x=100 and z=300 |
| Lru.PutUpdatesValue | Lesson8/lru/cache_test.go:107-113 | Re-putting a key makes Get return the new value, without growing the cache |
| Parentheses.RunIffWellNested | Lesson2/ValidParentheses.go:18-37 | The stack loop ends with an empty stack exactly when the bracket subsequence cancels to empty |
| Parentheses.ValidParentheses | Lesson2/ValidParentheses.go:18-37 | true exactly when the bracket subsequence is well nested; other characters are ignored |
| Parentheses.AcceptedExamples | Lesson2/ValidParentheses.go:8-13 | "()", "()[]{}", "{[]}" and "[{}]" are well nested |
| Parentheses.RejectsUnclosed | Lesson2/ValidParentheses.go:15-37 | A run of any positive number of "(" is not well nested, because the loop ends with every opener still on the stack |
| Parentheses.RejectedExamples | Lesson2/ValidParentheses.go:10-15 | "(]", "([)]", "[{]}" and the sample run of 49 "(" are not well nested |
| Fibonacci.FibonacciRecursive | Lesson2/Fibonacci.go:17-22 | Non-negative from 0 on, and at least n-1 from 2 on |
| Fibonacci.FibonacciIterative | Lesson2/Fibonacci.go:24-33 | The loop returns the same value as the recursive definition for every n, negative n included |
| Fibonacci.FibonacciMonotone | Lesson2/Fibonacci.go:17-22 | The sequence never decreases from 0 on |
| Prime.IsPrime | Lesson2/Prime.go:19-29 | true exactly when n is at least 2 and has no divisor strictly between 1 and n |
| BinaryPalindrome.IsBinaryPalindrome | Lesson2/IsBinaryPalindrome.go:17-26 | The second result is FormatInt(n, 2); the first is true exactly when it equals its reverse |
| BinaryPalindrome.NegativeIsNotPalindrome | Lesson2/IsBinaryPalindrome.go:19-24 | For negative n the leading '-' never matches the last digit |
| StrConv.FormatInt | Lesson2/IsBinaryPalindrome.go:19 | A '-' exactly for negative values, then the base-2 numeral of the magnitude |
| StrConv.Bits | Lesson2/Increment.go:46 | Base-2 digits only, no leading zero, "0" for zero |
| StrConv.BitsValue | Lesson2/Increment.go:46 | Read back in base 2, the numeral gives the number |
| StrConv.ParseFormatRoundTrip | Lesson2/Increment.go:40-46 | ParseInt in base 2 inverts FormatInt on every int64 |
| StrConv.ScanDigitsValue | Lesson2/Increment.go:40 | A digit string scans to its value when that fits in 64 bits, and to a range error otherwise |
| StrConv.AtoiOfFormatInt | Lesson2/Increment.go:46-49 | Atoi of FormatInt's output is the binary digits read as a signed decimal, saturated to int64 |
| StrConv.ParseInt | Lesson2/Increment.go:40 | Empty input or a lone sign gives 0. After an optional sign, a non-digit gives 0 when the digits before it fit in 64 bits, and digits that pass 64 bits give the int64 bound on the sign's side, whatever follows. A digit string gives its value saturated to int64, and a sign before digits gives the signed value, saturated |
| StrConv.AddInt64 | Lesson2/Increment.go:43 | The int64 result is congruent to the true sum modulo 2^64 |
| StrConv.ClampInt64 | Lesson2/Increment.go:40 | Values in range are unchanged, and values outside go to the nearer bound |
| Increment.Increment | Lesson2/Increment.go:38-52 | The result is an int64. For a non-negative successor it is the successor's base-2 numeral read as decimal and saturated; for a negative one it is at most the successor |
| Increment.DecimalReadBack | Lesson2/Increment.go:46-49 | The base-2 numeral of the value read back as a signed decimal and saturated; this never moves a value towards zero |
| Increment.IncrementReadsBinaryAsDecimal | Lesson2/Increment.go:38-52 | Below the int64 maximum, the result is the base-2 numeral of the value plus one, read as decimal (digits all 0 or 1) and saturated |
| Increment.InvalidInputCountsAsZero | Lesson2/Increment.go:40 | "", "2", "1a" and "-" parse as 0, so the result is 1 |
| Increment.IncrementAtMaximumWraps | Lesson2/Increment.go:40-49 | The int64 maximum wraps to the minimum and Atoi saturates to the minimum |
| Increment.IncrementExceedsSuccessor | Lesson2/Increment.go:38-52 | For a parsed value of 1 or more, and a successor below the maximum, the result exceeds the successor |
| Increment.IncrementSmallValues | Lesson2/Increment.go:38-52 | "0" gives 1, "1" gives 10 and "10" gives 11 |
| Increment.IncrementMissesTable | Lesson2/Increment.go:14-25 | The table's first row holds, and every other row fails |
| Increment.IncrementCorrected | Lesson2/Increment.go:38-43 | The parsed value plus one, wrapping only at the maximum |
| Increment.CorrectedMatchesTable | Lesson2/Increment.go:14-25 | The corrected increment meets every row of the table |
| Increment.CorrectedIncrementsNumeral | Lesson2/Increment.go:40-43 | On the binary numeral of any n below the maximum, the corrected increment returns n+1 |
| StringOrder.StrLtTransitive | Lesson11/documentstore/collection.go:94-96 | The string order used by every sort and search is transitive |
| StringOrder.StrLtTrichotomy | Lesson11/documentstore/collection.go:94-96 | Any two strings are equal or one precedes the other |
| Sorting.Sort | Lesson11/documentstore/collection.go:93-95 | The sort returns a permutation of its input |
| Sorting.SortSorted | Lesson11/documentstore/collection.go:94-96 | The sort returns its input reordered into non-decreasing order, keys still distinct |

## Left out

- Locking (`sync.RWMutex`) and the concurrent stress program: every operation is modelled as one atomic step.
- Logging (`slog`) and the messages printed by the Lesson3 and Lesson4 Put: these are output only.
- MarshalDocument and UnmarshalDocument: they work through JSON encoding and reflection.
- Nil `*CollectionConfig` branches: a config is always present in the model.
- Pointer aliasing: Go hands out `*Collection` and `*Document` pointers, so a caller can mutate a collection in place. The model passes values.
- The exact tie order of the unstable `sort.Slice`: the proved properties hold for any sorted permutation.
- The exact Go map iteration order: it is a parameter constrained only to list each key once.
- float64 values in fields stay opaque, and no arithmetic is done on them.
- Go strings compared byte-wise are modelled as code-point sequences. The two orders agree on UTF-8 text.
- The Lesson5 field-name mismatch: `collection.go` declares `Config` and `Documents`
  (Lesson5/documentstore/collection.go:16-17), while `store.go` fills in and reads `config` and
  `documents` (Lesson5/documentstore/store.go:38-39, 66, 70-71), so the Lesson5 package does not
  compile. The model treats the two spellings as one field, so Lesson5Store and the Lesson5 use
  of Lesson6Collection describe the evidently intended code, not code that can run.
- Lesson12 to Lesson14 and the Mongo, HTTP, TCP, JWT and WebSocket code: these are I/O glue around the store.
- Prime.IsPrime: the bound `int(math.Sqrt(float64(n)))` is taken as the exact integer square root, so the loop runs while `i * i <= n`. Rounding of the float square root for n above 2^53 is not modelled.
- Fibonacci.FibonacciIterative: Go's 64-bit int overflow for large n is not modelled; integers are unbounded.
- Fibonacci.FibonacciRecursive: Go's 64-bit int overflow for large n is not modelled; integers are unbounded.
- StrConv.ParseInt: only the value is modelled, not the error, because every caller discards the error. Bases other than 2 and 10, and underscores, are not modelled.
- Increment.Increment: for a negative successor the contract gives an upper bound rather than the exact value. The successor is negative for every '-'-signed input of magnitude at least 2, such as "-10", and for the int64 maximum, which wraps. Increment.DecimalReadBack states the exact value for every input.
- Lesson11Collection.Query: `Query` itself states only the error case and a length bound. Its full content (membership, order, duplicates, descending order) is stated by AscendingQueryReturnsRange and DescendingQueryReturnsRange for collections that satisfy the invariant.

## Findings

| source | as written | input that shows it | evidently intended | confidence | as-written member | corrected member |
|---|---|---|---|---|---|---|
| Lesson11/documentstore/collection.go:288 | removeFromIndexUnsafe allocates `make([]IndexEntry, 0, len(index.Sorted)-1)`, which is a negative capacity for an empty index | Config "id"; Put `{id:"a"}`; CreateIndex "tag" (no document has it, so the index is empty); Delete "a" panics | Delete removes the document and filters the key out of every index, empty ones included | high, not executed | Lesson11Collection.Delete | Lesson11Collection.DeleteCorrected |
| Lesson9/documentstore/collection.go:154-172 | For each qualifying index, updateIndexes strips the key from every index before appending to the current one. It never strips when no index qualifies | Indexes "a" and "b", iterated in that order; Put a document with String fields "a" and "b": index "a" ends empty. Or: replace a document so it no longer has "a", and its stale entry stays | Strip the key from every index once, then add the entry to each qualifying index | high, not executed | Lesson9Collection.UpdateIndexes | Lesson9Collection.UpdateIndexesCorrected |
| Lesson2/Increment.go:38-52 | Returns the base-2 numeral of the value plus one, read as a decimal number | Increment("1") is 10; the table at line 15 expects 2 | Return the parsed value plus one, as every row of the table expects | medium, not executed | Increment.Increment | Increment.IncrementCorrected |
