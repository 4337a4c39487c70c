# full-text-search-light in Dafny

A model of the in-memory substring search engine `FullTextSearchLight`
(`index.js`). The engine keeps two things:

- a record table `data`, with a pointer `data_ptr` to the next slot and a list
  `free_slots` of slots that were emptied;
- `index_amount` levels of shingle indexes. Level `l` maps every substring of
  length `l + 1` of an indexed text to the ids of the records holding it.

`add` stores a record and indexes the texts of its primitive leaves. `search`
looks a term up directly when it is no longer than `index_amount`. A longer
term takes the indirect path:

1. cut the term into shingles of the top level;
2. count how often each id occurs in those shingles' lists;
3. keep the ids seen once per shingle;
4. check the stored record against the whole term.

`remove` takes an id back out of every list and empties its slot.

The project is organised as follows:

| file | module | contents |
|---|---|---|
| `wrappers.dfy` | `Wrappers` | `Option`, `Result` and `Outcome` |
| `text.dfy` | `Text` | ASCII lower-casing, decimal rendering of integers, `indexOf` |
| `sequences.dfy` | `Sequences` | `unique` as `Dedup` |
| `values.dfy` | `Values` | records (`Value`), `traverse` as the pure function `Walk` returning the sequence of callbacks, and what the filter does to it |
| `shingles.dfy` | `Shingles` | `cut` and `unique` as methods, against the specification `ShingleSeq` |
| `idlists.dfy` | `IdLists` | an id list's `push`-unless-present and `removeFromArray` |
| `ngrams.dfy` | `NGrams` | the levels, the effect of indexing a text (`AddText`) and the effect of removing an id (`PurgeKeys`, `Purge`, `PurgeAll`) |
| `state.dfy` | `IndexState` | the invariant relating index and table, and the proofs that `add` and a completed `remove` keep it |
| `lookup.dfy` | `Lookup` | what `search` returns (`SearchIds`), and what that means for the records stored |
| `engine.dfy` | `Engine` | the class `FullTextSearchLight` with the source's fields, updated in place by its methods |

The class invariant `Valid()` has these parts:

- there are `index_amount >= 1` levels;
- `data_ptr` is the length of the table;
- every free slot is empty;
- every key of level `l` has length `l + 1`, its list is non-empty and
  duplicate-free, and the key is lower case when case is ignored;
- every listed id is a live slot whose record mentions the key (`Sound`);
- every live primitive record is listed under every shingle of its text
  (`Complete`).

The following quirks are reproduced as the code has them:

- A number or boolean candidate on the indirect path passes when `indexOf` is
  truthy, that is when the term does not start its text.
- A string candidate is always lower-cased for that check.
- Removing a structured record neither applies the insert-time filter nor
  lower-cases its string leaves.
- `removePrimitve` fails on a missing key (the source dereferences
  `undefined`). `Remove` of a structured record can therefore fail partway.
  It then reports `MissingEntry`, with the index partly purged.

## Model

| member | source | states |
|---|---|---|
| Text.Lower | index.js:233-235 | `toLowerCase` keeps the length and lower-cases each character (ASCII letters only, see "## Left out") |
| Text.IndexOf | index.js:345 | JavaScript's `indexOf`: non-negative exactly when the term occurs, and then the first position where it occurs |
| Sequences.Dedup | index.js:8-16 | the result is duplicate-free and holds exactly the elements of the input |
| Sequences.DedupFirstOccurrenceOrder | index.js:8-16 | the result keeps the order in which elements first occur in the input |
| Sequences.DedupOfNoDup | index.js:8-16 | a duplicate-free input comes back unchanged |
| Shingles.Unique | index.js:8-16 | the loop that pushes an element unless `indexOf` finds it returns `Dedup` of its input |
| Shingles.Cut | index.js:501-519 | a level below 1 is an error, a non-string text is an error, otherwise the result is `ShingleSeq(text, level)` |
| Shingles.CutIsDistinctSubstrings | index.js:501-519 | the cut parts are distinct; a string is a part exactly when it has the level's length and occurs in the text; parts come in order of first occurrence; a level longer than the text gives no parts |
| Shingles.CutJoachim | test/all.js:92-96 | cutting "joachim" at level 1 gives j, o, a, c, h, i, m |
| Shingles.CutHelloShort | test/all.js:110-113 | cutting "hello" at level 12 gives no parts |
| Values.Walk | index.js:102-120 | every callback's key path extends the path walked so far |
| Values.WalkSubset | index.js:105-108 | a filter only removes callbacks: each callback made with a filter is also made without one |
| Values.WalkFilterExact | index.js:105-118 | a filter that returns `false` exactly for a set of keys drops exactly the leaves that have such a key on their path, and keeps the others in order |
| IdLists.InsertSpec | index.js:200-207 | the push keeps a list duplicate-free, adds exactly the id, appends it at the end when it was missing, and is idempotent |
| IdLists.RemoveFromArray | index.js:478-484 | the backwards splice loop returns the list without any occurrence of the value |
| IdLists.Without | index.js:478-484 | an element stays exactly when it is not the removed value |
| IdLists.WithoutNoDup | index.js:478-484 | removal keeps a list duplicate-free |
| NGrams.AddShinglesSpec | index.js:198-208 | after pushing the parts, the keys are the old keys plus the parts; each part's list has the id inserted; every other list is unchanged |
| NGrams.AddTextSpec | index.js:177-209 | indexing a text adds on each level exactly the text's shingles of that length, inserts the id in their lists and changes no other list |
| NGrams.AddTextsSpec | index.js:213-219 | indexing a record's leaf texts one after the other lists the id under the shingles of every leaf text and changes nothing else |
| NGrams.PurgeSpec | index.js:429-453 | after taking an id out of a level, no list holds it; a key survives exactly when another id remains in its list; every other id keeps its entries |
| NGrams.PurgeKeysStep | index.js:439-448 | one more `removePrimitve` call continues the purge of the keys handled so far |
| NGrams.PurgeKeysCovering | index.js:398-403 | purging every key that lists the id is the whole purge |
| NGrams.PartialPurgeKeepsOthers | index.js:410-424 | a removal that stopped partway took out nothing but the removed id |
| IndexState.AddRecordPreserves | index.js:151-221 | indexing a new record in the next slot keeps the invariant |
| IndexState.AddPrimComplete | index.js:172-211 | after a primitive is added, its slot is listed under every shingle of its text |
| IndexState.AddObjSound | index.js:213-219 | every key a structured record adds occurs in one of its unfiltered leaf texts |
| IndexState.PurgeAllPreserves | index.js:366-407 | taking an id out of every list and emptying its slot keeps the invariant |
| IndexState.PartialPurgePreserves | index.js:408-425 | a structured removal that stopped partway keeps the invariant, the slot still being live |
| IndexState.CoveringRemovalIsPurge | index.js:396-403 | once the removed keys reach every shingle of the record's texts, every level is fully purged of the id |
| IndexState.LowerFixedFromKeys | index.js:410-419 | with case ignored, a text whose characters are all first-level keys is already lower case |
| IndexState.RawTextIsIndexText | index.js:386-394 | a primitive's raw text equals the text it was indexed under, when case is respected or the raw text is already lower case |
| Lookup.FoundCount | index.js:270-284 | the number of parts found is at most the number of parts, and equals it exactly when every part is a key of the top level |
| Lookup.TrueMatches | index.js:300-318 | an id is kept exactly when it is below the table's length and occurs `n` times; the result is ascending |
| Lookup.CountIsAllParts | index.js:300-318 | with duplicate-free lists, an id occurs as often as there are parts exactly when every part lists it |
| Lookup.Verified | index.js:322-363 | a candidate is kept exactly when its record passes the candidate check |
| Lookup.IndirectIdsSpec | index.js:260-363 | the indirect path returns, in ascending order, exactly the live ids that every top-level shingle of the term lists and whose record passes the check |
| Lookup.SearchIds | index.js:223-237 | an empty query finds nothing, and every id found is a live record |
| Lookup.DirectLookupSpec | index.js:239-258 | on the direct path every result mentions the term, every primitive record whose text contains the term is returned, and no id twice |
| Lookup.IndirectFindsPrimitive | index.js:260-363 | on the indirect path a primitive record containing the term is found whenever it passes the check |
| Lookup.StringSearchComplete | index.js:223-364 | with case ignored, a string record is found by every non-empty term whose lower-case form occurs in the record's lower-case form |
| Lookup.LeadingTermDropped | index.js:341-347 | on the indirect path a number or boolean whose text starts with the term is not returned |
| Lookup.ScatteredShinglesFound | index.js:341-347 | on the indirect path a number or boolean whose text holds every shingle of the term, but not the term itself, is returned |
| Lookup.UpperCaseTermMissesStrings | index.js:328-339 | with case respected, a long term with an upper-case letter never returns a string record |
| Engine.Merge | index.js:20-25 | an option given is taken; otherwise 12 levels and case ignored |
| Engine.FullTextSearchLight.constructor | index.js:18-33 | the merged configuration, that many empty levels, an empty table, pointer and counter 0, and the invariant |
| Engine.FullTextSearchLight.Init | index.js:36-42 | one empty level is appended per `index_amount`; nothing else changes |
| Engine.FullTextSearchLight.IgnoreCase | index.js:94-100 | a boolean becomes the setting and nothing is returned; without one the setting is returned and nothing changes |
| Engine.FullTextSearchLight.NextFreeIndex | index.js:496-498 | returns the old pointer and advances it by one; `free_slots` is not read |
| Engine.FullTextSearchLight.Add | index.js:151-165 | the record goes into the slot at the old pointer; every other slot and the free list are unchanged; the index becomes `IndexRecord` of the old one; the counter grows by the number of primitive visits; the invariant is kept |
| Engine.FullTextSearchLight.AddToIndex | index.js:168-221 | a primitive is indexed under its text; a structure is indexed under the texts of the leaves the filter lets through |
| Engine.FullTextSearchLight.AddPrimitiveToIndex | index.js:172-211 | the primitive's text, lower-cased for strings when case is ignored, is indexed on every level; the counter grows by one |
| Engine.FullTextSearchLight.AddShinglesOf | index.js:177-209 | the level loop with its early `break` indexes the text on every level |
| Engine.FullTextSearchLight.AddParts | index.js:198-208 | the parts loop inserts the id under each part of one level |
| Engine.FullTextSearchLight.AddLeaves | index.js:213-219 | each leaf callback indexes its text in turn |
| Engine.FullTextSearchLight.Search | index.js:223-364 | the result is the records of `SearchIds` for the normalised term |
| Engine.FullTextSearchLight.DirectSearch | index.js:239-258 | the records listed under the term on level `|term| - 1`, in list order; none for a missing key |
| Engine.FullTextSearchLight.IndirectSearch | index.js:260-363 | the records of `IndirectIds` |
| Engine.FullTextSearchLight.FoundIds | index.js:270-284 | the concatenated lists of the parts found, and how many parts were found |
| Engine.FullTextSearchLight.CountIds | index.js:300-307 | the counter has a key exactly for each id seen, and holds its number of occurrences |
| Engine.FullTextSearchLight.SelectCounted | index.js:311-318 | the ids counted exactly once per part, in ascending order |
| Engine.FullTextSearchLight.CountMatches | index.js:300-318 | the ids counted exactly once per part, in ascending order |
| Engine.FullTextSearchLight.VerifyCandidates | index.js:322-363 | the records of the candidates that pass the check, in candidate order |
| Engine.FullTextSearchLight.VerifyCandidate | index.js:328-361 | a string passes when its lower-case form contains the term; a number or boolean when `indexOf` is not 0; a structure when `traverseCheck` matches |
| Engine.FullTextSearchLight.TraverseCheck | index.js:122-149 | matches exactly when some unfiltered leaf text, lower-cased when case is ignored, contains the term |
| Engine.FullTextSearchLight.RemoveData | index.js:366-375 | the slot becomes empty and its id is appended to the free list; nothing else changes |
| Engine.FullTextSearchLight.RemovePrimitive | index.js:429-476 | an empty or missing key fails and leaves the index unchanged; an existing key loses the id and is deleted once its list is empty; a longer text purges the top level under its shingles |
| Engine.FullTextSearchLight.PurgeTop | index.js:455-475 | every shingle that is a top-level key loses the id; shingles that are not keys are skipped |
| Engine.FullTextSearchLight.RemoveParts | index.js:400-402 | the parts are purged one by one; the loop succeeds exactly when every part is a key of the level; a failure names the first part that is not a key, with the parts before it purged |
| Engine.FullTextSearchLight.RemoveLevel | index.js:398-403 | the text's shingles of one level are purged; success exactly when each is a key of the level, and a failure names a shingle that is not |
| Engine.FullTextSearchLight.RemoveShingles | index.js:396-403 | every level is purged under the text's shingles; success exactly when `KeysPresent` holds, and a failure names a missing shingle of the first level that lacks one; a text the index covers never fails |
| Engine.FullTextSearchLight.RemoveRecordText | index.js:386-406 | a primitive record is taken out of every list and its slot is freed; the invariant is kept |
| Engine.FullTextSearchLight.RemoveLeaves | index.js:410-424 | each leaf's raw text is purged in turn; success exactly when `LeavesPass` holds (each text's shingles are keys when its turn comes), and then every leaf's shingles were handled |
| Engine.FullTextSearchLight.RemoveStructure | index.js:408-425 | success exactly when `LeavesPass` holds for the unfiltered leaves; success takes the id out of every list and frees the slot; failure reports a missing entry, leaves a partly purged index and a live slot; the invariant holds either way |
| Engine.FullTextSearchLight.Remove | index.js:377-426 | an empty slot is refused and nothing changes; a primitive record is always removed; a structured record is removed exactly when `LeavesPass` holds for its unfiltered leaves; a success means a full purge with the slot freed; a failure means `MissingEntry` and a partial purge |
| Engine.FullTextSearchLight.Drop | index.js:487-493 | empty levels, an empty table, pointer 0 and an empty free list; the configuration and the counter are kept |
| Engine.PrimitiveRemovalIsPurge | index.js:386-406 | removing all shingles of a primitive record's text purges the record from every level |
| Engine.CoversKeysPresent | index.js:396-403 | a text the index covers for the id has every shingle as a key of its level |
| Engine.SeparateLeavesRemovable | index.js:408-425 | a structure whose leaf texts are each covered and share no shingle with one another is removed without a missing entry |
| Engine.RepeatedLeafBlocks | index.js:408-453 | a leaf reached twice whose first character lists only this record fails removal: the first visit deletes that key |
| Engine.StructureRemovalIsPurge | index.js:408-425 | once every leaf's raw text was handled on every level, the structured record is purged from every level |
| Engine.AddedStringIsFound | index.js:151-364 | with case ignored, a string just added is found by every non-empty term whose lower-case form it contains |
| Engine.RemovedIsNotFound | index.js:377-426 | after a full removal no search returns the removed id |
| Engine.RemoveKeepsOthers | index.js:377-426 | a full removal changes no search result for any other id |
| Engine.PurgedSearch | index.js:223-364 | searches over a purged index and table agree with the old ones on every id but the removed one |

## Left out

- The `index_amount` setter and getter (index.js:86-92): the setter desynchronises the configuration from the number of levels.
- `load`, `loadSync`, `save` and `saveSync` (index.js:45-84): file I/O through `jsonfile` and callbacks.
- `debug` logging: it has no effect on the state.
- `merge` (index.js:25) is modelled only for the two known options, as `Merge`.
- `null` and `undefined` records and leaves, boxed primitives, and the `Function` constructor branch of `addToIndex` (index.js:215). Inherited prototype keys are left out too.
- Floating-point numbers: numbers are integers rendered in decimal.
- Full Unicode `toLowerCase`: lower-casing is ASCII only and keeps the length.
- Strings are sequences of Unicode characters, not UTF-16 code units: a character outside the Basic Multilingual Plane (a surrogate pair) counts as one character here and as two in JavaScript's `length`, `substring` and `indexOf` (index.js:240-244, 266, 346, 511-517). For such texts the shingle lengths, the shingles themselves and the choice between direct and indirect search differ from the source's.
- Records are stored and returned as values, not by reference (index.js:159, 255-256, 381). A caller that mutates an object after `add` changes what the source's final check and `remove` read, and can leave the index out of step with the record. The model cannot express that aliasing.
- Cyclic records: Dafny values are acyclic.
- JavaScript's property enumeration order is not modelled. Fields come in the order the `Obj` value lists them. The `for (key in counter)` pass is modelled as an ascending scan of ids below the table's length, which is how integer-like keys enumerate.
- Values.WalkFilterExact: the exact equality is stated only for filters that answer by key alone and prune a fixed set of keys. For a filter that also consults the container, only Values.WalkSubset is stated: the walk reports some of the unfiltered leaves. Which ones is not characterised, because with repeated keys a leaf's path does not say which field it came from.
- Engine.FullTextSearchLight.constructor: requires at least one level, because the source with `index_amount` 0 indexes nothing and its searches read level -1.
- Engine.FullTextSearchLight.RemoveData: requires an id inside the table; the source would also write past its end.
- Engine.FullTextSearchLight.Remove: when a structured record is removed is characterised by `LeavesPass`, which plays the removal forward on the index; it is not restated as a condition on the record's own texts alone.
- Engine.FullTextSearchLight.IgnoreCase: the invariant is kept only when the setting stays the same, because the source leaves the keys indexed under the old setting.
- IndexState.Complete covers primitive records only. What a filtered structure is listed under is stated by Engine.FullTextSearchLight.Add through `IndexRecord`, not by the invariant.
- Free-slot reuse: the source never reads `free_slots`, and neither does the model.
- Concurrency and exceptions as control flow: a thrown error becomes a `Fail` outcome.
- The cut examples with repeated shingles (test/all.js:98-108) are not stated as lemmas. Order and de-duplication in general are covered by Shingles.CutIsDistinctSubstrings.
