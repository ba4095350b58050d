# Influencer repository of the influmedia dashboard, in Dafny

The influmedia dashboard keeps a directory of influencers in one
Firestore collection, `influencers`. It has two parts in its core:

- `src/app/utils/normalize.ts` holds pure helpers.
  - `normalizeText` folds a string: it decomposes the text, drops
    diacritics, lower-cases it, squeezes white space and trims it.
  - `buildKeywords` turns a name into search tokens and their prefixes
    of up to 8 characters.
  - `inferHandleLower` picks the first social handle that is set.
  - `normalizeForWrite` builds only the derived fields whose source is
    present.
  - `cleanUndefined` removes `undefined` at every depth, since Firestore
    refuses it.
- `src/app/services/influencers.service.ts` is the `InfluencersService`.
  - `listChunk` lists the collection in pages ordered by `email`, with a
    `startAfter` cursor.
  - `searchByName` and `searchByEmail` are tolerant searches. Each one
    queries several tiers in order and swallows errors of every tier but
    the last. It keeps each document once and returns early once a page
    is full.
  - `searchSmart` picks one of the two searches by mode.
  - `get` reads one document.
  - `create` writes a normalised, cleaned payload with server timestamps.
  - `update` merges a normalised, cleaned patch.
  - `remove` deletes a document.

The model is split into these modules:

- `Values`: JavaScript values and objects as ordered entry lists. It
  gives property access, assignment, spread, rest destructuring,
  truthiness and `String(v)`.
- `Text`: `normalizeText` and its stages, plus splitting and joining.
- `KeywordIndex`: `buildKeywords`, both as a function and as the nested
  loop that fills the set `pref`.
- `Normalize`: `inferHandleLower`, `normalizeForWrite` (a method with its
  conditional assignments, proved against `DerivedFields`) and
  `cleanUndefined` (a method whose object and array loops are proved
  against `Clean`).
- `Order`: the store's order of values: by type rank, then by value. It
  includes the inclusive prefix ranges `[key, key + U+F8FF]`.
- `Store`: an abstract, in-memory stand-in for the document store.
  - Queries answer the matching documents, sorted by the field and then
    by id, cut to the limit.
  - A limit below 1 fails, and so does any query in the collection's
    `failing` set.
  - It models merge writes, deletes and a fresh-id picker.
- `Search`: what the two tolerant searches share.
  - A tier's loop that skips ids already seen.
  - One guarded tier.
  - The function `Tiered`, with its early unsliced return and its final
    slice.
- `Repository`: the service's queries, search keys, pages and payloads as
  functions over a collection, with the properties of each.
- `Service`: the class `InfluencersService`. Its field `col` is the
  collection. Its methods run the service's steps and are proved equal to
  the `Repository` functions. The write methods keep the invariant `Valid`:
  ids are distinct and no document holds a key twice.

The code's behaviour is kept as written, including where it departs from
what its comments or its documentation suggest:

- Name tiers 0 to 2 are keyed by `normalizeForWrite` of a bare string,
  which is the empty map `{}`. So tiers 1 and 2 can never return a
  document, and tier 0 matches only documents whose `search_name` is `{}`.
- The early returns hand back the accumulator unsliced.
- Keywords are deduplicated only within each half, and have no cap.
- Tiers swallow every error, not only a missing index.
- Handles are not stripped of a leading `@`.

## Model

| member | source | states |
|---|---|---|
| Values.Assign | src/app/utils/normalize.ts:34-44 | assigning `o[k] = v` adds `k` to the keys; `k` reads `v` afterwards; every other key reads as before; keys stay distinct |
| Values.AssignAll | src/app/services/influencers.service.ts:138-144 | spreading `more` over an object gives the union of the keys; a key of `more` reads its value from `more`, any other key reads as before; keys stay distinct |
| Values.RemoveKey | src/app/services/influencers.service.ts:136 | rest destructuring without `k` removes exactly `k` from the keys; every other key reads as before; `k` reads `undefined` |
| Values.Lookup | src/app/services/influencers.service.ts:141 | a key that is not present reads `undefined` |
| Text.NormalizeTextShape | src/app/utils/normalize.ts:2-8 | the output is the words of the decomposed, mark-stripped, lower-cased input joined by single spaces; it has no white space at either end, no white space other than `' '`, and no two adjacent spaces; a nullish input gives `''` |
| Text.NormalizeText | src/app/utils/normalize.ts:3 | a null or undefined argument gives the empty string |
| Text.NormalizeTextChars | src/app/utils/normalize.ts:4-6 | no diacritic, no upper-case letter and no decomposable character is left in the output |
| Text.NormalizeTextIdempotent | src/app/utils/normalize.ts:2-8 | normalising an already normalised string gives it back, for decomposition without canonical reordering |
| Text.SqueezeIdempotent | src/app/utils/normalize.ts:7-8 | the white-space stage (squeeze, then trim) is idempotent |
| Text.SqueezeIsJoinedWords | src/app/utils/normalize.ts:7-8 | the white-space stage gives the words of its input (its maximal runs of non-white-space characters) joined by single spaces |
| Text.WordsOfJoin | src/app/utils/normalize.ts:7-8 | the words of words joined by single spaces are those words, so the white-space stage loses no word and invents none |
| Text.DecomposeClean | src/app/utils/normalize.ts:4 | after decomposition no character decomposes further: neither a precomposed Latin-1 letter nor one of the marks U+0340, U+0341, U+0343 and U+0344 is left |
| Text.DecomposeMarks | src/app/utils/normalize.ts:4 | U+0341 decomposes to U+0301, and U+0344 to U+0308 U+0301 |
| Text.DecomposeIdentity | src/app/utils/normalize.ts:4 | decomposition leaves a string in which no character decomposes unchanged, for decomposition without canonical reordering |
| Text.StripClean | src/app/utils/normalize.ts:5 | removing diacritics leaves no diacritic and only characters of the input |
| Text.StripIdentity | src/app/utils/normalize.ts:5 | removing diacritics leaves a string without diacritics unchanged |
| Text.Lower | src/app/utils/normalize.ts:6 | no upper-case letter is left, and a string without upper-case letters is unchanged |
| Text.UpperChar | src/app/services/influencers.service.ts:74 | the upper case of a character is one or two characters with nothing left to upper-case; sharp s gives "SS", y with diaeresis U+0178, the micro sign U+039C; a character without an upper case is kept |
| Text.Upper | src/app/services/influencers.service.ts:74 | upper-casing leaves nothing to upper-case, at most doubles the length, and keeps a string that has nothing to upper-case |
| Text.UpperSharpS | src/app/services/influencers.service.ts:74 | upper-casing "ßmith" gives "SSMITH" |
| Text.Split | src/app/utils/normalize.ts:14 | splitting on a separator gives at least one part, and no part contains the separator |
| Text.SplitJoin | src/app/utils/normalize.ts:14 | splitting the join of separator-free parts gives back the parts |
| Text.JoinSplit | src/app/utils/normalize.ts:14 | joining the parts of a split with its separator gives back the string |
| KeywordIndex.NonEmpty | src/app/utils/normalize.ts:14 | dropping the falsy tokens keeps only non-empty strings of the input, and keeps every element when none is empty |
| KeywordIndex.DistinctMembers | src/app/utils/normalize.ts:14 | deduplication through a set keeps every element and only those |
| KeywordIndex.DistinctNoDuplicates | src/app/utils/normalize.ts:14 | deduplication holds no element twice |
| KeywordIndex.DistinctFirstOccurrenceOrder | src/app/utils/normalize.ts:14 | deduplication lists the elements in the order of their first occurrence |
| KeywordIndex.TokensAreWords | src/app/utils/normalize.ts:12-14 | the tokens of a non-empty normalised name are the distinct words of the folded name, and there is at least one |
| KeywordIndex.BuildKeywords | src/app/utils/normalize.ts:11-20 | the method, with its nested loop, returns exactly `Keywords(name)` |
| KeywordIndex.CollectPrefixes | src/app/utils/normalize.ts:15-18 | the outer loop leaves `pref` holding every prefix generated, each once, in insertion order |
| KeywordIndex.AddPrefixes | src/app/utils/normalize.ts:17 | the inner loop adds the prefixes of lengths 1 to min(length, 8) of one token to `pref`, skipping those already present |
| KeywordIndex.KeywordsAreWords | src/app/utils/normalize.ts:12-14 | the result is empty exactly when the normalised name is empty; otherwise every element is non-empty and has no white space |
| KeywordIndex.KeywordsTokens | src/app/utils/normalize.ts:14-19 | the result is the distinct words of the folded name in first-occurrence order, followed by the prefix part; its length is the sum of the two; every word appears among the tokens |
| KeywordIndex.PrefixPart | src/app/utils/normalize.ts:15-18 | the prefix part has no duplicates and holds exactly the prefixes of lengths 1 to min(length, 8) of the tokens |
| KeywordIndex.KeywordsArePrefixes | src/app/utils/normalize.ts:11-20 | every keyword is a prefix of some token |
| KeywordIndex.ShortTokenRepeats | src/app/utils/normalize.ts:19 | there is no deduplication across the two halves: the name "ab" gives `["ab", "a", "ab"]` |
| Normalize.InferHandleLower | src/app/utils/normalize.ts:23-28 | there is no handle exactly when none of `instagram`, `tiktok`, `youtube` is truthy; otherwise the handle is the lower-cased string form of the first truthy one, in that order |
| Normalize.InferHandleOrder | src/app/utils/normalize.ts:26 | an empty `instagram` is skipped, and `tiktok` wins over `youtube` |
| Normalize.EmptyArrayHandle | src/app/utils/normalize.ts:26-27 | an empty array is truthy, so it is picked and gives `""`; `normalizeForWrite` then writes no `handleLower` |
| Normalize.NormalizeForWrite | src/app/utils/normalize.ts:31-47 | the conditional assignments into `out` build exactly `DerivedFields(raw)` |
| Normalize.NameFields | src/app/utils/normalize.ts:36-41 | the name branch assigns the lower-cased name, its normalised text and, when non-empty, its keywords |
| Normalize.DerivedKeys | src/app/utils/normalize.ts:31-47 | keys are distinct; `emailLower` is present iff `email` is not nullish; `nameLower` and `search_name` iff `name` is not nullish; `keywords` iff, in addition, the keywords are non-empty; `handleLower` iff the inferred handle is non-empty; there are no other keys |
| Normalize.DerivedValues | src/app/utils/normalize.ts:34-44 | each derived key holds the lower-cased string form of `email` or `name`, the normalised name, its keywords as an array, or the inferred handle; no value is `undefined` |
| Normalize.DerivedDefined | src/app/utils/normalize.ts:30-47 | no derived value holds `undefined` at any depth |
| Normalize.DerivedFieldsOfString | src/app/utils/normalize.ts:31-47 | a bare string has none of the three properties, so it gives `{}` |
| Normalize.DropUndef | src/app/utils/normalize.ts:51 | filtering an array leaves no `undefined` item |
| Normalize.DropUndefIn | src/app/utils/normalize.ts:51 | an item survives the filter iff it was present and is not `undefined` |
| Normalize.CleanUndefined | src/app/utils/normalize.ts:50-61 | the recursive method, with its loop over the entries, returns exactly `Clean(v)` |
| Normalize.Clean | src/app/utils/normalize.ts:50-61 | objects stay objects and arrays stay arrays (never `undefined`, even when empty); the result is `undefined` iff the input is |
| Normalize.CleanDefined | src/app/utils/normalize.ts:50-61 | the result is `undefined` iff the input is; otherwise no `undefined` is left at any depth |
| Normalize.CleanDefinedIdentity | src/app/utils/normalize.ts:50-61 | a value without `undefined` at any depth is left unchanged; so `null`, `false`, `0` and `''` are kept |
| Normalize.CleanIdempotent | src/app/utils/normalize.ts:50-61 | cleaning twice is cleaning once |
| Normalize.CleanArray | src/app/utils/normalize.ts:51 | a cleaned array is an order-keeping subsequence of the cleaned items; as a multiset it is those items minus every `undefined` |
| Normalize.CleanObject | src/app/utils/normalize.ts:52-58 | a cleaned object has distinct keys; each key reads its cleaned value; it keeps exactly the keys whose value was not `undefined` |
| Normalize.CleanExample | src/app/utils/normalize.ts:50-61 | a nested object loses its `undefined` fields and array items at every level |
| Order.LtStrictWeakOrder | src/app/services/influencers.service.ts:23 | the store's order is irreflexive and transitive, and two values are unordered iff they have the same sort key |
| Order.LeTotalPreorder | src/app/services/influencers.service.ts:23 | the non-strict order is reflexive, total and transitive |
| Order.PrefixRangeSound | src/app/services/influencers.service.ts:57-58 | every value in `[key, key + U+F8FF]` is a string that begins with `key` |
| Order.PrefixRangeComplete | src/app/services/influencers.service.ts:57-58 | the key, and every extension of it whose next character is below U+F8FF, lies in the range |
| Order.PrefixRangeMisses | src/app/services/influencers.service.ts:57-58 | a name that continues the key with a character above U+F8FF is missed |
| Order.MapToStringRangeEmpty | src/app/services/influencers.service.ts:57-58 | no value lies between the map `{}` and a string, so a range from `{}` to a string is empty |
| Store.Filter | src/app/services/influencers.service.ts:50 | the filtered documents come from the collection and satisfy the query |
| Store.Take | src/app/services/influencers.service.ts:23 | the limit keeps a prefix of at most `limit` documents, and keeps all of them when there are fewer |
| Store.SortByCorrect | src/app/services/influencers.service.ts:23 | results are sorted by the field and then by id, and they are a permutation of the matches |
| Store.ExecuteFails | src/app/services/influencers.service.ts:28 | a query fails iff its limit is below 1 or the collection fails it |
| Store.ExecuteResult | src/app/services/influencers.service.ts:28 | a query that runs answers at most `limit` documents of the collection, all matching, sorted; when it answers fewer than `limit`, every matching document is answered |
| Store.ExecuteDistinct | src/app/services/influencers.service.ts:28 | a query over a collection whose ids are distinct answers distinct ids |
| Store.EqualById | src/app/services/influencers.service.ts:50 | the documents answered by an equality query are in id order |
| Store.MergeEntries | src/app/services/influencers.service.ts:167 | a merge write keeps the union of the keys; a stored key the patch does not mention keeps its value |
| Store.MergeLeaf | src/app/services/influencers.service.ts:167 | a patched value that is not a non-empty map replaces the stored one |
| Store.SetMergeEffect | src/app/services/influencers.service.ts:167 | after a merge write the ids stay distinct, the target holds its stored data with the patch merged in (merged onto nothing when it was new), and every other document is unchanged |
| Store.SetMergeMembers | src/app/services/influencers.service.ts:167 | after a merge write every document is an old one or the merged one |
| Store.DeleteDoc | src/app/services/influencers.service.ts:172 | a delete removes exactly the document with that id |
| Store.DeleteDocDistinct | src/app/services/influencers.service.ts:172 | after a delete the ids stay distinct and the id finds nothing |
| Store.DeleteDocFind | src/app/services/influencers.service.ts:172 | a delete leaves every other id finding what it found before |
| Store.FindDoc | src/app/services/influencers.service.ts:130 | a lookup finds a document iff the id is stored, and what it finds is that stored document |
| Store.FreshId | src/app/services/influencers.service.ts:145 | the id given to an added document is not already in use |
| Store.AppendFresh | src/app/services/influencers.service.ts:145 | adding a document under a fresh id keeps the ids distinct |
| Store.AppendFind | src/app/services/influencers.service.ts:145 | after the add the new id finds the new document, and every other id is unchanged |
| Search.SliceTo | src/app/services/influencers.service.ts:79 | slicing gives a prefix of length min(n, length) |
| Search.AbsorbRows | src/app/services/influencers.service.ts:51 | the loop of a tier pushes exactly the rows of `Absorb(acc, docs)` and records their ids in `seen` |
| Search.TryTier | src/app/services/influencers.service.ts:49-53 | a failed tier leaves the rows and ids unchanged and does not return; a tier that ran is absorbed; the search returns early iff the tier ran and the accumulator holds at least `pageSize` documents |
| Search.AbsorbIds | src/app/services/influencers.service.ts:51 | absorbing a tier collects the ids of the accumulator and of the tier |
| Search.AbsorbFacts | src/app/services/influencers.service.ts:51 | absorbing extends the accumulator, only with documents of the tier whose ids were unseen |
| Search.TieredDistinct | src/app/services/influencers.service.ts:45-51 | a search answer never holds two documents with the same id |
| Search.TieredPrefix | src/app/services/influencers.service.ts:49-79 | the answer is a prefix of every tier absorbed in order, so an id keeps the position of the first tier that returned it |
| Search.TieredShortIsAll | src/app/services/influencers.service.ts:49-79 | an answer shorter than the page is every tier absorbed in order, the last tier included, and the last tier ran |
| Search.AllAbsorbedIds | src/app/services/influencers.service.ts:49-79 | every id of a tier that ran, and of the last tier when it ran, is among the ids absorbed |
| Search.TieredCons | src/app/services/influencers.service.ts:52 | a failed first tier is skipped; otherwise its documents are absorbed, and the search returns them when there are at least `pageSize`, or goes on with the next tier |
| Search.TieredFailure | src/app/services/influencers.service.ts:75 | a search fails only when the last tier fails, and it does fail then unless the earlier tiers filled the page |
| Search.FailedTierSwallowed | src/app/services/influencers.service.ts:49-53 | a failing guarded tier acts as one that found nothing |
| Search.TieredAllFailed | src/app/services/influencers.service.ts:49-79 | when every tier fails, the search fails |
| Search.TieredQuiet | src/app/services/influencers.service.ts:49-71 | guarded tiers that fail or find nothing leave just the last tier |
| Search.TieredFrom | src/app/services/influencers.service.ts:49-79 | every document answered came from some tier that ran |
| Search.TieredLength | src/app/services/influencers.service.ts:52 | an answer is shorter than twice the page size, and no longer than the page when the guarded tiers together found fewer than a page |
| Search.EarlyAnswerExceedsPage | src/app/services/influencers.service.ts:52 | an early return is not sliced: with a page size of 2, tiers of one document and of two documents answer all three |
| Search.RowsSlice | src/app/services/influencers.service.ts:79 | slicing the rows is slicing the documents |
| Repository.ChunkFails | src/app/services/influencers.service.ts:22-28 | a page fails iff the page size is below 1 or its query fails |
| Repository.ChunkShape | src/app/services/influencers.service.ts:23-29 | when the page size is at least 1 and the query does not fail, the page holds the rows of at most `pageSize` documents of the collection with an `email`, in email order, all strictly after a truthy cursor |
| Repository.ChunkCursor | src/app/services/influencers.service.ts:30-31 | for a page that is answered, `ended` holds iff the page is shorter than `pageSize`; the cursor is `null` for an empty page, and otherwise the `email` of the last document |
| Repository.ChunkComplete | src/app/services/influencers.service.ts:31 | when the page has ended it holds every document whose email follows the cursor |
| Repository.ChunkNext | src/app/services/influencers.service.ts:24-25 | paging with the returned cursor gives documents whose emails are all strictly greater than those of the page before, so no document is repeated |
| Repository.ChunkSkipsTies | src/app/services/influencers.service.ts:25 | a document whose email equals the cursor is never on the next page |
| Repository.ChunkRestart | src/app/services/influencers.service.ts:24-26 | a falsy cursor, such as `null` or `''`, gives the first page |
| Repository.TiersSound | src/app/services/influencers.service.ts:49-79 | every document answered is in the collection and matches one of the tier queries |
| Repository.TiersComplete | src/app/services/influencers.service.ts:49-79 | over distinct ids, an answer shorter than the page holds every stored document that matches the last query or a guarded query that did not fail |
| Repository.TiersBadPage | src/app/services/influencers.service.ts:42-80 | a page size below 1 makes every tier fail, and so the search fails |
| Repository.NameKeyIsEmptyMap | src/app/services/influencers.service.ts:43-44 | the key of name tiers 0 to 2 is the empty map, and their range ends at the string `"[object Object]"` followed by U+F8FF |
| Repository.CapitalizeExamples | src/app/services/influencers.service.ts:74 | the legacy key of "ANA" is "Ana", and that of "ßmith" is "SSmith" |
| Repository.NamePrefixTiersEmpty | src/app/services/influencers.service.ts:56-71 | name tiers 1 and 2 never answer a document |
| Repository.NameExactTierEmpty | src/app/services/influencers.service.ts:49-53 | when no document stores `{}` as its `search_name`, tier 0 answers nothing |
| Repository.NameSearchIsLegacy | src/app/services/influencers.service.ts:42-80 | when no document stores `{}` as its `search_name`, the name search is the legacy, capitalised prefix search alone |
| Repository.NameSearchSound | src/app/services/influencers.service.ts:42-80 | every document a name search answers is in the collection, and its `search_name` is `{}` or its `name` begins with the capitalised trimmed term |
| Repository.NameSearchComplete | src/app/services/influencers.service.ts:42-80 | over distinct ids, a name search answering fewer than `pageSize` rows answers every stored document that matches the legacy `name` query or one of tiers 0 to 2 that did not fail |
| Repository.NameSearchLength | src/app/services/influencers.service.ts:42-80 | a name search never answers more than `pageSize` documents |
| Repository.EmailSearchSound | src/app/services/influencers.service.ts:88-116 | every document an email search answers is in the collection, and its `emailLower` or `email` begins with the trimmed, lower-cased term |
| Repository.EmailSearchComplete | src/app/services/influencers.service.ts:88-116 | over distinct ids, an email search answering fewer than `pageSize` rows answers every stored document that matches the legacy `email` query or an `emailLower` tier that did not fail |
| Repository.EmailSearchLength | src/app/services/influencers.service.ts:88-116 | an email search answers fewer than twice `pageSize` documents |
| Repository.SearchOutcome | src/app/services/influencers.service.ts:42-116 | both searches answer distinct ids, fail only when their legacy tier fails, and fail for a page size below 1 |
| Repository.RowOfLookup | src/app/services/influencers.service.ts:131 | a row has the stored keys plus `id`; it reads the stored values, and its `id` is the document's id unless the data holds its own `id` |
| Repository.GetShape | src/app/services/influencers.service.ts:128-132 | `get` answers a row iff the id is stored, and that row is the stored document's |
| Repository.GetAfterAppend | src/app/services/influencers.service.ts:145 | after adding a document, `get` of its id answers its row, and every other id answers as before |
| Repository.GetAfterMerge | src/app/services/influencers.service.ts:167 | after a merge write, `get` of the id answers the merged document, and every other id answers as before |
| Repository.GetAfterDelete | src/app/services/influencers.service.ts:172 | after a delete, `get` of the id answers nothing, and every other id answers as before |
| Repository.LiteralClean | src/app/services/influencers.service.ts:138-145 | cleaning the payload object gives a map with distinct keys and no `undefined`; later fields win; a plain field keeps its cleaned value and disappears when it was `undefined` |
| Repository.CreateShape | src/app/services/influencers.service.ts:135-147 | `create` throws iff the email is neither nullish nor a string. Otherwise the payload has distinct keys, no `undefined` and no `id`; the derived fields overwrite raw ones; `email` is the lower-cased email, or `''`; both timestamps are set; the other fields keep their cleaned values; no other key appears |
| Repository.UpdateShape | src/app/services/influencers.service.ts:149-168 | `update` throws iff an `email` key is present and is neither nullish nor a string. Otherwise the patch has distinct keys, no `undefined` and no `id`; `updatedAt` is set; `email` and `emailLower` both hold the lower-cased email exactly when the key is present, and otherwise `email` is absent and `emailLower` is the caller's own; the other derived fields win; the other fields keep their cleaned values |
| Repository.UpdateClearsEmail | src/app/services/influencers.service.ts:154-157 | an `email` key set to `null` or `undefined` is written as `''` in both `email` and `emailLower`, beside `updatedAt` |
| Service.InfluencersService.constructor | src/app/services/influencers.service.ts:15-17 | the service starts over a valid collection |
| Service.InfluencersService.ListChunk | src/app/services/influencers.service.ts:22-33 | the method's query, mapping, cursor and `ended` flag give exactly `ChunkOf` |
| Service.InfluencersService.SearchByName | src/app/services/influencers.service.ts:42-80 | the four guarded and final tiers, the per-tier loops, the early returns and the final slice give exactly the rows of `NameSearch` |
| Service.InfluencersService.SearchByEmail | src/app/services/influencers.service.ts:88-116 | the three tiers give exactly the rows of `EmailSearch` |
| Service.InfluencersService.SearchSmart | src/app/services/influencers.service.ts:119-123 | mode `"email"` runs the email search; every other mode runs the name search |
| Service.InfluencersService.Get | src/app/services/influencers.service.ts:128-132 | `get` answers `GetOf` of the collection |
| Service.InfluencersService.Create | src/app/services/influencers.service.ts:135-147 | on a throw the collection is unchanged; otherwise one document with a fresh id and `CreatePayload` is added, `get` answers it, every other id is unchanged, and the collection stays valid |
| Service.InfluencersService.Update | src/app/services/influencers.service.ts:149-168 | on a throw the collection is unchanged; otherwise the patch is merged into the id (made when missing), `get` answers the merged document, every other id is unchanged, and the collection stays valid |
| Service.InfluencersService.Remove | src/app/services/influencers.service.ts:171-173 | the document is deleted, `get` of it answers nothing, every other id is unchanged, and the collection stays valid |

## Left out

- Firestore itself is not modelled. In its place is the abstract collection of `Store`: the store's query planner, its indexes and its network are not part of this model.
- A query that fails for any reason, such as a missing index, is modelled by the collection's `failing` set.
- Write failures of `addDoc`, `setDoc` and `deleteDoc` are not modelled: writes always succeed.
- Store.FreshId: the store's random id is replaced by a deterministic one that is not already in use.
- Document ids are not checked for path validity.
- The server-timestamp sentinel is an opaque leaf `ServerTime`. `cleanUndefined` would rebuild the SDK's sentinel object field by field; the model keeps it as a leaf and claims nothing about what the store then writes.
- Arrays, maps and timestamps compare only by type rank: the store's order within each of these types is not modelled.
- The `search_name` filter compares maps as ordered entry lists; Firestore's map equality ignores key order.
- Unicode: canonical decompositions, the Diacritic property and case mapping are given only for ASCII, Latin-1 and the combining marks U+0300–U+0362. Lower-casing maps every Latin-1 upper-case letter; upper-casing maps every Latin-1 lower-case letter, including sharp s to "SS", y with diaeresis to U+0178 and the micro sign to U+039C. Characters outside Latin-1 are left unchanged by both. White space, trimming, tokens and prefixes are modelled exactly.
- Text.Decompose: NFD's canonical reordering of adjacent combining marks by combining class is not modelled; only the character-by-character decompositions are (the precomposed Latin-1 letters, and U+0340, U+0341, U+0343 and U+0344 to U+0300, U+0301, U+0313 and U+0308 U+0301). After diacritic removal this matters only for the marks that survive it, U+0358–U+035C: in the source "A\u035B\u0359" folds to "a\u0359\u035B", in the model to "a\u035B\u0359".
- Text.DecomposeIdentity: holds for the model's decomposition only. NFD also reorders a string in which no character decomposes, such as "a\u035B\u0359" to "a\u0359\u035B".
- Text.NormalizeTextIdempotent: holds for the model's decomposition only. With canonical reordering `normalizeText` is not idempotent: "a\u035B^\u0359" folds to "a\u035B\u0359" (the `^` keeps the two marks apart during decomposition and is removed afterwards), and that folds again to "a\u0359\u035B".
- Strings are sequences of code points. JavaScript's UTF-16 code units, which set `tok.length` and `slice` for characters outside the Basic Multilingual Plane, are not modelled.
- Objects keep their keys in insertion order. JavaScript lists integer-like keys first, in ascending order, so `{ id: d.id, ...d.data() }` with a key "0" would list "0" before "id"; no contract here depends on key order.
- `String(v)` of an object uses the default `"[object Object]"`; custom `toString` methods are not modelled.
- Numbers are integers. Fractions, NaN, the infinities, -0 and exponent notation are not modelled, so `String(v)` of a number prints only decimal integers. NaN's falsiness and its place below every number in the store's order are not modelled either.
- The default arguments (page size 200, mode `'name'`, `lastEmail` null) are not modelled; callers pass every argument.
- async/await and overlapping calls are not modelled: each call runs to completion alone.
- Angular dependency injection, authentication and the dashboard UI are not part of this model.
- Repository.EmailSearchLength: proves fewer than twice the page size, not the page size itself, because an early return can exceed the page.
