# play-search, modelled in Dafny

A model of the Play! search module, the Lucene-backed full-text index for JPA
entities. It covers five parts.

- **Document building** (`Documents`, `Conversion`). An entity becomes a flat
  list of index fields:
  - an `_docID` key first, then one field per annotated member;
  - an `<name>_untokenized` shadow field beside every field that is both
    tokenized and sortable;
  - fields reached along the `joinField` paths of related entities;
  - a closing `allfield` that aggregates every value.
- **The index registry** (`Registry`, `Maintenance`). The store is a state
  machine over these maps:
  - index directories, from name to committed documents;
  - lock files;
  - cached writers and cached searchers.

  One model covers the three generations of the store through a `Variant`
  field. The current `store/FilesystemStore` evicts the searcher on refresh,
  creates missing indexes and flushes asynchronous writes past 48 MiB. The
  older `FilesystemStore` and the static `Search` class reopen the searcher in
  place, refuse missing indexes and never flush asynchronous writes.

  The registry operations are `index` (an upsert keyed by `_docID`),
  `unIndex`, the writer and searcher caches, `dirtyReader`, `stop`,
  `delete`, `deleteAll`, `hasIndex`, `optimize`, `reopen`, the full
  re-index, the shadow-directory `rebuild`, and `init`/`start`.
- **Queries** (`Queries`). This part covers:
  - the query settings (`page`, `all`, `reverse`, `orderBy`);
  - the Lucene sort built from them;
  - the cached hit list;
  - the page window over the hits;
  - `executeQuery`, `count`, `fetch`, and `fetchIds` with `Long.parseLong`.
- **MIME guessing** (`Mime`). `ExtensionGuesser` looks up the text after the
  last dot, case-sensitively.

The model makes these substitutions:

- Lucene, the filesystem and JPA are abstract values. Directories are maps.
- A search engine is a parameter made of two parts: a parse predicate, and a
  function from query, sort and searcher contents to hits.
- The entity manager's `find` is a loader function.
- Text extraction from attachments is an extractor function.
- Reflection is replaced by explicit member descriptors.
- Java's `null` is `None`.
- A thrown exception is a `Failure` carrying a `Cause`.

## Model

All source paths are under `src/play/modules/search/`.

| member | source | states |
|---|---|---|
| Documents.NewBuilder | src/play/modules/search/store/DocumentBuilder.java:11-13 | a new builder holds exactly one field, `_docID` with the given key, stored and not tokenized, and an empty aggregate text |
| Documents.AddField | src/play/modules/search/store/DocumentBuilder.java:15-29 | a null value leaves the builder unchanged. Otherwise it appends the field with the annotation's stored and tokenize flags. It adds a second, untokenized `_untokenized` twin with the same value and stored flag exactly when the annotation is both tokenized and sortable. The value plus one space joins the aggregate text |
| Documents.Finish | src/play/modules/search/store/DocumentBuilder.java:31-34 | the document is the fields so far followed by `allfield`, which is not stored, is tokenized and holds the aggregate text |
| Documents.FillIsReference | src/play/modules/search/store/DocumentBuilder.java:15-29 | feeding the calls one by one yields the declarative reference: each call's own fields concatenated, and every non-null value followed by one space, in call order |
| Documents.BuildShape | src/play/modules/search/store/DocumentBuilder.java:11-34 | a finished document has `_docID` first, `allfield` with the aggregate text last, and the calls' fields in between. Its length is 2 plus 1 or 2 per non-null value |
| Documents.BuildKeyed | src/play/modules/search/store/DocumentBuilder.java:11-13 | a finished document is found by its key, both by a delete term and by a stored-field read |
| Documents.FieldsOfLength | src/play/modules/search/store/DocumentBuilder.java:20-26 | the calls contribute 1 field per plain non-null value and 2 per value whose annotation forces a shadow |
| Documents.NullValuesIgnored | src/play/modules/search/store/DocumentBuilder.java:16-18 | dropping every call with a null value leaves the finished document unchanged |
| Conversion.FindId | src/play/modules/search/store/ConvertionUtils.java:129-137 | the result is the first member carrying `@Id`, and none means no member carries it |
| Conversion.IdValueText | src/play/modules/search/store/ConvertionUtils.java:146-160 | a `Model` yields its `Long` id as text (`"null"` when null); any other entity yields its first `@Id` member's value and fails when it has no `@Id` member |
| Conversion.IsForcedUntokenized | src/play/modules/search/store/ConvertionUtils.java:162-171 | true exactly when the first member of that name carries an annotation that is both tokenized and sortable; false when the member or the annotation is missing |
| Conversion.ValueOf | src/play/modules/search/store/ConvertionUtils.java:88-102 | a string is returned as is, possibly null. A non-null attachment goes to the extractor. A non-null `@ManyToOne` entity yields its id text, or the id lookup's failure. Everything else yields `"" + value`: a non-`@ManyToOne` entity its `toString`, any other non-null value its rendering, and any null `"null"` |
| Conversion.IsJoinFieldMatch | src/play/modules/search/store/ConvertionUtils.java:78-86 | true exactly when some join path equals the name or starts with the name followed by a dot |
| Conversion.Traverse | src/play/modules/search/store/ConvertionUtils.java:65-76 | every call a join traversal makes carries the top-level member's annotation |
| Conversion.MemberEntries | src/play/modules/search/store/ConvertionUtils.java:45-59 | every call `toDocument` makes carries the annotation of one of the object's members |
| Conversion.MemberCalls | src/play/modules/search/store/ConvertionUtils.java:46-58 | the calls made for one member all carry that member's annotation |
| Conversion.ToDocument | src/play/modules/search/store/ConvertionUtils.java:35-63 | no document for a class without `@Indexed` or a non-JPA object. A failing id lookup is an error. Otherwise the document is keyed by the id text and built from the member entries |
| Conversion.TraverseEmitsListedPaths | src/play/modules/search/store/ConvertionUtils.java:65-76 | every field a traversal emits is named `<indexName>.<path>` for a path listed exactly in `joinField` |
| Conversion.UnlistedPrefixEmitsNothing | src/play/modules/search/store/ConvertionUtils.java:65-76 | a traversal under a prefix that no join path starts with emits nothing |
| Conversion.EntityPathAloneEmitsNothing | src/play/modules/search/store/ConvertionUtils.java:65-76 | listing only an entity member itself as the join path emits nothing, because only non-entity fields are emitted |
| Conversion.EntriesFromAnnotatedMembers | src/play/modules/search/store/ConvertionUtils.java:45-59 | every entry comes from an annotated member that is neither an array nor a collection, named after the member or after a join path below it |
| Conversion.TraverseEmitsEveryListedLeaf | src/play/modules/search/store/ConvertionUtils.java:67-72 | every listed path that ends at a non-entity member is emitted as `<indexName>.<path>` with that member's value and the annotation |
| Conversion.TraverseEntersMatchingEntities | src/play/modules/search/store/ConvertionUtils.java:67-70 | an entity member on a matching path is non-null in a successful traversal, and everything its nested traversal emits is emitted |
| Conversion.DirectMembersEmitted | src/play/modules/search/store/ConvertionUtils.java:45-59 | every annotated member that is not an array, not a collection and not an entity with join paths is added under its own name with its value and annotation |
| Conversion.DirectMembersInOrder | src/play/modules/search/store/ConvertionUtils.java:45-59 | such members are added in member order |
| Conversion.JoinMembersTraversed | src/play/modules/search/store/ConvertionUtils.java:55-56 | an annotated entity member with join paths is non-null in a successful conversion and its traversal's calls are all made |
| Conversion.FieldsOfContains | src/play/modules/search/store/DocumentBuilder.java:15-29 | each non-null call contributes a field with its name, value and flags |
| Conversion.ToDocumentCarriesDirectMembers | src/play/modules/search/store/ConvertionUtils.java:35-63 | a converted document holds a field for every such member whose value is not null, with the member's name, value and annotation flags |
| Registry.OpenWriter | src/play/modules/search/store/FilesystemStore.java:119-136 | a cached writer is kept. Otherwise the directory is created if missing, the lock is taken and a writer over the committed documents is cached. The contents are unchanged and well-formedness is kept |
| Registry.OpenWriterIdempotent | src/play/modules/search/store/FilesystemStore.java:119-136 | a second `getIndexWriter` changes nothing |
| Registry.GetIndexSearcher | src/play/modules/search/store/FilesystemStore.java:83-98 | a cached searcher is kept, and a new one sees the committed documents. The older stores fail exactly on a missing index. The current store creates a missing index through its writer; it can fail only when a writer is cached for a missing directory, which a well-formed registry never has |
| Registry.GetIndexSearcherIdempotent | src/play/modules/search/FilesystemStore.java:71-87 | a second call returns the cached searcher unchanged |
| Registry.DirtyReader | src/play/modules/search/FilesystemStore.java:94-107 | nothing changes without a cached searcher. The current store evicts it. The older stores replace it in place by one over the committed documents |
| Registry.Refresh | src/play/modules/search/store/FilesystemStore.java:105-117 | after a flush and a reader refresh, the directory holds the writer's view, the writer's buffer is empty, and a cached searcher sees the new contents |
| Registry.Flush | src/play/modules/search/store/FilesystemStore.java:70 | a flush commits the writer's view to the directory, empties its buffer and leaves cached searchers on their older view |
| Registry.HandlesKeepWf | src/play/modules/search/Search.java:117-153 | obtaining and refreshing searchers keeps every handle on an existing directory |
| Registry.Put | src/play/modules/search/store/FilesystemStore.java:67-76 | the index's contents become delete-then-add of the key. In synchronous mode, and in the current store's asynchronous mode once the buffer exceeds 48 MiB, they are committed, the buffer emptied and, in the current store, the searcher evicted. Otherwise no directory or searcher changes and the buffer grows by the document. No searcher is added |
| Registry.Index | src/play/modules/search/store/FilesystemStore.java:57-81 | an object that is not a JPA entity changes nothing. Otherwise the call fails exactly when mapping it to a document fails |
| Registry.IndexByClass | src/play/modules/search/Search.java:95-115 | the older stores index under the object's class name. An object that is not a JPA entity changes nothing; otherwise the call fails exactly when mapping it to a document fails |
| Registry.IndexUpserts | src/play/modules/search/store/FilesystemStore.java:57-81 | `index` is an upsert: afterwards exactly one document carries the key |
| Registry.IndexTwiceAsOnce | src/play/modules/search/FilesystemStore.java:49-69 | indexing the same object twice leaves the index as indexing it once |
| Registry.SyncIndexVisible | src/play/modules/search/store/FilesystemStore.java:69-76 | in synchronous mode the write is committed, and a searcher obtained afterwards finds exactly one document with the key |
| Registry.AsyncIndexDefers | src/play/modules/search/FilesystemStore.java:62-65 | in asynchronous mode, below the current store's threshold or in an older store, `index` into an existing index commits and refreshes nothing |
| Registry.AsyncIndexFlushesPastThreshold | src/play/modules/search/store/FilesystemStore.java:72-76 | in the current store's asynchronous mode a write that takes the buffer past 48 MiB is committed, the searcher evicted, and a searcher obtained afterwards finds exactly one document with the key |
| Registry.IndexFrame | src/play/modules/search/store/FilesystemStore.java:57-81 | `index` touches no other index, adds no searcher and keeps the registry well formed |
| Registry.UnIndex | src/play/modules/search/store/FilesystemStore.java:39-55 | an object that is not an indexed JPA entity changes nothing. Otherwise the call fails exactly when its id cannot be read |
| Registry.UnIndexRemoves | src/play/modules/search/Search.java:77-93 | every document with the key is removed from the index named after the class, and no other index changes |
| Registry.SyncUnIndexVisible | src/play/modules/search/store/FilesystemStore.java:47-51 | in synchronous mode the delete is committed, and a searcher obtained afterwards finds no document with the key |
| Registry.AsyncUnIndexDefers | src/play/modules/search/store/FilesystemStore.java:48-51 | in asynchronous mode `unIndex` of an existing index commits and refreshes nothing |
| Registry.UpsertLeavesOne | src/play/modules/search/Search.java:108-109 | after delete-then-add exactly one document carries the key |
| Registry.UpsertIdempotent | src/play/modules/search/Search.java:108-109 | delete-then-add of the same document twice equals doing it once |
| Registry.RemoveId | src/play/modules/search/store/FilesystemStore.java:47 | the delete by key removes every document with the key and keeps every other one |
| Registry.RemoveIdLength | src/play/modules/search/store/FilesystemStore.java:47 | the delete drops exactly as many documents as a search for the key finds |
| Registry.RemoveIdMultiset | src/play/modules/search/store/FilesystemStore.java:47 | every other document is kept as often as it occurred, and no copy of one with the key remains |
| Maintenance.Stop | src/play/modules/search/FilesystemStore.java:155-164 | every writer is closed (committing its buffer into its directory, releasing its lock) and both caches are emptied. No directory is created or removed. Every index's contents are unchanged, except a writer's whose directory had gone, whose buffer is lost; a well-formed registry has none |
| Maintenance.CloseWriter | src/play/modules/search/store/FilesystemStore.java:179-188 | closing a writer commits its buffer, releases its lock and touches no other index |
| Maintenance.Delete | src/play/modules/search/store/FilesystemStore.java:227-246 | the index's searcher, writer, lock and directory are gone afterwards, and nothing else changes |
| Maintenance.HasIndexLifecycle | src/play/modules/search/store/FilesystemStore.java:262-264 | an index exists once a writer is opened on a well-formed registry and not after `delete`. The current store's searcher creates a missing index, while the older stores' searcher succeeds exactly when the index exists |
| Maintenance.DeleteFrame | src/play/modules/search/store/FilesystemStore.java:227-246 | deleting one index leaves every other index as it was |
| Maintenance.DeleteAll | src/play/modules/search/store/FilesystemStore.java:248-260 | no directory remains. Exactly the handles and locks of the deleted directories are gone, and well-formedness is kept |
| Maintenance.Optimize | src/play/modules/search/store/FilesystemStore.java:190-197 | the contents are committed unchanged, and a cached searcher sees them |
| Maintenance.Reopen | src/play/modules/search/store/FilesystemStore.java:223-225 | an explicit reader refresh succeeds on a well-formed registry, and a remaining cached searcher sees the committed contents |
| Maintenance.IndexInto | src/play/modules/search/store/FilesystemStore.java:205-207 | indexing every record into one index fails exactly when mapping some record fails |
| Maintenance.IndexIntoContents | src/play/modules/search/store/FilesystemStore.java:205-207 | indexing every record upserts their documents in order, touches no other index and adds no searcher |
| Maintenance.IndexClass | src/play/modules/search/store/FilesystemStore.java:148-150 | indexing one class's records fails exactly when mapping one of them fails, in every store |
| Maintenance.IndexClasses | src/play/modules/search/store/FilesystemStore.java:143-151 | indexing every class fails exactly when some record of some class cannot be mapped |
| Maintenance.LegacyClassIsInto | src/play/modules/search/Search.java:180-186 | the static variant indexes each record under its own class name, which for a class's own instances is the same as streaming them into the class's index |
| Maintenance.IndexClassesContents | src/play/modules/search/store/FilesystemStore.java:143-151 | re-indexing class after class gives each class's index its records upserted in order, leaving other indexes alone. In the older stores this holds when each class's records are its own instances |
| Maintenance.RebuildAllContents | src/play/modules/search/store/FilesystemStore.java:138-153 | after a full re-index no searcher is cached, and each class's index holds exactly its mapped records. This holds in every store, for the older ones when each class's records are its own instances |
| Maintenance.RebuildAll | src/play/modules/search/Search.java:174-188 | a full re-index fails exactly when some record of some class cannot be mapped, whatever the indexes held before |
| Maintenance.WipedEmpty | src/play/modules/search/store/FilesystemStore.java:139-143 | after shutting down and wiping the root no index holds anything and no handle is cached |
| Maintenance.Wipe | src/play/modules/search/store/FilesystemStore.java:140-143 | deleting and recreating the root leaves no directory and no lock |
| Maintenance.Swap | src/play/modules/search/store/FilesystemStore.java:216-217 | the live directory takes the shadow's contents and the shadow directory disappears, with its lock |
| Maintenance.RebuildLeavesLiveWhileBuilding | src/play/modules/search/store/FilesystemStore.java:205-207 | building the shadow index leaves the live index's directory and handles untouched |
| Maintenance.PrepareSwapState | src/play/modules/search/store/FilesystemStore.java:199-215 | before the swap the shadow holds exactly the records read, committed, and the live index holds no handle or lock |
| Maintenance.RebuildReplacesLive | src/play/modules/search/store/FilesystemStore.java:199-221 | after a rebuild the live index holds exactly the records read, no handle or lock remains on either name, and the registry stays well formed |
| Maintenance.Rebuild | src/play/modules/search/store/FilesystemStore.java:199-221 | after a successful rebuild the live index exists, the shadow index does not, and no writer or searcher is cached for the live name or writer for the shadow |
| Maintenance.RebuildFailsOnlyOnRecords | src/play/modules/search/store/FilesystemStore.java:199-221 | in a well-formed current store with a fresh suffix, a rebuild, as written or corrected, fails exactly when some record cannot be mapped |
| Maintenance.RebuildAsWrittenLeaksShadowWriter | src/play/modules/search/store/FilesystemStore.java:209-217 | the source's rebuild leaves a writer cached for the vanished shadow index and the shadow's lock on the live directory, so the registry is ill formed |
| Maintenance.RebuildAsWritten | src/play/modules/search/store/FilesystemStore.java:199-221 | after a successful rebuild as written the live index exists, the shadow index does not, and no writer or searcher is cached for the live name |
| Maintenance.ParseBoolean | src/play/modules/search/Search.java:47-62 | true exactly for `true` in any letter case |
| Maintenance.Start | src/play/modules/search/store/FilesystemStore.java:169-177 | the root is the configured path or `<app>/data/search/`; writes are synchronous unless `play.search.synch` is set to something other than `true` in any letter case; no index or handle changes |
| Maintenance.Init | src/play/modules/search/Search.java:47-62 | shuts down first, keeping every index's contents in a well-formed registry. The analyser, root path and write mode come from the configuration |
| Maintenance.InitDefaults | src/play/modules/search/Search.java:47-62 | with nothing configured: the standard analyser, `<app>/data/search/`, synchronous writes |
| Queries.NewQuery | src/play/modules/search/Query.java:31-45 | a new query has offset 0, page size 10, no sort keys, reverse off and no cached hits |
| Queries.Page | src/play/modules/search/Query.java:47-51 | sets exactly the offset and the page size |
| Queries.All | src/play/modules/search/Query.java:53-56 | sets a non-positive page size and nothing else |
| Queries.Reverse | src/play/modules/search/Query.java:58-61 | turns reverse on and nothing else |
| Queries.OrderBy | src/play/modules/search/Query.java:63-69 | keeps the number and order of the names, appending `_untokenized` exactly to the forced-untokenized ones |
| Queries.SortKeyIsShadowField | src/play/modules/search/Query.java:63-69 | the key of a forced-untokenized field is the name of the untokenized shadow field the document builder adds |
| Queries.GetSort | src/play/modules/search/Query.java:71-83 | relevance exactly without sort keys. Fails exactly for reverse with more than one key. Otherwise it sorts by the keys, descending exactly when reverse is on |
| Queries.ReverseWithoutKeysIgnored | src/play/modules/search/Query.java:72-73 | without sort keys the order is relevance, reversed or not |
| Queries.PageWindow | src/play/modules/search/Query.java:150-167 | the window lies within the hits. An offset past the end gives an empty window whatever the page size. Reading fails exactly for a negative offset with a positive page size, at that offset |
| Queries.WindowAsWritten | src/play/modules/search/Query.java:150-167 | the source's window lies within the hits, and an offset past the end gives an empty window |
| Queries.PageWindowReadsPage | src/play/modules/search/Query.java:155-167 | a positive page size within the hits reads `min(pageSize, total - offset)` hits from the offset |
| Queries.PagesTile | src/play/modules/search/Query.java:155-167 | consecutive pages meet: the next page starts where this one ends |
| Queries.AllReadsEverything | src/play/modules/search/Query.java:150-153 | with a non-positive page size every hit is read from index 0, unless the offset lies past the end |
| Queries.WindowAsWrittenAgrees | src/play/modules/search/Query.java:156 | wherever `offset + pageSize` fits in an `int`, the source's window is the intended one |
| Queries.WindowOverflowLosesHits | src/play/modules/search/Query.java:156 | `page(1, Integer.MAX_VALUE)` over 10 hits reads nothing as written, where hits 1 to 9 were meant |
| Queries.HitOf | src/play/modules/search/Query.java:158-166 | a hit yields its key. When loading, it fails exactly when the class has no `@Id` field, the key is missing or no entity has it |
| Queries.CollectedSpec | src/play/modules/search/Query.java:155-181 | collecting fails exactly when loading is asked for and some hit cannot be loaded. Otherwise there is one result per hit, in order, with its key and entity |
| Queries.CollectWindow | src/play/modules/search/Query.java:155-167 | the result loop over a window computes the reference collection of that window's hits, aborting at the first failure |
| Queries.Search | src/play/modules/search/Query.java:139-145 | a parse failure, and only that, is a `SearchException`. The searcher is obtained before the sort is built. On success the hits are the engine's answer over the searcher's documents and are cached |
| Queries.ExecuteQuery | src/play/modules/search/Query.java:137-188 | cached hits are reused without touching the registry. Without them the registry and query afterwards are those of a fresh search. Success leaves hits cached. A `SearchException` arises exactly from a parse failure during a search |
| Queries.CachedHitsIgnoreEngine | src/play/modules/search/Query.java:139-145 | once hits are cached, the result depends on neither the engine nor the registry |
| Queries.ExecuteQueryPage | src/play/modules/search/Query.java:150-181 | over cached hits the result is one entry per hit of the page, in hit order; an offset past the end gives an empty page. It fails exactly when loading is asked for and one of them cannot be loaded |
| Queries.ExecuteQueryPastEnd | src/play/modules/search/Query.java:150-153 | an offset past the end of cached hits yields an empty result, whatever the page size |
| Queries.ExecuteQueryNegativeOffset | src/play/modules/search/Query.java:155-158 | a negative offset with a positive page size reads a hit before the first and fails |
| Queries.ExecuteQuerySearchesFirst | src/play/modules/search/Query.java:139-145 | without cached hits the call equals the same call on the freshly searched query, whose hits are cached; a failed search ends the call with its failure |
| Queries.CollectedIgnoresHits | src/play/modules/search/Query.java:155-181 | collecting results does not depend on the cached hits |
| Queries.Count | src/play/modules/search/Query.java:118-128 | always searches anew, ignoring cached hits: the registry and outcome are those of a fresh search, and the count is the number of hits the engine finds over the searcher's documents, which are cached. On failure the query is unchanged |
| Queries.CountIgnoresCache | src/play/modules/search/Query.java:118-128 | the result of `count()` does not depend on the cached hits |
| Queries.CountThenAll | src/play/modules/search/Query.java:118-181 | after `count()` returned n, `all()` on that query returns n results, one per cached hit, without searching again |
| Queries.FetchLoadsPage | src/play/modules/search/Query.java:92-103 | `fetch()` returns the entities of the page's hits in order, and fails exactly when one cannot be loaded |
| Queries.Fetch | src/play/modules/search/Query.java:92-103 | every failure, a parse failure included, is an `UnexpectedException` |
| Queries.ParseLong | src/play/modules/search/Query.java:105-116 | a parsed value lies within the range of a `long` |
| Queries.ParseLongText | src/play/modules/search/Query.java:110 | a `Long` written as text reads back as the same value |
| Queries.ParsedIds | src/play/modules/search/Query.java:109-111 | fails exactly when some key does not parse; otherwise the values are each key's parse, in order |
| Queries.FetchIds | src/play/modules/search/Query.java:105-116 | every failure is an `UnexpectedException`, and every id lies within the range of a `long` |
| Queries.FetchIdsOfModels | src/play/modules/search/Query.java:105-116 | for hits keyed by `Model` ids, `fetchIds()` returns exactly those ids for the page |
| Mime.LastIndexOf | src/play/modules/search/store/mime/ExtensionGuesser.java:18 | the index of the last occurrence, or -1 when there is none |
| Mime.Extension | src/play/modules/search/store/mime/ExtensionGuesser.java:18 | the extension has no dot, is a suffix of the name, and is preceded by a dot unless it is the whole name |
| Mime.ExtensionOfJoin | src/play/modules/search/store/mime/ExtensionGuesser.java:18 | the extension of `stem.ext` is `ext` for any dot-free `ext` |
| Mime.Guess | src/play/modules/search/store/mime/ExtensionGuesser.java:14-20 | no type for a missing file or file name. `application/pdf` exactly when the extension is `pdf`, and no other type |
| Mime.GuessPdf | src/play/modules/search/store/mime/ExtensionGuesser.java:11 | any `<stem>.pdf` is `application/pdf` |
| Mime.GuessIsCaseSensitive | src/play/modules/search/store/mime/ExtensionGuesser.java:19 | `x.PDF` has no type |
| Mime.GuessTrailingDot | src/play/modules/search/store/mime/ExtensionGuesser.java:19 | a name ending in a dot has no type |
| Mime.GuessWholeName | src/play/modules/search/store/mime/ExtensionGuesser.java:18 | a dot-free name is looked up whole |

## Left out

- Lucene itself is not modelled:
  - the query grammar and its parsing are an opaque predicate;
  - hit ranking and the sort's effect on order are the engine parameter;
  - scoring (a float), `Hits` and segment merging by `optimize` are left out;
  - `BooleanQuery.setMaxClauseCount` is left out.
- Filesystem failures are not modelled: an `IOException` from opening, flushing, closing or deleting a directory, a failed `renameTo`, and a failed lock deletion. Directory operations always succeed.
- The UUID of `rebuild` is a parameter. It is assumed non-empty, as a UUID string always is.
- On an exception, the registry is modelled as unchanged by a failed `index`/`unIndex` call. In the source, a writer opened before the failure stays cached.
- The write-buffer size is abstracted as the text length of a document's fields (`Footprint`). Lucene's RAM accounting is not modelled. Only the 48 MiB threshold comparison is kept.
- `Binder.directBind`, which converts a key to the id field's type, is folded into the loader function.
- `Long.parseLong` accepts ASCII digits only. Java also accepts other Unicode decimal digits.
- `listIndexes` is not modelled: it only reports directory sizes and an `optimized` flag that Lucene computes.
- Text extraction (`FileExtractor`, the extractor plugins) is an opaque function from attachment to text.
- Concurrency is not modelled, including the unsynchronised swap window in `rebuild`.
- Logging is not modelled.
- The HTTP controllers, the plugin lifecycle and the re-index job are not part of this model.
- The analyser is a configuration string. Tokenization is not modelled.
- Queries.ExecuteQuery: uses the corrected page window (see Findings). `Hits.length()` and the loop index are not limited to an `int`.
- Maintenance.RebuildAllContents: for the older stores it is proved only when each class's records are instances of that class itself. A subclass instance returned by the class's query is indexed under the subclass's name, so the class's index does not hold it.
- Maintenance.RebuildAll: on failure only the error is returned. In the source the writers are already closed, the root already wiped and the earlier classes already indexed.
- Maintenance.Rebuild: on failure only the error is returned. In the source the records indexed so far stay in the shadow directory, and the live handles may already be closed.
- Maintenance.RebuildAsWritten: on failure only the error is returned, as for `Rebuild`.
- Maintenance.Stop: a writer whose directory has gone commits nowhere, and its buffer is lost. What Lucene does when closing such a writer is not modelled; it may throw an `IOException` and abort `stop`. A well-formed registry has no such writer.
- Queries.AllReadsEverything: with `all()` the offset is not ignored in every case. An offset past the number of hits still yields nothing, because the check at `Query.java:150-153` runs first.

## Findings

| source | as written | input that shows it | evidently intended | confidence | as-written member | corrected member |
|---|---|---|---|---|---|---|
| src/play/modules/search/Query.java:156 | the page end `offset + pageSize` is computed in `int` and wraps around | `page(1, Integer.MAX_VALUE)` over 10 hits: the end wraps to a negative number and the page is empty | hits 1 to 9, the rest of the hits after the offset | not executed | Queries.WindowAsWritten, Queries.WindowOverflowLosesHits | Queries.PageWindow, Queries.PageWindowReadsPage |
| src/play/modules/search/store/FilesystemStore.java:209-217 | `rebuild` flushes the shadow's writer but never closes it or removes it from the cache, then renames the shadow directory into the live one | any rebuild: afterwards a writer is cached under `name+uuid`, whose directory no longer exists, and its lock sits in the live directory with no writer for the live name | the shadow's writer closed and evicted before the swap, leaving the live index unlocked and handle-free | not executed | Maintenance.RebuildAsWritten, Maintenance.RebuildAsWrittenLeaksShadowWriter | Maintenance.Rebuild, Maintenance.RebuildReplacesLive |
