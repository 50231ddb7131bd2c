# fast-corpora-indexer: the indexing pipeline of `IndexProcessor`

This project models the per-document pipeline of the corpus indexer. Each
subdirectory of a corpus holds a `doc.json` metadata file and a `morph.xml`
annotated text. For each subdirectory, the indexer:

1. loads the metadata, puts the path of `morph.xml` under `text_data`, and
   applies the schema's copy fields;
2. builds a Lucene document from the schema's fields;
3. adds the document to the index writer, counts it, and commits every
   `commitFrequency` documents.

When the listing is done, the index is committed once more, merged down to 16
segments and closed.

The modules follow the pipeline:

- `Failures`: `Option`, `Result`, and the exceptions that end a run.
- `Metadata`: the values of a parsed `doc.json`, including an explicit `Null`.
- `IndexSchema`: the resolved Solr schema, as its field list and its copy-field table.
- `Loader`: `loadMetadataJson`. `LoadMetadata` is a method whose loops mutate the map. It is proved equal to the function `Loaded`, and the copy-field properties are lemmas about `Loaded`.
- `Builder`: `createLuceneDocument`. `CreateDocument` is a method with a loop over the schema fields. It is proved equal to the function `Build`, and the routing properties are lemmas about `Build`.
- `Writer`: the Lucene `IndexWriter`. It is a class whose only state is a log of the calls made on it (add, commit, merge, close) and its open flag.
- `Processor`: the `IndexProcessor` class, with the writer, the listing, the schema, the commit frequency and the counter. Its methods are proved against `Step` (one subdirectory) and `Run` (the listing in order, stopping at the first exception). The cadence properties are lemmas about `Run`.
- `CorporaIndex`: the sequential path of `indexCorpora`. It processes the listing unless only optimizing, then finalizes and closes. `ThreeDocumentScenario` runs a three-directory example through it.

How the code's edge cases are modelled:

- A commit frequency of zero is not excluded. As in the code, the first document is added and counted, and then the remainder by zero throws. This is modelled as `Fail(DivisionByZero)`.
- A negative frequency commits on multiples of its absolute value, since the counter is never negative.
- A copy rule whose source is absent stores `null`. A later `toString()` on that value is modelled as the `NullValue` error.
- The type switch runs before the value is converted, so an unknown type wins over a null value.
- An exception in one subdirectory ends the run. `optimizeAndCloseIndex` is then skipped, and `close()` closes the writer.

## Model

| member | source | states |
|---|---|---|
| Loader.LoadMetadata | src/main/java/pl/ipipan/fastcorporaindexer/IndexProcessor.java:69-79 | Gives `LoadError` when `doc.json` is unavailable. Otherwise it gives `doc.json` with `text_data` put in, then every copy rule applied in table order; each rule reads its source once and writes that value under every destination. |
| Loader.LoadedContentPath | src/main/java/pl/ipipan/fastcorporaindexer/IndexProcessor.java:73 | Unless a copy rule writes into `text_data`, it holds the directory path joined with `morph.xml`, even when `doc.json` had its own `text_data`. |
| Loader.LoadedKeys | src/main/java/pl/ipipan/fastcorporaindexer/IndexProcessor.java:72-77 | The loaded keys are exactly `doc.json`'s keys, `text_data` and every copy destination. A destination is added even when its source is absent. |
| Loader.LoadedKeepsJsonValue | src/main/java/pl/ipipan/fastcorporaindexer/IndexProcessor.java:72-77 | A `doc.json` key that is neither `text_data` nor a copy destination keeps its parsed value. |
| Loader.LoadedCopy | src/main/java/pl/ipipan/fastcorporaindexer/IndexProcessor.java:73-77 | Take a destination last written by rule i, when no earlier rule wrote rule i's source. It holds the source's value: the content path for `text_data`, the `doc.json` value otherwise, and null when `doc.json` lacks the source. |
| Loader.LastCopyWins | src/main/java/pl/ipipan/fastcorporaindexer/IndexProcessor.java:74-76 | The last rule naming a destination decides its value, which is that rule's source value as it stood when the rule ran. Later rules overwrite earlier ones. |
| Loader.CopyOfUntouchedSource | src/main/java/pl/ipipan/fastcorporaindexer/IndexProcessor.java:74-76 | When no earlier rule wrote rule i's source, its last destinations hold the source's value from before any rule ran (null if absent). |
| Loader.AppliedKeys | src/main/java/pl/ipipan/fastcorporaindexer/IndexProcessor.java:74-76 | Applying the copy rules adds exactly the destination keys and removes none. |
| Loader.AppliedUntouched | src/main/java/pl/ipipan/fastcorporaindexer/IndexProcessor.java:74-76 | A key no rule writes into keeps its presence and its value. |
| Builder.CreateDocument | src/main/java/pl/ipipan/fastcorporaindexer/IndexProcessor.java:81-100 | The loop over the schema fields yields exactly `Build`. That is the records of the emitted fields in schema order, or the exception of the first field that throws. |
| Builder.BuildErrorPersists | src/main/java/pl/ipipan/fastcorporaindexer/IndexProcessor.java:83-98 | Once a prefix of the schema throws, the whole walk throws the same exception. |
| Builder.BuildSucceedsIff | src/main/java/pl/ipipan/fastcorporaindexer/IndexProcessor.java:84-96 | Building succeeds iff every field that is not skipped, is indexed and is present has a known type and a non-null value. Unknown types on unindexed or absent fields never throw. |
| Builder.BuildFailsAtFirstBadField | src/main/java/pl/ipipan/fastcorporaindexer/IndexProcessor.java:89-95 | A failed build failed at the first emitted field that is not buildable. The error is `UnknownType` with its type name if the type is unknown, and `NullValue` otherwise. |
| Builder.BuildFollowsSchema | src/main/java/pl/ipipan/fastcorporaindexer/IndexProcessor.java:83-96 | There is one record per emitted field, in schema order. Each carries the field's name and its kind (`string` gives exact; `text`/`mtas` give analyzed). It also carries the value's string form and the field's stored flag. |
| Builder.NoRecordForExcludedField | src/main/java/pl/ipipan/fastcorporaindexer/IndexProcessor.java:84-88 | No record is named `_version_`, and none is named after an `int` or `long` field, whatever its flags. |
| Builder.RecordIffEmitted | src/main/java/pl/ipipan/fastcorporaindexer/IndexProcessor.java:89 | A schema field has a record iff it is not skipped, it is indexed, and the metadata contains its name (both directions). |
| Builder.RecordPairOrdered | src/main/java/pl/ipipan/fastcorporaindexer/IndexProcessor.java:83 | Of any two records, the earlier one comes from an earlier schema field, and the two are named differently. |
| Builder.RecordsOrderedAndUnique | src/main/java/pl/ipipan/fastcorporaindexer/IndexProcessor.java:83-89 | Records follow schema iteration order, and there is at most one record per schema field. |
| Writer.FinishingCounts | src/main/java/pl/ipipan/fastcorporaindexer/IndexProcessor.java:104-107 | A commit, a merge request and a close add one of each to the writer's counts and add no document. |
| Writer.IndexWriter.constructor | src/main/java/pl/ipipan/fastcorporaindexer/CreateCorporaIndex.java:84 | A new writer has an empty log and is open. |
| Writer.IndexWriter.AddDocument | src/main/java/pl/ipipan/fastcorporaindexer/IndexProcessor.java:60 | Appends the document to the writer's log; the writer stays open. |
| Writer.IndexWriter.Commit | src/main/java/pl/ipipan/fastcorporaindexer/IndexProcessor.java:62 | Appends a commit to the log; the writer stays open. |
| Writer.IndexWriter.ForceMerge | src/main/java/pl/ipipan/fastcorporaindexer/IndexProcessor.java:106 | Appends a merge request with the given segment target. |
| Writer.IndexWriter.Close | src/main/java/pl/ipipan/fastcorporaindexer/IndexProcessor.java:115 | Appends a close and leaves the writer closed. |
| Processor.CommitTestIsRemainder | src/main/java/pl/ipipan/fastcorporaindexer/IndexProcessor.java:61 | For a non-negative counter, "a multiple of the frequency's absolute value" is exactly Java's `count % commitFrequency == 0`, for either sign of the frequency. |
| Processor.StepAddsOneDocument | src/main/java/pl/ipipan/fastcorporaindexer/IndexProcessor.java:58-61 | Take a subdirectory that yields a document, under a non-zero frequency. Processing it keeps the run going and appends exactly that document. It raises the counter by exactly one and keeps the earlier log as a prefix. |
| Processor.StepCommitsOnMultiples | src/main/java/pl/ipipan/fastcorporaindexer/IndexProcessor.java:61-63 | That step commits once iff the new count is a multiple of the frequency's absolute value, and otherwise does not commit. |
| Processor.StepKeepsMergesAndCloses | src/main/java/pl/ipipan/fastcorporaindexer/IndexProcessor.java:54-67 | Processing one subdirectory never merges or closes the writer. |
| Processor.ZeroFrequencyFailsAfterFirstDocument | src/main/java/pl/ipipan/fastcorporaindexer/IndexProcessor.java:60-61 | With a frequency of zero, the first document is added and counted, and then the remainder by zero ends the run. |
| Processor.RunFailurePersists | src/main/java/pl/ipipan/fastcorporaindexer/IndexProcessor.java:50-52 | Once a prefix of the listing fails, the remaining subdirectories are not processed. |
| Processor.RunStopsAtFirstFailure | src/main/java/pl/ipipan/fastcorporaindexer/IndexProcessor.java:50-67 | Under a non-zero frequency, take the first subdirectory that fails to load or build. The run ends with its exception, after the documents before it and nothing more, with the counter at the number of documents before it. |
| Processor.RunAddsEveryDocument | src/main/java/pl/ipipan/fastcorporaindexer/IndexProcessor.java:50-61 | When every subdirectory yields a document and the frequency is non-zero, the run passes. It adds exactly those documents, in listing order, and the counter rises by their number. |
| Processor.RunCadence | src/main/java/pl/ipipan/fastcorporaindexer/IndexProcessor.java:61-63 | Under the same conditions, the commits the run adds are as many as the multiples of \|F\| in (c, c + D], where c is the starting count and D the number of documents. |
| Processor.RunCommits | src/main/java/pl/ipipan/fastcorporaindexer/IndexProcessor.java:61-63 | When every subdirectory yields a document and the frequency is non-zero, the run adds (c + D) / \|F\| - c / \|F\| commits, where c is the starting count, D the number of documents and F the frequency. From a fresh writer and a zero counter, that is D / \|F\| commits. |
| Processor.RunKeepsMergesAndCloses | src/main/java/pl/ipipan/fastcorporaindexer/IndexProcessor.java:50-67 | Processing the listing never merges or closes the writer. |
| Processor.IndexProcessor.constructor | src/main/java/pl/ipipan/fastcorporaindexer/IndexProcessor.java:31-42 | Keeps the writer, the listing, the schema and the frequency. The counter starts at zero and the listing is open. |
| Processor.IndexProcessor.ProcessCorporaSubdirectory | src/main/java/pl/ipipan/fastcorporaindexer/IndexProcessor.java:54-67 | Load, build, add, count and maybe commit. The new writer log, counter and outcome are exactly `Step` of the old ones, and the counter keeps matching the documents this processor added. |
| Processor.IndexProcessor.ProcessSequentially | src/main/java/pl/ipipan/fastcorporaindexer/IndexProcessor.java:50-52 | The loop over the listing leaves the writer log, the counter and the outcome exactly as `Run` gives them, stopping at the first exception. |
| Processor.IndexProcessor.OptimizeAndCloseIndex | src/main/java/pl/ipipan/fastcorporaindexer/IndexProcessor.java:102-109 | Appends exactly one commit, one merge request to the target and one close, even when no document was added, and leaves the writer closed. |
| Processor.IndexProcessor.Close | src/main/java/pl/ipipan/fastcorporaindexer/IndexProcessor.java:111-117 | Closes the listing. It closes the writer only if the writer is still open, so after `OptimizeAndCloseIndex` the log is unchanged. |
| Processor.IndexProcessor.GetIndexedFilesCount | src/main/java/pl/ipipan/fastcorporaindexer/IndexProcessor.java:119-121 | Returns the counter, which equals the number of documents this processor added to the writer. |
| CorporaIndex.IndexCorpora | src/main/java/pl/ipipan/fastcorporaindexer/CreateCorporaIndex.java:53-64 | The writer log is the run's log, then a commit and a merge to 16 only when the run passed, then one close; only-optimize runs nothing. When every subdirectory builds and the frequency is non-zero, the count is the listing length, every document is added in order, and there are D / \|F\| + 1 commits, one merge and one close. |
| CorporaIndex.CompletedRun | src/main/java/pl/ipipan/fastcorporaindexer/IndexProcessor.java:102-107 | Under a non-zero frequency, a run that builds throughout, followed by finalizing, has D / \|F\| + 1 commits, one merge, one close and exactly the listing's documents. |
| CorporaIndex.ThreeDocumentRun | src/main/java/pl/ipipan/fastcorporaindexer/IndexProcessor.java:58-63 | With a commit every two documents, three documents give the log add, add, commit, add: the commit falls right after the second document, and the counter ends at three. |
| CorporaIndex.TitledDirectoriesBuild | src/main/java/pl/ipipan/fastcorporaindexer/IndexProcessor.java:89-94 | Directories whose `doc.json` is `{"title": "T"}` all build under a schema with an exact `title` field and an analyzed `text_data` field. |

## Left out

- `processInParallel` and the atomicity of the shared counter are not modelled. Only the sequential path is, because the parallel path's point is concurrency.
- Processor.IndexProcessor.ProcessCorporaSubdirectory: the counter is an unbounded `nat`. The 32-bit wrap-around of Java's `AtomicInteger` after 2^31 - 1 documents is not modelled, and neither is the commit pattern of a wrapped, negative counter.
- Processor.Step: the same holds; the commit test assumes the counter never wraps.
- Processor.RunAddsEveryDocument: it does not itself state that the earlier log stays a prefix. `StepAddsOneDocument` states that for each step.
- File reading and JSON parsing of `doc.json` are left out, as I/O. The parsed object enters the model as an `Option<Metadata>`, with `None` standing for any `IOException` or parse error, which the code rethrows as a `RuntimeException`.
- The `toString()` text of numbers, arrays and objects is Jackson's and Java's formatting. It is carried as given in the value rather than computed.
- Directory listing (`Files.list` filtered to directories) is left out. The listing enters as a sequence in its iteration order. The single-use `Stream` is only a closed flag.
- `toAbsolutePath` and path resolution are left out. The subdirectory's path is taken as absolute, and the content path is that path, `/`, then `morph.xml`.
- Progress printing, timing (`Instant`, `Duration`, `getStart`) and the final report line are left out: they have no stated contract.
- Processor.IndexProcessor.ProcessCorporaSubdirectory: a writer call that fails is not modelled. In the code, `addDocument` and `commit` can throw an `IOException`, which is rethrown as a `RuntimeException` and ends the run. A failed add leaves the counter unchanged. A failed commit comes after the counter was already raised. The model has no I/O error case: every add and commit succeeds.
- Processor.IndexProcessor.OptimizeAndCloseIndex: a failing `commit` or `forceMerge` is not modelled, nor is the close that try-with-resources still performs after such a failure. The model always appends the commit, the merge request and the close.
- Lucene internals are left out: analyzers, the RAM buffer, the codec, segments and what merging does on disk. The writer is a log of calls.
- Writer calls on a closed writer are not modelled. The writer's methods require it open, and the processor never makes such a call. Lucene would throw `AlreadyClosedException`.
- Lucene's rejection of `forceMerge` with a target below one is not modelled. The only caller passes 16.
- Solr schema loading and analyzer construction in `CreateCorporaIndex.java`, and the command line in `FastCorporaIndexer.java`, are not part of this model. The schema enters already resolved: its fields in iteration order with distinct names, and its copy-field table in iteration order.
- Closing the Lucene directory at the end of `indexCorpora` is not modelled, since it is outside the writer.
