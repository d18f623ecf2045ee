# ragsaas backend: chunking, retrieval and report parsing in Dafny

This project models the data-shaping and ranking logic of the ragsaas backend (`backend/server.py`). That backend is a retrieval-augmented question-answering service over uploaded Excel and JSON files. The model takes the network, database, embedding and chat-model calls out and leaves these parts:

- **Upload dispatch** (`upload_document`). The file type comes from the lower-cased text after the last dot of the file name. The bytes go to the matching chunk builder. A file that yields no chunk is refused.
- **Chunk serialiser** (`process_excel_file`, `process_json_file`). Each record, meaning an Excel row or a JSON object, becomes one text chunk `"k1: v1 | k2: v2 | ..."`. Missing Excel cells are dropped. A JSON value that is not an object becomes its `str()`.
- **Similarity selection** (`similarity_search`). The chunks are ranked by similarity, best first. The first `top_k` are kept, and of those only the ones scoring strictly above 0.1.
- **Cross-document merge** (`rag_query`):
  - Each processed document gives at most 3 selected chunks, tagged with its filename.
  - Each contributing filename is recorded once, in first-contribution order.
  - All results are stably sorted by score and the first 5 are kept.
  - With nothing kept, the fixed apology (Indonesian or English) is returned with empty sources and context.
  - A whitespace-only query is refused, and so is a user with no processed documents.
- **Report parser** (`generate_report`). Every context chunk that contains a `|` is split on `" | "`. Every piece with a `:` is split at its first colon and both halves are stripped. The pieces fill a dict in which a later key overwrites an earlier one. Non-empty dicts become table rows. With no row at all, a single summary row is used instead.

Module layout:

| file | module | contents |
|---|---|---|
| `wrappers.dfy` | `Wrappers` | `Option`, `Result`, `Min` |
| `seqs.dfy` | `Seqs` | `Distinct`, `Dedup` (a list with "append unless already present" semantics), `FirstIndex` |
| `text.dfy` | `Text` | Python string operations: `isspace`, `strip`, `in`, `split(sep)`, `join`, `split(c, 1)`, `lower`, `str(int)` |
| `chunks.dfy` | `Chunks` | the serialiser and the two chunk builders |
| `retrieval.dfy` | `Retrieval` | ranking, `similarity_search`, the merge, the empty-query guard and the `rag_query` outcome |
| `report.dfy` | `Report` | the chunk parser, its round trip with the serialiser, and the `generate_report` outcome |
| `upload.dfy` | `Upload` | the extension dispatch and the `upload_document` outcome |

Similarity scores are given as `real` values, one per chunk. `np.argsort` does not fix the order of equal scores, so every selection property is proved for any ranking satisfying `IsRanking`. That predicate requires every index exactly once, ordered by non-increasing score. `Ranking` is one such ranking, which breaks ties by ascending index. It makes the selection concrete, and the merged rag_query and generate_report outcomes are computed with it. `list.sort` is stable, and it is modelled as a stable insertion sort (`SortByScore`).

The loops of the source, and the endpoints that call them, are methods proved equal to specification functions. A row with no method is code without a loop, modelled by a function alone:

| source (backend/server.py) | method | specification function |
|---|---|---|
| similarity_search loop, 181-186 | `CollectRelevant` | `Pairs` and `Kept` |
| rag_query merge loop, 358-369 | `MergeResults` | `AllHits` and `Dedup(Names(...))` |
| loop over the pieces, 442-445 | `FillRow` | `ParsePairs` |
| loop over the context chunks, 437-447 | `BuildReportData` | `ReportRows` |
| process_json_file, process_excel_file | `ProcessJson`, `ProcessExcel` | `JsonChunks`, `ExcelChunks` |
| the join of the formatted entries, 140 and 157 | | `SerializeRecord` |
| the split at the first colon and the strips, 443-445 | | `ParsePair` |
| one context chunk, 439-446 | | `ParseChunk` |
| sort and top 5, 372-373 | | `SortByScore`, `TopResults` |
| rag_query outcome, 334-419 | `RagQuery` | `QueryResult` |
| generate_report outcome, 423-477 | `GenerateReport` | `ReportResult` |
| extension dispatch, 278-285 | | `FileKindOf` |
| upload_document outcome, 265-288 | `UploadDocument` | `UploadResult` |

The properties are lemmas about those functions.

**On the round trip.** The parser inverts the serialiser when all of these hold (`ParseSerializeRoundTrip`):

- The record has at least two entries.
- Keys are distinct.
- Keys hold no `:` and no `" | "`, and have no surrounding whitespace.
- Values hold no `" | "` and have no surrounding whitespace.
- Values neither begin nor end with `|`.

The last condition is needed:

- In `"a: | | b: c"`, the chunk of the record `[("a", "|"), ("b", "c")]`, the first `" | "` begins right after the colon.
- The first piece is therefore `"a:"`, and the second is `"| b: c"`.
- `PipeValueBreaksRoundTrip` proves, for every record of that shape, that the parser returns `[(a, ""), ("| " + b, c)]`. Both entries of the original record satisfy all the other conditions.
- The end half matters too. In `"a: x | | b: c"`, the chunk of `[("a", "x |"), ("b", "c")]`, the first `" | "` begins inside the value, at the space before its `|`.
- `TrailingPipeBreaksRoundTrip` proves that the parser then returns `[(a, "x"), ("| " + b, c)]`.
- The condition is sufficient, not necessary. Values such as `"x|"` or `"|x"` also come back unchanged. For every value except the last, the damage needs a value that is `"|"`, begins with `"| "` or ends with `" |"`. The last value may also be `"|"` or end with `" |"`, because no separator follows it. A last value beginning with `"| "` still breaks the round trip, since `"k: | y"` holds `" | "` right after the colon.

A second consequence of the code as written: `rag_query`'s `sources` lists every file that had a chunk selected for it, and `QuerySourcesFacts` states exactly this. That includes files none of whose chunks made it into the five context chunks.

## Model

| member | source | states |
|---|---|---|
| Chunks.SerializeLength | backend/server.py:157 | a record of n ≥ 1 entries serialises to its n formatted entries plus exactly n − 1 three-character separators |
| Chunks.JsonChunks | backend/server.py:153-165 | a top-level list gives the list itself as data and one chunk per item, in order (object → joined entries, other value → its text); a single value gives one chunk and `[value]` |
| Chunks.ProcessJson | backend/server.py:148-168 | a parse failure gives no chunk and no data; otherwise the loop returns exactly `JsonChunks` of the parsed document |
| Chunks.ExcelChunks | backend/server.py:138-143 | one chunk per row, in order: chunk i is the serialised present cells of row i |
| Chunks.ProcessExcel | backend/server.py:129-146 | a read failure gives no chunk and no data; otherwise the data are the rows and the loop returns exactly `ExcelChunks` of them |
| Chunks.PresentEntriesAppend | backend/server.py:140 | selecting the present cells distributes over concatenation, so column order is kept |
| Chunks.MissingCellInvisible | backend/server.py:140 | a missing cell contributes neither its column name nor a separator to the row's chunk |
| Chunks.PresentCellEntry | backend/server.py:140 | a present cell contributes exactly its own entry, at its column's place |
| Chunks.FullRowIsRecord | backend/server.py:140 | a row with no missing cell keeps every (column, text) entry in column order, and its chunk is the serialisation of exactly those entries |
| Retrieval.Ranking | backend/server.py:179 | the descending argsort lists every index exactly once, ordered by non-increasing score |
| Retrieval.Kept | backend/server.py:182-183 | the kept indices are exactly those among the given ones whose score is strictly above 0.1 |
| Retrieval.KeptOrder | backend/server.py:182-184 | filtering keeps the ranked order and introduces no repetition |
| Retrieval.SelectionFacts | backend/server.py:179-186 | for any ranking: at most top_k results, distinct indices, every score > 0.1, scores non-increasing, every top_k index above the threshold selected, no index outside the top_k outscores a selected one, results are `(chunks[i], score[i])` |
| Retrieval.CollectRelevant | backend/server.py:181-186 | the loop returns `(chunks[i], score[i])` for the top indices above the threshold, in ranked order |
| Retrieval.SimilaritySearch | backend/server.py:170-189 | at most top_k pairs, all scoring above 0.1, best first, equal to the selection under the ranking |
| Retrieval.DocumentHits | backend/server.py:359-367 | one document contributes at most 3 results to all_results |
| Retrieval.AppendDocumentResults | backend/server.py:366-369 | appends the document's results tagged with its filename; adds the filename to source_docs once it has a result, unless it is already there |
| Retrieval.MergeResults | backend/server.py:355-369 | all_results is every document's hits in document order; source_docs is the filenames of all_results with repetitions dropped |
| Retrieval.DedupNamesTag | backend/server.py:366-369 | appending one document's results adds its filename to the deduplicated name list exactly when it had a result and was not yet present |
| Retrieval.Contributors | backend/server.py:366-369 | a filename occurs among the merged results iff some document of that name had at least one chunk selected |
| Retrieval.HitsPerFilename | backend/server.py:358-367 | a filename occurs in all_results at most 3 times per stored document carrying that name |
| Retrieval.InsertHit | backend/server.py:372 | inserting into a score-sorted list keeps it sorted and lengthens it by one |
| Retrieval.InsertHitPerm | backend/server.py:372 | the insertion adds exactly the one element and keeps all others |
| Retrieval.InsertHitStable | backend/server.py:372 | the inserted hit goes after every hit of equal score, and the order among the others is kept |
| Retrieval.SortByScore | backend/server.py:372 | the sorted results are ordered by non-increasing score and are a permutation of the input |
| Retrieval.SortByScoreStable | backend/server.py:372 | the sort is stable: for every score, the hits with that score appear in their arrival order |
| Retrieval.TopResultsFacts | backend/server.py:372-373 | top_results has min(5, n) entries, sorted, drawn from all_results, and every result left out scores ≤ the last one kept |
| Retrieval.CheckQuery | backend/server.py:338-339 | the query is refused, with EmptyQuery, exactly when it strips to nothing |
| Retrieval.QueryRefusals | backend/server.py:338-345 | rag_query refuses exactly blank queries with EmptyQuery, and otherwise exactly an empty document list with NoProcessedDocuments |
| Retrieval.QueryContextFacts | backend/server.py:372-384 | an answered query has at most 5 context chunks; none exactly when no document had a hit, and then the apology with empty sources; otherwise the model's answer |
| Retrieval.QuerySourcesFacts | backend/server.py:366-369 | sources hold no duplicate, contain exactly the filenames with a selected chunk, and are in first-contribution order |
| Retrieval.RagQuery | backend/server.py:333-419 | the method computes the rag_query outcome stated by the lemmas above |
| Report.Put | backend/server.py:445 | after `row[k] = v`: k maps to v, other keys are unchanged, an existing key keeps its place, a new key goes last |
| Report.ParsePairsKeys | backend/server.py:442-445 | the row's columns are the stripped keys of the pieces with a colon, each once, in order of first appearance |
| Report.ParsePairsLastWins | backend/server.py:442-445 | a later piece with the same key overwrites an earlier one: each key holds the value of its last piece |
| Report.ParsePairsShape | backend/server.py:440-445 | the parsed row has distinct columns and no more entries than pieces |
| Report.ParsePairsEmpty | backend/server.py:443-446 | a chunk's pieces give an empty dict exactly when none holds a colon |
| Report.PipelessChunkSkipped | backend/server.py:439 | a context chunk without `|` adds no row |
| Report.ReportRowsShape | backend/server.py:437-447 | report_data has at most one row per context chunk, each non-empty with distinct columns |
| Report.FillRow | backend/server.py:440-445 | the inner loop builds the dict the parser specification gives |
| Report.BuildReportData | backend/server.py:437-447 | the outer loop builds report_data as the parser specification gives |
| Report.ParsePairOfFormat | backend/server.py:444-445 | a well-formed entry written as `"k: v"` by the serialiser (line 157) parses back to `(k, v)` |
| Report.SplitSerialized | backend/server.py:441 | splitting a serialised well-formed record on `" | "` gives back its formatted entries |
| Report.ParseSerializeRoundTrip | backend/server.py:439-447 | the parser inverts the serialiser of line 157: a record of ≥ 2 well-formed entries with distinct keys comes back from its chunk unchanged |
| Report.PipeValueBreaksRoundTrip | backend/server.py:439-447 | with a value `"|"`, which satisfies every other condition, the round trip fails: `[(a, "|"), (b, c)]` comes back as `[(a, ""), ("| " + b, c)]` |
| Report.TrailingPipeBreaksRoundTrip | backend/server.py:439-447 | with a value `"x |"`, which satisfies every other condition, the round trip fails: `[(a, "x |"), (b, c)]` comes back as `[(a, "x"), ("| " + b, c)]` |
| Report.ReportRowsOfSerialized | backend/server.py:437-447 | context chunks that are serialised well-formed records come back as exactly those records, in order |
| Report.ReportRowsEmpty | backend/server.py:437-447 | report_data stays empty exactly when no context chunk both contains `|` and has a `" | "` piece holding `:` |
| Report.ReportTableFallback | backend/server.py:450-458 | the table is the summary row alone exactly when no context chunk yields a row, and is report_data unchanged otherwise |
| Report.ReportTableShape | backend/server.py:437-458 | the table has one row at least, no more rows than context chunks (or one), each non-empty with distinct columns |
| Report.ReportFacts | backend/server.py:422-477 | generate_report fails exactly when rag_query does, with the same error; otherwise 1 to 5 rows, each non-empty with distinct columns, and rag_query's answer and sources |
| Report.GenerateReport | backend/server.py:422-477 | the method computes the generate_report outcome |
| Upload.Extension | backend/server.py:276 | the extension holds no dot |
| Upload.ExtensionAfterLastDot | backend/server.py:276 | the extension of `stem + "." + ext` is `ext` lower-cased, whatever the stem holds |
| Upload.ExtensionWithoutDot | backend/server.py:276 | a name without a dot is its own (lower-cased) extension |
| Upload.UploadFacts | backend/server.py:269-288 | refusals: no name → NoFileProvided; other extension → UnsupportedFileType; unreadable or empty content → CouldNotProcess; an accepted file has the kind its extension names and one chunk per row or item, at least one |
| Upload.UploadDocument | backend/server.py:264-288 | the method computes the upload outcome stated by the lemma |
| Text.Split | backend/server.py:441 | `s.split(sep)` has at least one piece, joins back to s, no piece contains sep, and every cut is at the leftmost match after the previous piece |
| Text.SplitJoin | backend/server.py:441 | splitting what join built returns the parts when each separator is the leftmost match |
| Text.SplitAtFirst | backend/server.py:444 | `s.split(c, 1)`: the first half holds no c and `s == first + c + second` |
| Text.StripIdentity | backend/server.py:445 | strip leaves a string alone exactly when neither end is whitespace |
| Text.StripEmptyIffAllSpace | backend/server.py:338 | strip gives the empty string exactly for an all-whitespace string |
| Text.SplitLastPiece | backend/server.py:276 | the last piece of a split on one character is the text after the last occurrence |
| Seqs.DedupFacts | backend/server.py:368-369 | the list built with "append unless present" holds every element once and nothing else |
| Seqs.DedupFirstOccurrenceOrder | backend/server.py:368-369 | that list is in order of first occurrence |

## Left out

- Networking, routing, CORS, authentication (JWT, bcrypt) and MongoDB are left out; errors raised as HTTP exceptions are modelled as `Result` errors.
- The per-user, `processed` filter and the 100-document cap of the database query are left out; the model's `docs` is the list that query returned. generate_report reads the documents a second time (backend/server.py:431) and takes `Document_Count` from that read; the model assumes both reads return the same list.
- Embeddings and the chat completion are foreign calls. The similarity of each chunk is an input (`Document.scores`), and the model's answer is the input `generated`.
- The error paths of those calls are left out: failed query embedding (HTTP 500), failed chat call (HTTP 500) and failed chunk embedding at upload.
- Cosine similarity and numpy float arithmetic are left out; scores are exact reals.
- The tie order of `np.argsort` is left open only in `SelectionFacts`, which holds for every ranking. `DocumentHits`, `MergeResults`, `QueryResult` and `ReportResult` are computed for the one concrete `Ranking`, which breaks ties by ascending index. So `QueryContextFacts`, `QuerySourcesFacts` and `ReportFacts` are proved for that tie order only.
- Retrieval.Searchable: the model requires exactly one score per chunk. At the call site this always holds, because upload_document stores `get_embeddings(chunks)`, one embedding per chunk (backend/server.py:291).
- Retrieval.Searchable: the source does not need this. With fewer chunks than embeddings, `chunks[idx]` raises (swallowed to `[]`, lines 187-189) only when a top_k index scoring above 0.1 is at least `len(chunks)`. Otherwise the normal result comes back. With more chunks than embeddings, the extra chunks are never ranked and nothing fails. Neither case is modelled.
- pandas reading and `json.loads` are inputs (`Option` values, `None` for a failure swallowed to `([], [])`). So are the rendering of cell and item values by f-strings and `str()`: values are taken as their already-rendered text.
- Writing the spreadsheet, base64 encoding, the file name with a timestamp, and logging are left out. `Generated_At` is the input `generatedAt`.
- Report.SummaryRow: `Document_Count` is held as its decimal text, because rows are modelled as string-to-string dicts.
- Text.ToLower lower-cases ASCII letters only; Python's Unicode case mapping is not modelled.
- Upload.UploadResult: a missing file name (`None` or `""`) is modelled as the empty string. Reading the file, embedding the chunks and inserting the document are left out.
