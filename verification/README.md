# IPO_Checker core, modelled in Dafny

IPO_Checker answers due-diligence questions about Indian IPOs. It chunks the
text of draft red herring prospectus (DRHP) PDFs, retrieves relevant chunks
from a vector store, asks an LLM to answer with that context, has a second
LLM call score each answer against an ideal answer, and averages the scores.
A separate fetcher lists the month's IPOs from the Chittorgarh listing table.

This project models the deterministic core of that pipeline as pure Dafny
functions, and proves what each part promises:

- `Sentences`, `Packing`, `Chunking`: the sentence splitter and the greedy
  chunker with sentence overlap (`_split_text_into_chunks`), plus the
  per-page chunk records of `extract_and_chunk_pdf`.
- `ContextBuilder`: `build_context_json` (the context entries built from a
  vector-store query result) and `rag_pipeline` (one LLM answer per question
  key, collected in a dictionary).
- `Evaluator`: `avg_score`, the record list that `ipo_evaluator` builds, and
  the `ipo_result` summary.
- `IpoFetcher`: `fetch_ipo_data`'s argument validation, its result and error
  envelope, the row filter shared by both fetchers, and `_parse_date`.
- Support modules model Python built-ins:
  - `Text` models `str.strip`, `' '.join` and `str.replace(".txt", "")`;
  - `PyInt` models `int(str)` and decimal rendering;
  - `Dicts` models insertion-ordered dicts;
  - `Results` holds the `Option`/`Result` wrappers that stand for `None` and raised exceptions.

Some parts of the system are passed in as parameters:

- the vector-store query (`retrieve`);
- the answering LLM (`llm`);
- the judging LLM (`judge`);
- `strptime` with its two formats (`withYear` and `withoutYear`);
- the fetched page (`Page`).

A Python exception that escapes a function becomes `Err` with the exception's text. `None` becomes `Option.None`.

## Model

| member | source | states |
|---|---|---|
| Text.StripShape | Chuncking_and_embedding/chunking_dhrp.py:17 | `strip` returns the slice left after removing whitespace at both ends. Only whitespace is removed, and the result neither starts nor ends with whitespace. |
| Text.StripEmpty | Chuncking_and_embedding/chunking_dhrp.py:18 | A string strips to empty exactly when it is all whitespace. This is the `if s.strip()` filter. |
| Text.JoinLength | Chuncking_and_embedding/chunking_dhrp.py:51 | `' '.join` of n > 0 strings has their total length plus n - 1 separators. |
| Text.JoinConcat | Chuncking_and_embedding/chunking_dhrp.py:78 | Joining two non-empty runs is joining each, then one space between them. This is how an overlap prefix is glued to a chunk. |
| Text.RemoveTxtSuffix | tools/query_vector_database_tool.py:29 | A source name ending in ".txt" loses exactly that suffix when the base has no other ".txt". |
| Text.RemoveTxtAbsent | tools/query_vector_database_tool.py:29 | A source without ".txt" is left unchanged. |
| Text.RemoveTxtSinglePass | tools/query_vector_database_tool.py:29 | `replace` is one left-to-right pass. "x.t.txtxt" becomes "x.txt", which still contains ".txt". |
| PyInt.ParseShow | ipo_evaluator.py:87 | `int()` reads back the decimal rendering of every integer of at most 4300 digits, with or without surrounding whitespace. |
| PyInt.ParseStripped | ipo_evaluator.py:87 | `int()` ignores surrounding whitespace. |
| PyInt.ParseIntRejectsBlank | ipo_evaluator.py:87-90 | Blank text is a ValueError, modelled as `None`. |
| PyInt.ParseIntRejectsNonDigit | ipo_evaluator.py:87-90 | A non-digit inside the stripped text, other than a leading sign, is a ValueError. |
| PyInt.ParseIntRejectsLong | ipo_evaluator.py:87-90 | A digit string of more than 4300 digits is a ValueError, so `avg_score` skips such a score like any other unparsable one. |
| Dicts.PutItems | tools/query_vector_database_tool.py:57 | After `d[k] = v`, an existing key keeps its place in `items()` with its pair replaced by (k, v) and every other pair unchanged; a new key adds the single pair (k, v) at the end. |
| Sentences.SplitSentencesWellFormed | Chuncking_and_embedding/chunking_dhrp.py:17-18 | Every sentence is non-empty, stripped, and free of inner split points. Every sentence but the last ends in `.`, `!` or `?`. |
| Sentences.SplitJoinRoundTrip | Chuncking_and_embedding/chunking_dhrp.py:62-63 | Splitting the space-join of well-formed sentences gives those sentences back. This is why the overlap step recovers a chunk's sentences. |
| Sentences.SplitSentencesLossless | Chuncking_and_embedding/chunking_dhrp.py:17-18 | Splitting loses no non-whitespace character and reorders nothing. |
| Sentences.SplitSentencesEmpty | Chuncking_and_embedding/chunking_dhrp.py:17-21 | There are no sentences exactly when the text is all whitespace. |
| Packing.Greedy | Chuncking_and_embedding/chunking_dhrp.py:34-44 | The inner loop extends a chunk while the next sentence fits. It stops at the first sentence that does not. |
| Packing.RunLength | Chuncking_and_embedding/chunking_dhrp.py:34-49 | A chunk takes at least one sentence. It fits the chunk size unless it is a single over-long sentence. The next sentence would not fit. |
| Packing.GreedyLoop | Chuncking_and_embedding/chunking_dhrp.py:34-44 | The inner loop, with its running `chunk_length`, takes exactly the greedy run from sentence `i` on: as many sentences as fit, up to the first that does not. |
| Packing.FillChunk | Chuncking_and_embedding/chunking_dhrp.py:31-49 | One chunk takes the next `RunLength` sentences from `i`: the greedy run, or the one sentence that alone does not fit. |
| Packing.PackSentences | Chuncking_and_embedding/chunking_dhrp.py:26-51 | The nested loop with its running length yields the joined greedy runs. |
| Packing.PackRunsPartition | Chuncking_and_embedding/chunking_dhrp.py:26-51 | The runs are non-empty, at most one per sentence, and concatenate back to the sentence list in order. |
| Packing.PackRunsBound | Chuncking_and_embedding/chunking_dhrp.py:39-49 | Every run fits the chunk size, or is one sentence longer than it. |
| Packing.PackRunsMaximal | Chuncking_and_embedding/chunking_dhrp.py:39-44 | Adding the next run's first sentence to a run would exceed the chunk size. |
| Chunking.TakeOverlap | Chuncking_and_embedding/chunking_dhrp.py:66-74 | The overlap is a suffix of the previous chunk's sentences whose cost (length plus one each) fits the budget. The sentence before it would not fit. |
| Chunking.ChunkTextShape | Chuncking_and_embedding/chunking_dhrp.py:20-51 | There is one chunk per run, and the runs partition the sentences. The first chunk is its run joined. A single sentence is returned as is. |
| Chunking.ChunkTextOverlap | Chuncking_and_embedding/chunking_dhrp.py:53-84 | Every chunk after the first is its run joined, prefixed by the overlap taken from the previous run's sentences and a space. |
| Chunking.ChunkTextBound | Chuncking_and_embedding/chunking_dhrp.py:66-80 | Each chunk ends with its packed run. It is either that run or at most `chunk_overlap` characters longer. |
| Chunking.ChunkTextPackedBound | Chuncking_and_embedding/chunking_dhrp.py:39-49 | Each packed run fits `chunk_size` unless it is one over-long sentence. |
| Chunking.ChunkTextNoOverlap | Chuncking_and_embedding/chunking_dhrp.py:70-80 | With a non-positive overlap budget, the chunks are exactly the joined runs. |
| Chunking.ChunkTextEmpty | Chuncking_and_embedding/chunking_dhrp.py:17-21 | A page yields no chunks exactly when its text is all whitespace. |
| Chunking.PageRecordsFacts | Chuncking_and_embedding/chunking_dhrp.py:124-130 | One page's records are in chunk order, all carry that page and all name the file. |
| Chunking.PageRecordsOnPage | Chuncking_and_embedding/chunking_dhrp.py:124-130 | There is one record per chunk: record j carries chunk j, the page, the file name and chunk index j. Selecting another page gives none of them. |
| Chunking.NumberFacts | Chuncking_and_embedding/chunking_dhrp.py:120-130 | Records of consecutive pages come in increasing (page, chunk_index) order. Each names the file, and each page lies in the page range. |
| Chunking.ChunkFilePages | Chuncking_and_embedding/chunking_dhrp.py:120-130 | The records of page p are exactly page p's chunks, each with its index. Pages past the end, and blank pages, have no records. |
| Chunking.ChunkFileOrdered | Chuncking_and_embedding/chunking_dhrp.py:111-130 | A file's records are ordered by (page, chunk_index) and all carry its name. |
| Chunking.ChunkFilesNames | Chuncking_and_embedding/chunking_dhrp.py:95-130 | Every record names one of the processed files. |
| Chunking.ChunkFilesUnique | Chuncking_and_embedding/chunking_dhrp.py:111-130 | Across files with distinct names, no (file_name, page, chunk_index) repeats. |
| ContextBuilder.EntriesSpec | tools/query_vector_database_tool.py:25-33 | There is one entry per zipped pair, up to the shorter list, each built from its own pair. The call fails exactly when a zipped source is numeric, because `int` has no `replace`. |
| ContextBuilder.BuildContextMissing | tools/query_vector_database_tool.py:22-23 | A query result missing documents or metadatas gives no entries. |
| ContextBuilder.BuildContextEmptyOuter | tools/query_vector_database_tool.py:22-23 | An empty outer list raises IndexError. |
| ContextBuilder.EntryFields | tools/query_vector_database_tool.py:28-32 | Source defaults to "unknown_source" and loses ".txt". Page defaults to "Unknown page" and is otherwise passed through. Content is the stripped document. |
| ContextBuilder.EntryKeepsPlainSource | tools/query_vector_database_tool.py:29 | A source with no ".txt" is kept verbatim. |
| ContextBuilder.AskSpec | tools/query_vector_database_tool.py:40-57 | Every (key, question) gets the LLM's answer over its own context, in order. The loop fails exactly when some context cannot be built. |
| ContextBuilder.CollectOrder | tools/query_vector_database_tool.py:39-57 | Keys of the answers dict appear in order of their first assignment. |
| ContextBuilder.CollectLast | tools/query_vector_database_tool.py:57 | A key repeated across question dicts keeps its last answer. |
| ContextBuilder.CollectDistinctKeys | tools/query_vector_database_tool.py:39-57 | With distinct keys, the dict's key order is the question order. |
| ContextBuilder.AskDistinct | tools/query_vector_database_tool.py:39-57 | With distinct keys, the answers dict holds the question keys in question order, each with the answer to its own question. |
| ContextBuilder.RagPipelineSpec | tools/query_vector_database_tool.py:37-59 | The pipeline succeeds exactly when every question's context builds. Its keys are exactly the question keys, in first-occurrence order, and each holds the answer to that key's last question. |
| Evaluator.AvgScoreSpec | ipo_evaluator.py:80-94 | A non-text score raises TypeError. Otherwise, when the mean of the scores that `int()` accepts lies beyond the float range, `total_score / count` raises OverflowError. Otherwise the result is that mean, and 0 when no score parses. |
| Evaluator.AvgScoreOverflow | ipo_evaluator.py:86-93 | A single score of at least 2^1024 - 2^970 that `int()` still reads (at most 4300 digits) makes the division raise OverflowError. |
| Evaluator.AvgIgnoresUnscored | ipo_evaluator.py:85 | Inserting a record without `evaluation_score` anywhere does not change the average. |
| Evaluator.AvgSkipsUnparsable | ipo_evaluator.py:86-91 | Inserting a record whose score text is not an integer does not change the average. |
| Evaluator.AvgScoreBounds | ipo_evaluator.py:80-94 | When all parsed scores lie in [lo, hi] and there is at least one, any returned average lies in [lo, hi], and one is returned whenever lo and hi are within the float range. |
| Evaluator.AvgScoreNoneParse | ipo_evaluator.py:93 | With no parsable score, the average is zero. |
| Evaluator.AvgScoreExample | ipo_evaluator.py:80-94 | Scores "8", "not-a-number" and "6" average to 7. |
| Evaluator.RagOneDict | ipo_evaluator.py:51 | Answering one question dict yields its keys in order, each with the answer to its own question. |
| Evaluator.RoundSingle | ipo_evaluator.py:46-76 | For a one-key question dict, a round appends (topic: answer), the ideal answer and the judged score. It fails exactly when no ideal answer exists at that position or the answer cannot be produced. |
| Evaluator.EvaluateLayout | ipo_evaluator.py:42-77 | For one-key question dicts, evaluation succeeds exactly when there are enough ideal answers and every question can be answered. The result then holds three records per question. |
| Evaluator.EvaluateShortIdeals | ipo_evaluator.py:58 | Fewer ideal answers than question dicts always fails, at `ideal_answers[i]`. |
| Evaluator.RoundEmpty | ipo_evaluator.py:53-76 | An empty question dict adds no answer records. It reuses the `topic` left by an earlier round, with the empty `dict_values` as the company answer. Without an earlier topic it raises UnboundLocalError. |
| Evaluator.EvaluateEmptyFirst | ipo_evaluator.py:53-69 | An empty first question dict fails: IndexError if there are no ideal answers, otherwise UnboundLocalError on `topic`. |
| Evaluator.EvaluateLeakedTopic | ipo_evaluator.py:53-76 | An empty second dict's score record judges the first dict's topic against the empty answer view and the second ideal answer. |
| Evaluator.RoundShape | ipo_evaluator.py:53-76 | A successful round appends, after the old records, one text record per key, the ideal answer and a one-key text score. |
| Evaluator.EvalFromShape | ipo_evaluator.py:46-77 | Evaluation yields (keys + 2) records per question dict, and every score in them is text. |
| Evaluator.IpoResultSpec | ipo_evaluator.py:97-105 | The summary exists exactly when evaluation succeeds and the mean of its parsable scores is within the float range; beyond it `avg_score` raises OverflowError. The summary echoes the IPO name and keeps the evaluation records as details. Its average is the mean of their parsable scores, and it never hits the TypeError path. |
| Evaluator.IpoResultJudged | ipo_evaluator.py:97-105 | For one-key question dicts with keys other than `evaluation_score`, the averaged scores are exactly the judge outputs at every third record. |
| IpoFetcher.ParseDateSpec | fetching_ipo_data_chittor/ipo_fetcher.py:236-261 | Blank text gives no date. The format with a year wins. Otherwise the format without a year is used with the requested year put in; that gives a date exactly when the day exists in 1900, the year `strptime` fills in, and the requested year is within 1..9999. If neither format applies there is no date. |
| IpoFetcher.ParseDateFeb29 | fetching_ipo_data_chittor/ipo_fetcher.py:254-261 | A yearless 29 February gives no date in every requested year, leap years included: `strptime` first builds it in 1900, which is not a leap year, and raises ValueError before `replace(year=)` runs. |
| IpoFetcher.DefaultYearDays | fetching_ipo_data_chittor/ipo_fetcher.py:258 | For a month and day that exist in 1900, `replace(year=y)` succeeds exactly when y is within 1..9999. |
| IpoFetcher.RowToIpoSpec | fetching_ipo_data_chittor/ipo_fetcher.py:118-152 | A row is kept exactly when it has at least 8 cells, its open and close dates parse, the close date's month is the requested month, and the list date is empty, "Yet to list" or parses. The other cells are copied unchanged. |
| IpoFetcher.ExtractIpos | fetching_ipo_data_chittor/ipo_fetcher.py:115-152 | The row loop skips the header row and yields the kept rows' records. It yields at most one record per data row. |
| IpoFetcher.KeptSound | fetching_ipo_data_chittor/ipo_fetcher.py:137-149 | Every kept record closes in the requested month, and there are no more records than rows. |
| IpoFetcher.KeptAppend | fetching_ipo_data_chittor/ipo_fetcher.py:118-152 | Rows are filtered independently and in order. |
| IpoFetcher.ExtractHeader | fetching_ipo_data_chittor/ipo_fetcher.py:116 | The first row is dropped whatever it holds. |
| IpoFetcher.FetchValidation | fetching_ipo_data_chittor/ipo_fetcher.py:44-48 | A month outside 1..12 raises the month error, checked before the year. Otherwise a year outside 2000..2100 raises the year error. Valid arguments always give a report. |
| IpoFetcher.FetchReport | fetching_ipo_data_chittor/ipo_fetcher.py:63-160 | The report echoes year and month, names the month, and counts exactly its records. A failed fetch or a missing table gives no records and the matching error text. A table gives the filtered rows, all closing in that month. |

## Left out

- I/O is not modelled; each piece enters the model as input:
  - PDF reading (`PyPDF2`) and folder listing are not modelled. A file enters as its name and the extracted text of each page, in the order the folder listing yields.
  - Per-file exceptions (`except Exception` in `extract_and_chunk_pdf`) are not modelled: they can keep the records of the pages already processed.
  - The progress `print` calls are left out.
- Embedding, the Chroma query (`get_relevant_docs`) and both LLM calls (`call_llm`) are parameters: `retrieve`, `llm` and `judge`.
  - Prompt text is not modelled.
  - The `collection` argument of `rag_pipeline` is ignored by the source, so it is absent.
  - `top_k = 5` is part of `retrieve`.
- `ContextBuilder.BuildContext` returns the entry list, not the JSON text `json.dumps` renders from it.
  - `None` documents or metadata inside the query result are not modelled.
  - Metadata values are text or integers only.
- Evaluator.IpoResult takes the question dicts and ideal answers as arguments. The source reads them from the `eval_questions` and `eval_parameters` tables of `Utilities/parameter_utils.py`, which is not part of this model.
- Evaluator.AvgScoreSpec: the average is the exact quotient, not the nearest float that Python returns; only the float range, and its OverflowError, is modelled. When there is no score the source returns the integer `0`; the model returns `0.0`.
- Evaluator.AvgScoreSpec: the TypeError text is the same for every non-text score. CPython ends it with the value's type, `, not 'dict'` or `, not 'dict_values'`, and the model leaves that ending out.
- Evaluator.EvaluateLayout: the full record layout is stated only for question dicts with one key each, which is how the question tables are written. Multi-key and empty dicts are covered by `Evaluator.RoundShape`, `Evaluator.EvalFromShape`, `Evaluator.RoundEmpty` and `Evaluator.EvaluateLeakedTopic`.
- PyInt.ParseInt: `int()` also accepts underscores between digits and non-ASCII decimal digits. The model accepts only an optional sign and ASCII digits.
- PyInt.Show: renders every integer. CPython's `str()` refuses integers of more than 4300 digits. That matters only for the error text of `fetch_ipo_data` on such a month or year, which the model renders in full.
- Text.IsSpace: only the six ASCII whitespace characters count as whitespace. Python's `strip` and the regex `\s` also treat `\x1c`-`\x1f`, `\x85` and Unicode spaces as whitespace.
- IpoFetcher.ParseDateSpec: `strptime` with its two formats is a pair of parameters, so the model does not fix which texts parse. Only the fallback order, the 1900 default year of the yearless format and the year replacement are modelled.
- Fetching is not modelled: Selenium rendering, `requests`, the HTML parsing by BeautifulSoup and `get_text(strip=True)`. A fetch enters as a `Page`: rows of cell texts, no table, or a failure with its message.
- The `strftime('%Y-%m-%d')` rendering of the dates is not modelled; records keep the `Date` values.
- `get_ipo_data_json` only renders the report as JSON, so it is not modelled.
