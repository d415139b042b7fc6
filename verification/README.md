# CEREBRO ingestion and routing core, in Dafny

CEREBRO is a local "second brain". A parser turns books (PDF, EPUB, DOCX, TXT)
into cleaned text files named `{domain}__{base}__{lang}.txt`, each with a JSON
metadata file beside it. It keeps an append-only ledger of MD5 hashes so that no
book is ingested twice. An indexer cuts every text into overlapping word windows,
embeds them and keeps a FAISS index whose rows line up with a list of chunk
entries. Two routers answer queries:

- a chunk router turns nearest-neighbour row indices into a combined context,
  source labels and a domain tally;
- a document router caches whole-document embeddings and reads the matching
  text files back.

A Flask endpoint reads an optional `/mode` prefix off the query and passes the
routed context on to a local language model. A file watcher starts the parser
again, debounced, when the book folder changes.

This project models the sequential rules of that pipeline as pure Dafny
functions over sequences, maps and small state records, and proves what they
promise. The external pieces are parameters:

- reading a file;
- parsing a document format;
- MD5;
- language detection;
- the embedder;
- the nearest-neighbour search, modelled as an arbitrary `seq<int>` of row
  indices;
- whether a write succeeds.

Modules:

| file | module | models |
|---|---|---|
| `wrappers.dfy` | `Wrappers` | `Option` and `Result` |
| `py.dfy` | `Py` | Python string helpers: `strip`, `split`, `join`, slicing, negative indexing, `splitext`, `str.replace`, word runs |
| `tally.dfy` | `Tally` | insertion-ordered counting dictionaries and the stable sort by descending count |
| `records.dfy` | `Records` | the metadata records the readers see |
| `faiss.dfy` | `Faiss` | a flat index as a list of 384-wide rows; `add` fails on a row of another width |
| `chunker.dfy` | `Chunker` | `chunk_text` |
| `core_memory.dfy` | `CoreMemory` | the indexing loop, chunk ids, domains, the router projection |
| `parser.dfy` | `Parser` | `normalize_filename`, `clean_text`, `tokenize`, `inferred_tags`, the hash ledger, `parse_and_save`, `scan_all` |
| `hits.dfy` | `Hits` | the guard both routers apply to search hits, with Python's negative indexing |
| `router.dfy` | `Router` | `route_query` |
| `meta_router.dfy` | `MetaRouter` | `load_corpus`, the embedding cache, `route_query_semantically`, `synthesize_routing_result` |
| `app.dfy` | `App` | `extract_command_and_query` and the part of `ask` before the prompt |
| `file_watcher.dfy` | `FileWatcher` | the debounce decision of `on_any_event` |
| `pipeline.dfy` | `Pipeline` | how the parser's file names are read back by the two routers and the indexer |

Where the code does something other than its names and comments suggest, the
model follows the code:

- `load_embedding_cache` reads as if it returned both the index and the
  metadata or neither. It returns the index with `None` metadata when the cache's `"metadata"` is
  `null`. The model keeps that case (`MetaRouter.CachePartialOnlyOnNull`).
  `route_query_semantically` then rebuilds anyway, so routing is unaffected.
- A name `{domain}__{base}__{lang}` reads as if it always gave back its domain
  when the domain holds no `__`. `split("__")` also eats the final `_` of a
  domain such as `Law_`, so the model proves the round trip only when the domain
  does not end in `_` (`CoreMemory.DomainOfTrailingUnderscore` shows the
  exception).
- The debounce spacing holds for events in any time order, not only for
  non-decreasing ones, because the window is measured from the last accepted
  trigger.

## Model

| member | source | states |
|---|---|---|
| Chunker.ChunkText | backend/core_memory.py:31-38 | A zero stride (`size == overlap`) raises as `range` does. A negative stride yields no chunk. Every chunk kept has at least 50 words. |
| Chunker.WindowRoundTrip | backend/core_memory.py:32-35 | Joining a slice of `str.split()` words with spaces and splitting again gives back exactly that slice. |
| Chunker.CandidateIs | backend/core_memory.py:34-36 | The `i`-th candidate is the window starting at word `i*(size-overlap)`. It passes the 50-word filter exactly when that window reaches 50 words. |
| Chunker.KeptArePrefix | backend/core_memory.py:34-37 | The filter keeps a prefix of the windows: once one window falls short of 50 words, every later one does too. |
| Chunker.ChunkCount | backend/core_memory.py:34-37 | With `0 <= size` and `overlap < size`, a text of `n` words gives 0 chunks when `n < 50` or `size < 50`, and `(n-50) div (size-overlap) + 1` chunks otherwise. |
| Chunker.ChunkIsWindow | backend/core_memory.py:34-35 | Chunk `j` is the space-joined words `[j*(size-overlap), j*(size-overlap)+size)` of the text. Its window starts at least 50 words before the end. |
| Chunker.ChunkBounds | backend/core_memory.py:32-36 | Every chunk has between 50 and `size` words, and re-splitting it gives back exactly its slice of the text's words. |
| Chunker.ChunkOverlap | backend/core_memory.py:34-35 | When chunk `j` is a full window, its last `overlap` words are the first `overlap` words of chunk `j+1`. |
| CoreMemory.DomainOf | backend/core_memory.py:78 | Without `__`, the domain is `"GENERAL"`. Otherwise it is the prefix that stops at the first occurrence of `__`. |
| CoreMemory.DomainOfStem | backend/core_memory.py:78 | `{domain}__{rest}` gives back `domain` when the domain holds no `__` and does not end in `_`. |
| CoreMemory.DomainOfTrailingUnderscore | backend/core_memory.py:78 | A domain folder `Law_` is read back as `Law`. |
| CoreMemory.TrailingDigitsOf | backend/core_memory.py:75 | A string ending in a non-digit, followed by digits, ends in exactly those digits. |
| CoreMemory.ChunkIdInjective | backend/core_memory.py:75 | Equal chunk ids have the same base name and the same chunk index. |
| CoreMemory.TxtFiles | backend/core_memory.py:50 | The file list is a sorted permutation of the listed names that end in `.txt`. |
| CoreMemory.FileChunks | backend/core_memory.py:58-69 | When a file is not skipped (unreadable, blank, or no chunk), it has at least one chunk. |
| CoreMemory.IndexFile | backend/core_memory.py:53-85 | One file only appends: the earlier entries and index rows stay as they were. |
| CoreMemory.IndexFiles | backend/core_memory.py:53-85 | The loop over the files only appends entries. |
| CoreMemory.IndexFileSkips | backend/core_memory.py:62-71 | A file that is unreadable, blank or without chunks, or whose embedding raises or is empty, changes neither the entries nor the index. |
| Py.StripEmpty | backend/core_memory.py:62 | `strip()` of a text is empty exactly when every character of it is whitespace, so the blank-file test skips exactly the all-whitespace files. |
| Py.StripKeepsWords | backend/parser.py:39 | Stripping a line keeps exactly its words, in order. |
| Py.JoinIsJoined | backend/router.py:58 | `sep.join(xs)` is the pieces of `xs` in order, with `sep` between each pair and nothing else. |
| Py.JoinedIsJoin | backend/router.py:58 | Conversely, a string with that shape is `sep.join(xs)`. |
| CoreMemory.IndexFileAligned | backend/core_memory.py:71-82 | With one index-width row per chunk, the file adds one entry per chunk, in chunk order, and exactly those rows. Each entry gets its chunk text, its chunk id, the base name and the derived domain. |
| CoreMemory.IndexFileMisaligns | backend/core_memory.py:71-82 | When `add` rejects the rows, the file's entries are already appended and stay, and the index gains nothing: entries and rows fall out of step. |
| CoreMemory.IndexFileTooManyRows | backend/core_memory.py:73-80 | More embeddings than chunks: `chunks[i]` raises after every chunk got an entry, and `add` is never reached. |
| CoreMemory.IndexFileKeepsRowsMatch | backend/core_memory.py:71-82 | With an embedder that gives one row per text, row `k` stays the embedding of entry `k`'s text. |
| CoreMemory.IndexFilesKeepsRowsMatch | backend/core_memory.py:53-85 | That alignment holds across the whole loop. |
| CoreMemory.IndexAllRowsMatch | backend/core_memory.py:50-85 | After indexing from an empty index, entries and index rows are aligned one to one. |
| CoreMemory.IndexAll | backend/core_memory.py:50-85 | The indexing script from an empty memory over the sorted `.txt` files. What it builds is stated by `CoreMemory.IndexAllRowsMatch` and `CoreMemory.RouterMetadataMatchesRows`. |
| CoreMemory.RouterProjection | backend/core_memory.py:104-110 | The router metadata has one record per entry, in entry order, with the entry's domain, filename and text. |
| CoreMemory.RouterMetadataMatchesRows | backend/core_memory.py:50-110 | After indexing, the router metadata has one record per index row, and record `i` carries the text whose embedding is row `i`, with that entry's domain and filename. So a search hit `i` names the chunk it was found by. |
| Parser.NormalizeFilename | backend/parser.py:35-36 | The length is unchanged. Letters, digits, `_` and `-` stay. Every other character becomes `_`. |
| Parser.NormalizeFixedPoint | backend/parser.py:35-36 | A name is unchanged exactly when it is all safe characters, so normalising is idempotent. |
| Parser.StripLines | backend/parser.py:39 | Every kept line is non-empty and has no whitespace at either end. |
| Parser.CleanText | backend/parser.py:38-39 | `clean_text`: the stripped non-blank lines joined by single spaces. What it guarantees is stated by `Parser.CleanTextShape` and `Parser.CleanTextIdempotent`. |
| Parser.CleanTextShape | backend/parser.py:38-39 | The cleaned text has no line break and no outer whitespace, and it splits into exactly the words of the original. |
| Parser.CleanTextIdempotent | backend/parser.py:38-39 | Cleaning a cleaned text changes nothing. |
| Parser.Tokenize | backend/parser.py:41-42 | Every token is a non-empty run of word characters with no upper-case letter. |
| Parser.TokenHasNoHyphen | backend/parser.py:41-42 | No token holds `-`, so no token equals `"self-determination"`. |
| Parser.InferredTags | backend/parser.py:51-64 | At most five tags are returned. |
| Parser.RuleTagsFire | backend/parser.py:51-63 | With distinct labels, a rule's label is produced exactly when one of its keywords is a token. |
| Parser.RuleTagsOrdered | backend/parser.py:51-63 | Labels come out in rule order. |
| Parser.InferredTagsSpec | backend/parser.py:51-64 | A tag is inferred exactly when its keyword set meets the tokens. Every tag is one of the five labels. Tags follow rule order, so none repeats. The cap of five never cuts. |
| Parser.PoliticalTheoryTag | backend/parser.py:58-59 | "Political Theory" is inferred exactly when "sovereignty" or "nationhood" is a token. |
| Parser.LoadLedger | backend/parser.py:29-32 | The set of stripped non-blank ledger lines; a missing ledger reads as empty. How it reads back what the parser appends is stated by `Parser.LedgerAppend` and `Parser.LedgerUnterminated`. |
| Parser.LedgerAppend | backend/parser.py:30-32 | Appending `hash\n` to a newline-terminated ledger adds exactly that hash to the set read back, and the ledger stays terminated. |
| Parser.LedgerUnterminated | backend/parser.py:30-32 | If the last line lost its newline, the next hash merges into it and neither hash is read back. |
| Parser.BaseName | backend/parser.py:146 | The base name is a suffix of the path without separators. The character before it is a separator. |
| Parser.Prepare | backend/parser.py:135-166 | Output is produced exactly when the file parses to at least 20 words. It then gives: the cleaned text, the stem `{domain}__{normalised base}__{lang}`, and metadata with that domain, base and language, the hash, the path, the word count and length of the cleaned text, and its inferred tags. The language is what detection returns for the cleaned text, or `"unknown"` when detection raises. The file type is the parser's, and `parsed_at` is the clock reading. |
| Parser.Save | backend/parser.py:151-177 | Files are only added or overwritten. The ledger and the hash set change together, by that hash, or not at all. |
| Parser.ParseAndSave | backend/parser.py:128-177 | Only a hash failure raises. The ledger and the hash set grow together by the file's new hash, or stay unchanged. |
| Parser.DedupGate | backend/parser.py:131-133 | A file whose hash is already known changes nothing. |
| Parser.RecordedIff | backend/parser.py:135-177 | A new hash is recorded exactly when parsing, the word gate and all three writes succeed. It then comes with both files written under the stem. Otherwise the ledger and the set stay as they were. |
| Parser.ParseAndSaveKeepsLedger | backend/parser.py:30-32 | After a call, the ledger still reads back as the hash set and ends in a newline. |
| Parser.ScanAll | backend/parser.py:179-191 | `scan_all`: `pool.starmap(parse_and_save, file_list)`. The jobs are cut into chunks of `Parser.ChunkSize`. A worker runs a chunk in order until a job raises, which ends that chunk only, and the first raise is re-raised at the end. What it guarantees is stated by the `Parser.ScanAll…` lemmas below. |
| Parser.Workers | backend/parser.py:189 | The pool has `cpu_count() // 2` workers, and at least one. |
| Parser.ChunkSize | backend/parser.py:190 | The chunk size `starmap` picks for `n` jobs and `w` workers is `n / 4w` rounded up: the least `c` with `n <= c * 4w`. No job gives size 0. |
| Parser.ReachedIff | backend/parser.py:190 | A job runs exactly when none of the jobs before it in its own chunk raises. Its chunk starts at `k - k % c`. |
| Parser.RunChunkCovers | backend/parser.py:190 | A chunk raises exactly when one of its jobs raises. Every savable job before its first raise has its hash recorded. |
| Parser.RunChunksCovers | backend/parser.py:190 | The same over all chunks: the scan's failure is absent exactly when no job raises, and every reached savable job is recorded. |
| Parser.ScanAllKeepsLedger | backend/parser.py:179-191 | The same holds after a whole scan, even one that raises, and known hashes are never lost. |
| Parser.ScanAllCovers | backend/parser.py:179-191 | The scan raises exactly when some job's file exists but cannot be hashed. Whether or not it raises, every job the scan reaches whose file can be saved has its hash recorded. When nothing raises, every job is reached. |
| Parser.SmallScanReachesAll | backend/parser.py:189-190 | With at most four jobs per worker, every chunk holds one job, so a raise skips no other job and every job runs. |
| Parser.ScanAllKnown | backend/parser.py:179-191 | A scan whose reached savable files are all known leaves the ledger and the set unchanged. |
| Parser.RescanAddsNothing | backend/parser.py:179-191 | Scanning unchanged files a second time, even after a scan that raised, appends nothing and learns no hash: the same jobs are reached, and those are already known. |
| Hits.Picked | backend/router.py:46-49 | The hit loop raises exactly when a hit is below `-len(metadata)`. Otherwise it reads, in hit order, one in-range entry per hit that passes the guard `idx < len(metadata)`, counting negative hits from the end. |
| Hits.PickedInRange | backend/router.py:46-49 | When every hit names an entry from either end, every hit is read. |
| Router.RouteQuery | backend/router.py:34-68 | `route_query` raises exactly when a hit is below `-len(metadata)`. Otherwise it gives one source `"file [domain]"` per kept hit, in hit order. |
| Router.RouteQueryContext | backend/router.py:46-63 | The chunks joined are one per kept hit, in hit order: chunk `j` is the stripped text of the entry hit `j` names, counting negative hits from the end. The context is their join with `"\n\n---\n\n"`, stripped. |
| Router.Aggregate | backend/router.py:54-66 | One source per picked entry. The context is stripped and the scores do not increase. |
| Router.AggregateContext | backend/router.py:54-63 | The context is the join of the picked entries' stripped texts with `"\n\n---\n\n"`, stripped. When the first and last chunks are non-empty, the final strip removes nothing: the context is exactly those chunks, in order, with the separator between each pair. |
| Router.AggregateScores | backend/router.py:56-59 | Each domain's score is its number of kept hits, and the scores sum to the number of sources. Equal counts keep their first-seen order. |
| Router.AggregateTop | backend/router.py:59-66 | The top domain has the largest count and is the earliest seen among ties, and the score is its count. With no kept hit: domain `"GENERAL"`, score 0, no sources, empty context. |
| Router.AggregateTwoOne | backend/router.py:56-60 | Entries A, A, B give scores A:2, B:1, domain A, score 2. |
| Router.TwoToOneExample | backend/router.py:34-68 | Hits `[0, 0, 1]` over rows A, B give sources A, A, B, scores A:2, B:1, domain A, score 2. |
| Router.AggregateOfCopies | backend/router.py:54-66 | `n` copies of one entry give its source `n` times, its domain, and score `n`. |
| Router.PaddedHitsRepeatLast | backend/router.py:46-49 | As written: a one-entry memory with FAISS padding `[0,-1,-1,-1,-1]` reports that chunk five times with score 5. |
| Router.RouteQueryChecked | backend/router.py:46-49 | Corrected: only hits naming an entry are read, one source each, in order, and it never raises. |
| Router.PaddedHitsChecked | backend/router.py:46-49 | Corrected: the padded hits report the chunk once with score 1. |
| Router.CheckedAgrees | backend/router.py:46-68 | Without negative hits, the corrected router and the router as written give the same result. |
| Router.KeptIsReal | backend/router.py:47-48 | Without negative hits, the guard keeps exactly the hits that name an entry. |
| MetaRouter.LoadCorpus | backend/meta_router.py:23-49 | Texts and metadata are appended together, so the two lists have the same length. Every text is stripped. |
| MetaRouter.LoadCorpusPairs | backend/meta_router.py:27-43 | Entry `i` of both lists comes from the `i`-th loadable `.txt` file in listing order. A file without readable metadata contributes to neither list. |
| MetaRouter.MetaNameOfStem | backend/meta_router.py:30 | For a dot-free stem, replacing `.txt` by `.json` in `stem.txt` gives `stem.json`. |
| MetaRouter.NewIndex | backend/meta_router.py:82-83 | An index is built exactly from a non-empty list of 384-wide rows, and holds those rows. |
| MetaRouter.LoadCache | backend/meta_router.py:73-87 | An index comes back exactly when the file exists, has both the `"embeddings"` and the `"metadata"` key, and its rows are a non-empty list of 384-wide vectors. It then holds exactly those rows, with the cached metadata beside it. Every other case gives `(None, None)`, including a cache without a `"metadata"` key. |
| MetaRouter.CachePartialOnlyOnNull | backend/meta_router.py:73-87 | An index comes back without metadata exactly when the cache's `"metadata"` is `null` and its embeddings load. In every other case both come back or neither does. |
| MetaRouter.CacheRoundTrip | backend/meta_router.py:60-87 | A saved cache of well-formed rows loads back as the same rows and metadata. |
| MetaRouter.Prepare | backend/meta_router.py:93-98 | A usable index is non-empty and 384 wide. |
| MetaRouter.PrepareRebuildsOnFailure | backend/meta_router.py:93-98 | A cache that loads is used unchanged. Otherwise the index is the corpus's embeddings, in order, with the corpus metadata, and the rebuild is saved when the cache file can be written. The rebuild fails exactly when the corpus is empty or a row has the wrong width. |
| MetaRouter.RebuildIsCached | backend/meta_router.py:93-98 | After a saved rebuild, the next query loads the same index and metadata from the cache without rebuilding. |
| MetaRouter.ToHit | backend/meta_router.py:116-125 | The context is the first 2000 characters of the stripped text: a prefix of it, all of it when it fits, and exactly 2000 characters when it does not. |
| MetaRouter.HitLoop | backend/meta_router.py:103-132 | It raises exactly when a hit is below `-len(metadata)`. There are at most as many results as kept hits, and each context is at most 2000 characters. |
| MetaRouter.HitLoopSpec | backend/meta_router.py:104-130 | The loop equals reading, in order, the entries the hits pick: it fails exactly when picking fails, and unreadable documents are dropped, not fatal. |
| MetaRouter.ReadAllAt | backend/meta_router.py:109-127 | Result `j` is built from the `j`-th readable entry: domain, filename and language with their defaults, the reconstructed path, and its text. |
| MetaRouter.RouteSemantically | backend/meta_router.py:90-132 | A failed rebuild fails the query. Otherwise the query runs on the prepared index, and the cache holds what preparation left. |
| MetaRouter.RouteSemanticallyResults | backend/meta_router.py:101-130 | Every result's path is `DATA_DIR\{domain}__{filename}__{language}.txt` of its entry, with defaults. Its context is a prefix of that file's stripped text. Results follow hit order. |
| MetaRouter.Synthesize | backend/meta_router.py:135-156 | The sources are the results' source files, in result order. |
| MetaRouter.SynthesizeCounts | backend/meta_router.py:143-152 | Domain counts sum to the number of results, and each is that domain's number of results. Tag counts sum to the total tags over all results, and each is that tag's number of occurrences. Every counted domain occurs. |
| MetaRouter.SynthesizeContext | backend/meta_router.py:147-155 | The context is every result's context, in result order, with `"\n\n---\n\n"` between each pair and nothing else. So it starts with the first result's context and ends with the last one's. |
| App.ExtractCommandAndQuery | backend/app.py:77-83 | Without a match, the result is `("default", raw, default instruction)`. The instruction always belongs to the mode. The query holds no newline unless it is the raw input. |
| App.MatchIff | backend/app.py:78 | The pattern matches exactly when the input is `/`, one or more word characters, then whitespace. |
| App.ExtractOnMatch | backend/app.py:78-82 | On a match, the input is `/`, the word, the whitespace, the query, then nothing or a newline and the rest: the query stops at the first newline. |
| App.ExtractParts | backend/app.py:78-82 | On a match, the mode is the command word lower-cased, and the query neither starts with whitespace nor holds a newline. |
| App.ModeAndInstruction | backend/app.py:80-82 | The mode is non-empty and lower case. A mode in the table gets its entry. Any other keeps its name and gets the default instruction. |
| App.BareCommand | backend/app.py:78-83 | A bare `"/cmd"` does not match and passes through unchanged. |
| App.PlanFrom | backend/app.py:97-99 | The context is the first 16000 characters of the routed context (`""` when missing): a prefix of it, all of it when it fits, and exactly 16000 characters when it does not. The domain defaults to `"GENERAL"` and the sources to `[]`. |
| App.Ask | backend/app.py:87-99 | The request is refused as empty exactly when the stripped query is empty. A plan's context is at most 16000 characters. |
| App.AskRoutes | backend/app.py:89-99 | A non-empty query is routed with the extracted query. It fails exactly when routing fails. The plan carries the router's domain and sources and the router context cut to 16000 characters. |
| FileWatcher.OnAnyEvent | backend/file_watcher.py:20-35 | The parser starts exactly for a file event at least 10 s after the last trigger, which then becomes that time. Any other event leaves the state alone. |
| FileWatcher.Run | backend/file_watcher.py:20-35 | Over any event sequence, each parser run comes at least 10 s after the one before it. The state holds the last run's time. |
| FileWatcher.TriggersApart | backend/file_watcher.py:27-32 | Runs `i < j` lie at least `(j-i)*10` s apart. |
| FileWatcher.TriggersAreFileEvents | backend/file_watcher.py:23-32 | Every parser run is started by a file event handled at that time. |
| FileWatcher.FirstFileEvent | backend/file_watcher.py:11-12 | From the start, the first file event triggers exactly when it is handled at 10 s or later. |
| FileWatcher.WindowFromLastTrigger | backend/file_watcher.py:26-32 | With a trigger at 100, an event at 105 is ignored and one at 110 still triggers: the window counts from the last trigger, not the last event. |
| FileWatcher.DirectoryEventsIgnored | backend/file_watcher.py:23-24 | A directory event starts nothing and changes nothing. |
| Pipeline.WrittenNameIsRead | backend/meta_router.py:109-113 | The text file name the document router rebuilds from a parsed book's metadata is the one the parser wrote. |
| Pipeline.StemPair | backend/meta_router.py:30 | For dot-free parts, the metadata name the corpus loader derives from the parser's text file is the parser's metadata file. |
| Pipeline.StemDomain | backend/core_memory.py:54 | The indexer's domain for the text file of `{domain}__{base}__{lang}` is `domain`, when the domain holds no `__` and does not end in `_`. |
| Pipeline.WrittenPairLoads | backend/parser.py:146-149 | For a domain and language without dots, the corpus loader pairs the parser's text file with the parser's metadata file. |
| Pipeline.ChunkDomainRecovered | backend/parser.py:146-148 | The indexer recovers the parser's domain from the text file's name, under the same condition on the domain. |

## Left out

- Format extraction (pdfminer, OCR, EPUB and DOCX readers) is the parameter
  `parseFile`. MD5 is the parameter `hashFile`; `None` stands for the open or
  read raising. Language detection is the parameter `detect`, with `"unknown"`
  when it raises.
- The embedder is a parameter. FAISS search is a parameter returning row
  indices. Distances, `round(score, 4)` and the chunk router's floating-point
  work are not modelled. The document results carry no score.
- JSON, JSONL, pickle and `faiss.write_index` serialisation are not modelled. A
  parsed cache file is the `CacheJson` record; a write is a success flag. Writes
  are atomic: a failed write leaves nothing behind.
- The cache's `"metadata"` is modelled as a list or `null`. Other JSON shapes are
  not.
- The order of `os.listdir` is an input sequence.
- The chunk router reads `cerebro.faiss` while the indexer writes
  `cerebro_faiss.index`. This is deployment configuration; the model uses one
  metadata list.
- Parser.ScanAll: runs `starmap`'s chunks one after the other, in job order,
  sharing one hash set. In the pool the chunks run in parallel, and each worker
  process holds its own copy of the set, so two jobs with the same content in
  different workers could both be saved. `starmap` re-raises the first failure
  in completion order; the model reports the first in chunk order. The
  processor count is a parameter.
- Flask routing, prompt formatting, GPT4All inference, query logging, the
  bootstrap subprocess and `auto_rescan_on_start` are not modelled.
  `backend/run_cerebro.py` is not part of this model.
- The watchdog observer, its threads and the parser subprocess are not modelled.
  Only the debounce decision is; time is a real number given with each event.
- Unicode: `isalnum`, `\w` and `str.lower` are modelled on ASCII letters and
  digits only. `str.split()` and `strip()` use Python's full `str.isspace` set,
  and `splitlines` its full set of line boundaries (`Py.IsSpace`,
  `Py.IsLineBreak`). Ledger lines end at `\n` or `\r`, as text-mode reads
  translate line endings. The command pattern's `.` stops only at `\n`.
- The clock is not modelled: `parsed_at` is the ISO time stamp given as
  `Io.now`.
- `os.path.join` and `os.path.splitext` are modelled for plain Windows file
  names. Drive letters and absolute second arguments are not modelled.
- `txt_path.replace(".txt", ".json")` is applied to the file name only. This
  assumes the data directory's path holds no `.txt`, which holds for
  `D:\.COUNCIL\Cerebro\data`.
- `top_k` is not enforced: the search may return any number of hits.
- MetaRouter.LoadCache: does not promise "never a partial pair", because the
  code returns an index without metadata when the cache's `"metadata"` is `null`
  (`MetaRouter.CachePartialOnlyOnNull`).
- CoreMemory.DomainOfStem: requires that the domain not end in `_`, because
  `split("__")` drops that underscore (`CoreMemory.DomainOfTrailingUnderscore`).
- Pipeline.ChunkDomainRecovered: needs the same trailing-underscore condition as
  `CoreMemory.DomainOfStem`.
- Pipeline.WrittenPairLoads: requires a domain and a language without dots. A
  dot in the stem would make `replace(".txt", ".json")` rewrite more than the
  extension.
- MetaRouter.HitLoop: models the guard as written, so FAISS `-1` padding reads
  the last document, as in the chunk router.

## Findings

| source | as written | input that shows it | evidently intended | confidence | as-written member | corrected member |
|---|---|---|---|---|---|---|
| backend/router.py:47 | The guard skips only hits with `idx >= len(metadata)`. FAISS pads missing neighbours with `-1`, which passes the guard, and `metadata[-1]` reads the last entry. The same guard is at backend/meta_router.py:105. | A one-chunk memory asked for 5 neighbours: hits `[0, -1, -1, -1, -1]` report that chunk 5 times with score 5. | Padding is ignored: only `0 <= idx < len(metadata)` is read, so the chunk is reported once with score 1. | medium, not executed | Router.PaddedHitsRepeatLast | Router.RouteQueryChecked |
