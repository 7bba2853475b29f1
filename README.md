# RAG personal memory agent: a verified model of its core

The agent watches a user's files, git repositories and browser history and
records what happens in SQLite tables. An indexer then turns changed files
into text chunks, embeds them and stores one vector per file. A chat loop
answers questions with a prompt built from:

- the session memory;
- the nearest stored vectors;
- recent activity.

This project models that core in Dafny, one module per source file.

- `Utils` (utils.py) covers:
  - the sliding-window chunker, with its closed form;
  - the hex SHA-256 of a text;
  - the extension rule of `is_text_file`.
- `Store` (vectorstore.py) covers:
  - the float32 blob encoding and its round trip;
  - the `vectors` table as a class over a sequence of rows (append-only upsert, delete by path);
  - exact top-k cosine search over abstract scores.
- `LlmClient` (llm_client.py) covers:
  - the SHA-256 stub vector;
  - wrap-around padding of provider vectors;
  - `embed`'s fallback rules;
  - `generate`'s backend choice.
- `Events` covers the `events` table that watcher.py appends to and indexer.py drains:
  - insert;
  - fetch pending, oldest first;
  - mark processed.
- `Indexer` (indexer.py) covers:
  - extractor dispatch;
  - the decision ladder of `process_path`;
  - `process_event_row`;
  - `run_once` as a loop over the fetched batch.
- `Watcher` (watcher.py) covers:
  - the `WATCH_PATHS` and `EXCLUDE_PATTERNS` settings;
  - the file-event filter;
  - the recent-events query.
- `GitWatcher` (git_watcher.py) covers:
  - `git log` line parsing;
  - `repo_name` and `repo_dir`;
  - the de-duplicating insert loop;
  - the pruned repository walk;
  - the per-repository grouping.
- `BrowserHistory` (browser_history.py) covers:
  - the Chrome timestamp conversion;
  - the recency filter;
  - the append to `browser_history`;
  - the `limit` slice.
- `Chat` (chat.py) covers:
  - the bounded session memory;
  - retrieval and snippet truncation;
  - the order in which context documents are assembled;
  - the prompt layout.
- `PyText` and `Ranking` define the Python string operations and the descending sort that the modules share.

## How the outside world is modelled

Each SQLite table is a class field holding a sequence of row records.

Whatever the code cannot compute itself is a parameter of the operation:

- SHA-256 of a text's UTF-8 bytes (`string -> Digest`);
- the embedding provider;
- the file extractors;
- `os.path.exists`;
- the clock;
- `json.dumps`;
- local-time formatting;
- `git log` output;
- the directory tree a walk sees;
- the browser's `urls` table.

Paths follow Windows `os.path` (`ntpath`), the platform the agent targets: both `/` and `\` separate components, and a leading drive letter such as `C:` is split off before the last component is taken.

Cosine similarity is an uninterpreted function on non-zero vectors. Scores are `real`s.

Float32 values are 32-bit patterns. A byte's float32 pattern is computed exactly, and its value is proved to equal the byte.

## Behaviour of the code that the model follows

Where the code and its design notes differ, the model follows the code.

- **The store never replaces rows.** The `vectors` table has no UNIQUE constraint on `path` (vectorstore.py:23-34). `INSERT OR REPLACE` without an id (vectorstore.py:37-44) therefore appends a row each time: re-indexing a file leaves two rows for it. `Store.InsertedAddsOneRow` states this.
- **An unset `EXCLUDE_PATTERNS` blocks every event.** The setting yields the single pattern `""` (watcher.py:10). The empty string is contained in every path, so no file event is ever recorded (`Watcher.EmptyPatternDropsEverything`).
- **`repo_dir` keeps trailing separators.** `repo_dir` is the `dirname` of the path as given (git_watcher.py:100), while `repo_name` strips trailing separators first (git_watcher.py:99). For `parent/name/` the directory is therefore `parent/name`.
- **The indexer's embedding function does not exist.** indexer.py:17 imports `embed` and `get_client` from llm_client, which defines neither. `process_path` therefore gets its pooled embedding from `Env.embedPooled`, an input that gives `embed(chunks)` then the mean, or `None` when that raises.
- **The git-commit source of the chat context does not exist.** `gather_context` calls `git_watcher.get_recent_commits` (chat.py:75), which git_watcher.py does not define. The model takes the list that call would return as an input.
- **`gather_context` builds the session entry before retrieval.** It computes the session entry (chat.py:61-63) before calling retrieval. The model adds that entry to the front once retrieval has succeeded. Nothing between the two has an effect, so the result is the same.
- **Settings read from the environment are parameters.** This covers:
  - `SESSION_MEMORY_SIZE`, `RAG_TOP_K` and `MAX_SNIPPET_CHARS` (chat.py:19-21);
  - `INDEXER_CHUNK_SIZE`, `INDEXER_CHUNK_OVERLAP` and `EMBED_DIM` (indexer.py:25-28);
  - the path lists.

## Model

| member | source | states |
|---|---|---|
| Utils.ChunkText | utils.py:33-42 | The loop returns exactly the closed-form chunk list: `ceil(n/step)` windows `text[k*step : k*step+size]`, or none for empty text. The loop invariant ties the chunks so far to the first windows. |
| Utils.OverlapTooLargeNeverTerminates | utils.py:39-41 | With `overlap >= chunk_size` the index after any number of iterations is still `<= 0 < n`, so the loop never exits on non-empty text. |
| Utils.WindowsAreChunks | utils.py:39-41 | The windows appended over `ceil(n/step)` iterations are the closed-form chunk list. |
| Utils.LoopExitCount | utils.py:39 | The loop stops after exactly `ceil(n/step)` iterations, the least count whose start reaches `n`. |
| Utils.CeilDivUnique | utils.py:39-41 | The chunk count is the unique `k` with `k*step >= n > (k-1)*step`. |
| Utils.ChunkStartsInside | utils.py:39-40 | Every chunk that is appended starts inside the text. |
| Utils.ChunkIsWindow | utils.py:40 | Chunk `k` is `text[start : min(start+size, n)]`. It is non-empty and at most `chunk_size` long, and exactly `chunk_size` long unless it reaches the end. |
| Utils.ChunksAreContiguous | utils.py:37-41 | The first window starts at 0. Each next window starts no later than the previous one ends, and the last one ends at the end of the text. |
| Utils.ChunksCover | utils.py:37-41 | Every index of the text lies in some chunk's window. |
| Utils.EmptyTextHasNoChunks | utils.py:34-35 | Empty text gives no chunks. |
| Utils.DefaultConfigurationExample | utils.py:33-42 | With the indexer's 1200/200 settings, a 2500-character text gives the windows [0,1200), [1000,2200) and [2000,2500). |
| Utils.Sha256OfText | utils.py:7-8 | The hash string is 64 characters long, two per digest byte. |
| Utils.UnhexHex | utils.py:8 | The hex digest decodes back to the digest bytes. |
| Utils.HexDigitRoundTrip | utils.py:8 | Each hex digit decodes to the value it encodes. |
| Utils.SameHashSameDigest | utils.py:7-8 | Equal hash strings mean equal digests: the hex form loses nothing. |
| Utils.Ext | utils.py:16 | The extension is empty or a dot-led suffix of the path. |
| Utils.ExtOfSuffix | utils.py:16 | A name ending in `.ext`, with a stem that does not end in a dot or separator, has extension `.ext`. |
| Utils.IsTextFile | utils.py:10-17 | A `text/` MIME type makes a file text, an empty MIME type does not, and without a MIME type only a file with an extension can be text. |
| Utils.FallbackIgnoresCase | utils.py:15-17 | Without a MIME type, a file is text exactly when its lower-cased extension is one of the seven listed. |
| Store.ToBytes | vectorstore.py:9-10 | The blob has 4 bytes per element. |
| Store.F32Bytes | vectorstore.py:9-10 | One float32 is 4 bytes. |
| Store.F32RoundTrip | vectorstore.py:9-13 | The 4 little-endian bytes of a float32 decode back to it. |
| Store.FromBytes | vectorstore.py:12-13 | A blob decodes iff its length is a multiple of 4, into one value per 4 bytes. |
| Store.FromBytesToBytes | vectorstore.py:9-13 | `from_bytes(to_bytes(v)) == v`. |
| Store.FromBytesLength | vectorstore.py:12-13 | A blob decodes exactly when its length is a multiple of 4, into a quarter as many values. |
| Store.SerializeMetadata | vectorstore.py:43 | Missing or empty metadata is stored as `{}`, other metadata as its JSON dump. |
| Store.Inserted | vectorstore.py:37-44 | The insert keeps every earlier row and adds one row with the path, content and the vector's blob. |
| Store.InsertedAddsOneRow | vectorstore.py:23-44 | Upsert appends one row with the given fields, its embedding decoding to the vector. The id is above all others and earlier rows are unchanged, so a path's row count goes up by one even when the path is already stored. |
| Store.WithoutPath | vectorstore.py:64-67 | Delete keeps no row with the path and never adds rows. |
| Store.WithoutPathRemovesExactly | vectorstore.py:64-67 | Delete removes exactly the rows with that path and keeps all others. |
| Store.WithoutPathKeepsIds | vectorstore.py:64-67 | Deletion keeps ids increasing and positive. |
| Store.WithoutAbsentPath | vectorstore.py:64-67 | Deleting a path no row has changes nothing. |
| Store.Score | vectorstore.py:58-60 | A zero query or a zero stored vector scores 0, because the denominator is floored. |
| Store.DecodeAll | vectorstore.py:46-49 | Each row's vector is its decoded blob, in table order. Decoding fails iff some blob is malformed. |
| Store.AllHits | vectorstore.py:60-62 | One scored hit per row. |
| Store.SearchRows | vectorstore.py:51-62 | Search fails only on a non-empty table. |
| Store.SearchEmptyTable | vectorstore.py:53-54 | Search on an empty table returns `[]`. |
| Store.SearchFailsIff | vectorstore.py:55-60 | Search fails iff a blob is malformed, the stored vectors differ in length, or the query's length differs. |
| Store.SearchIsTopK | vectorstore.py:61-62 | Search returns `min(N, top_k)` hits (Python slice semantics for a negative `top_k`), in non-increasing score order. The hits are drawn from the rows' hits, and none left out scores higher. |
| Store.SearchIsSortedPrefix | vectorstore.py:61 | The result is the first `k` hits of the descending sort. |
| Store.SearchHitsComeFromRows | vectorstore.py:62 | Every hit carries one stored row's id, path, content and timestamp and that row's score. |
| Store.ZeroQueryScoresZero | vectorstore.py:58-60 | A zero query scores every hit 0. |
| Store.VectorStore.constructor | vectorstore.py:16-34 | A new store is empty and valid. |
| Store.VectorStore.Upsert | vectorstore.py:37-44 | Without a database fault the table becomes the appended table, and the id invariant is kept. A fault changes nothing and is reported. |
| Store.VectorStore.DeleteByPath | vectorstore.py:64-67 | The table becomes the rows without the path, and the invariant is kept. |
| Store.VectorStore.AllEmbeddings | vectorstore.py:46-49 | Each entry carries its row's id, path, content and timestamp and decoded vector. The call fails iff a blob is malformed. |
| Store.VectorStore.Search | vectorstore.py:51-62 | Search returns `[]` on an empty table, and otherwise the top-k result of the rows. |
| Ranking.SortDescCorrect | vectorstore.py:61 | The descending sort (argsort reversed) is a permutation in non-increasing key order. |
| Ranking.TopOfSorted | vectorstore.py:61 | A prefix of the sorted list is ordered, drawn from the input, and dominates what is left out. |
| Ranking.PrefixDominates | vectorstore.py:61 | In a non-increasing list, no element after the prefix has a larger key than one in it. |
| Ranking.InsertPermutes | vectorstore.py:61 | Insertion adds exactly one element. |
| Ranking.InsertSorted | vectorstore.py:61 | Insertion into a sorted list keeps it sorted. |
| LlmClient.ByteToFloat32Exact | llm_client.py:79 | The float32 pattern of a byte denotes exactly that byte's value. |
| LlmClient.ByteToFloat32Injective | llm_client.py:79 | Different bytes give different float32 values. |
| LlmClient.WrapPad | llm_client.py:40 | Wrap padding has length `n`, and entry `i` is `v[i mod len(v)]`. |
| LlmClient.StubVector | llm_client.py:76-82 | The stub vector has 3072 entries, and entry `i` is digest byte `i mod 32` as a float32. |
| LlmClient.StubVectorDeterminedByDigest | llm_client.py:76-82 | Two texts get the same stub vector iff their digests are equal. |
| LlmClient.StubVectorDenotesDigest | llm_client.py:78-82 | Each stub entry denotes the value of its digest byte. |
| LlmClient.ShapeProviderVector | llm_client.py:39-42 | A provider vector is kept iff `0 < len <= 3072`, and then has 3072 entries. |
| LlmClient.ShapeProviderVectorWraps | llm_client.py:38-42 | A provider vector is accepted iff `0 < len <= 3072`, and then becomes its wrap-around extension. A vector of length 3072 is kept unchanged. |
| LlmClient.EmbedOne | llm_client.py:35-44 | Every embedding has 3072 entries, and without a usable Gemini backend it is the stub vector. |
| LlmClient.EmbedOneShape | llm_client.py:33-45 | Every embedding has 3072 entries. Without a usable Gemini backend, or when the provider fails, it is the stub vector. Otherwise it is the wrapped provider vector. |
| LlmClient.GenerateReply | llm_client.py:51-71 | An empty reply comes only from a usable backend. |
| LlmClient.StubReplyWithoutBackend | llm_client.py:51-71 | With no usable backend the reply is the stub prefix followed by the whole prompt. A raising Gemini call gives `[Gemini Error] ` plus the message, and a raising Ollama call `[Ollama Error] ` plus the message. |
| LlmClient.ResolveBackend | llm_client.py:23 | A non-empty override wins. The backend is empty only when `LLM_BACKEND` is set to the empty string. |
| LlmClient.ModuleNames | llm_client.py:6-21 | The module binds the class and `VECTOR_DIM`, and binds `genai` iff the Gemini library imported. |
| LlmClient.LLMClient.constructor | llm_client.py:22-26 | The backend is the override, or `LLM_BACKEND`, or "gemini". Gemini is usable iff the library imported and the key is non-empty. |
| LlmClient.LLMClient.Embed | llm_client.py:31-46 | `embed` returns one vector per text, in order, each of length 3072 and equal to that text's embedding. |
| LlmClient.LLMClient.Generate | llm_client.py:51-71 | The reply follows the backend ladder. With no usable backend it is the stub reply. |
| Events.Pending | indexer.py:72 | The pending rows are exactly the rows not processed. |
| Events.PendingKeepsOrder | indexer.py:72 | The pending rows keep id order. |
| Events.FetchPendingIsOldestFirst | indexer.py:70-73 | Fetch returns only unprocessed rows, in increasing id order, as a prefix of all pending rows, and `min(limit, #pending)` of them (all of them for a negative limit). |
| Events.Marked | indexer.py:75-78 | Marking keeps the number of rows. |
| Events.MarkedChangesOnlyThatRow | indexer.py:75-78 | Marking sets `processed` on the row with that id and leaves every other field and row as it was. |
| Events.MarkedIdempotent | indexer.py:75-78 | Marking twice is marking once. |
| Events.MarkedUnknownId | indexer.py:75-78 | Marking an unknown id changes nothing. |
| Events.MarkedLeavesPending | indexer.py:75-78 | After marking, no pending row has that id. |
| Events.MarkedAll | indexer.py:119-125 | Marking a list of ids keeps the number of rows. |
| Events.MarkedAllMarksExactly | indexer.py:119-125 | Marking a list of ids marks exactly the rows with one of those ids. |
| Events.MarkedAllLeavesNonePending | indexer.py:119-125 | None of the marked ids stays pending. |
| Events.IdsOf | indexer.py:109 | The ids of the rows, in order. |
| Events.EventTable.constructor | watcher.py:14-27 | A new table is empty with no id handed out. |
| Events.EventTable.Insert | watcher.py:29-33 | Insert appends one unprocessed row with the next id. |
| Events.EventTable.FetchPending | indexer.py:70-73 | Fetch returns only unprocessed rows of the table, at most `limit` of them. |
| Events.EventTable.MarkProcessed | indexer.py:75-78 | The table becomes the marked table, with the id counter unchanged. |
| Indexer.ExtractTextForPath | indexer.py:42-48 | Non-empty text is exactly what the extractor picked for the path returned. |
| Indexer.DispatchByLoweredExtension | indexer.py:42-44 | Extensions equal up to case pick the same extractor. An unlisted extension picks `read_text_file`. |
| Indexer.DispatchPdfAndDocx | indexer.py:30-44 | The PDF extractor is picked iff the lowered extension is `.pdf`, and the Word extractor iff it is `.docx`. |
| Indexer.ExtractFailuresGiveEmptyText | indexer.py:45-48 | An extractor that raises or returns None gives `""`. Otherwise its text is used unchanged. |
| Indexer.Summary | indexer.py:99 | The summary is the text itself up to 800 characters, and otherwise its first 800 characters plus "...". |
| Indexer.Zeros | indexer.py:97 | The fallback vector has `EMBED_DIM` entries, all zero. |
| Indexer.Decide | indexer.py:80-100 | A skip is "missing" or "no_text", and a write happens only for a path that exists. |
| Indexer.EffectiveTimestamp | indexer.py:100 | The timestamp is now or the given one, and is zero only when now is. |
| Indexer.DecideLadder | indexer.py:80-85 | The decision is "missing" iff the path does not exist, "no_text" iff it exists with empty text, and a write iff it exists with text. |
| Indexer.DecideWrite | indexer.py:86-100 | A write carries the hex SHA-256 of the whole text and the 800-character summary. Its timestamp is `ts`, or now when `ts` is missing or zero. Its vector is the pooled embedding of the chunks, or zeros when embedding failed. |
| Indexer.ImportOfEmbedFails | indexer.py:17 | `from llm_client import embed, get_client` raises `ImportError` on `embed`, and `get_client` is not bound either, whether or not the Gemini library imported. |
| Indexer.NonEmptyTextHasChunks | indexer.py:87-89 | Non-empty text always has chunks, so the `[text[:CHUNK_SIZE]]` fallback is never used. |
| Indexer.OutcomeMatchesStore | indexer.py:101-106 | `process_path` reports success iff it added a row, exactly one for the path. Otherwise the table is unchanged, and an upsert fault is reported as `upsert_error:` plus the message. |
| Indexer.DecidePath | indexer.py:81-100 | Existence check, extraction, hashing, chunking, embedding, summary and timestamp compute the ladder's decision. |
| Indexer.Indexer.constructor | indexer.py:51-55 | The indexer holds the two tables and settings with a positive chunk step. |
| Indexer.Indexer.FetchPendingEvents | indexer.py:70-73 | The indexer's fetch is the oldest-first pending fetch. |
| Indexer.Indexer.MarkEventProcessed | indexer.py:75-78 | The indexer's mark is `Marked` on the events table. |
| Indexer.Indexer.ProcessPath | indexer.py:80-106 | The return value and the new vector table are those of the ladder's decision and the upsert's fault. |
| Indexer.Indexer.ProcessEventRow | indexer.py:108-113 | The row's path is processed with its timestamp, and the row is marked processed whatever the outcome. |
| Indexer.Indexer.RunOnce | indexer.py:115-126 | `run_once` returns the number fetched, marks exactly the fetched ids, and leaves the store as after processing each fetched row in turn. |
| Indexer.BatchStep | indexer.py:119-125 | One more iteration marks one more id and processes one more row. |
| Indexer.RunOnceDrainsBatch | indexer.py:115-126 | After `run_once`, no fetched row is pending. At most `batch_size` rows are fetched, and none iff nothing was pending. |
| Watcher.ParsePathList | watcher.py:9 | Every entry is non-empty and stripped. |
| Watcher.StrippedNonEmpty | watcher.py:9 | Every entry is non-empty and already stripped. |
| Watcher.ParsePathListEntries | watcher.py:9 | The list holds exactly the stripped non-blank pieces. |
| Watcher.StripIdempotent | watcher.py:9 | Stripping twice is stripping once. |
| Watcher.UnsetPathListIsEmpty | watcher.py:9 | An unset path list is empty. |
| Watcher.ParseExcludePatterns | watcher.py:10 | There is one pattern per comma-separated piece, and none is dropped. |
| Watcher.EmptyPieceGivesEmptyPattern | watcher.py:10 | An unset setting, or any blank piece, yields the empty pattern. |
| Watcher.EmptyPatternDropsEverything | watcher.py:50-51 | With an empty pattern no event is recorded. |
| Watcher.ShouldRecord | watcher.py:46-53 | A recorded event's lower-cased path contains none of the patterns. |
| Watcher.FilterRules | watcher.py:46-53 | Directory events are never recorded. Exclusion ignores letter case, but the `.db` suffix test does not, so `.DB` files are recorded. |
| Watcher.FileChangeHandler.constructor | watcher.py:10 | The handler's patterns are the parsed setting. |
| Watcher.FileChangeHandler.OnAnyEvent | watcher.py:46-54 | A passing event appends one unprocessed row stamped now, with the id counter advanced by one and that new id on the row. Any other event leaves the table unchanged. |
| Watcher.RecentFileEvents | watcher.py:35-40 | The result is one rendered line per selected row, in order. |
| Watcher.NewestEvents | watcher.py:38 | At most `limit` rows are selected (for a non-negative limit), and never more than the table holds. |
| Watcher.NewestEventsAreNewest | watcher.py:38 | At most `limit` rows are selected (all rows for a negative limit), newest first, drawn from the table. No row left out is newer than a selected one. |
| GitWatcher.AutoDiscoverCases | git_watcher.py:15 | Auto-discovery is on when unset, and for a set value iff it is the four letters of "true", each in either case. It is off for the empty value. |
| GitWatcher.SplitMax | git_watcher.py:68 | Splitting at most 3 times on the bar gives between 1 and 4 pieces. |
| GitWatcher.SplitMaxPiecesFree | git_watcher.py:68 | Every piece but the last is free of the bar. |
| GitWatcher.SplitMaxCount | git_watcher.py:68 | There are `min(3, count) + 1` pieces. |
| GitWatcher.SplitMaxJoin | git_watcher.py:68 | Joining the pieces with the bar gives the line back. |
| GitWatcher.ParseLine | git_watcher.py:68-75 | A parsed commit's hash, author and date hold no bar. |
| GitWatcher.ParseLineIff | git_watcher.py:68-75 | A line is a commit iff it holds at least three bars. Its hash, author and date are then bar-free, and laying the commit out again gives the line. |
| GitWatcher.FormatThenParse | git_watcher.py:63-75 | Parsing the bar-separated hash, author, date and subject layout of a commit gives it back, whatever its message holds. |
| GitWatcher.FirstBreak | git_watcher.py:67 | The first line boundary is found, and none comes before it. |
| GitWatcher.SplitLines | git_watcher.py:67 | `splitlines()` gives lines free of boundaries. |
| GitWatcher.SplitLinesOfTerminated | git_watcher.py:67 | Newline-terminated lines split back into those lines. |
| GitWatcher.ParsedCommits | git_watcher.py:66-76 | At most one commit per line. |
| GitWatcher.ParsedCommitsFromLines | git_watcher.py:66-76 | A commit is listed iff some line parses to it. |
| GitWatcher.GetCommitHistory | git_watcher.py:60-78 | A failing `git log` gives `[]`. Otherwise the result is the parsed commits of its lines. |
| GitWatcher.SplitDrive | git_watcher.py:99-100 | The drive (at most 2 characters) and the rest make up the path. |
| GitWatcher.AfterLastSep | git_watcher.py:99-100 | The split point lies just after the last separator. |
| GitWatcher.RepoName | git_watcher.py:99 | `repo_name` holds no separator. |
| GitWatcher.RepoNameOfChild | git_watcher.py:99 | The name of `parent`, a separator (`/` or `\`) and `name`, followed by any separators, is `name`. |
| GitWatcher.RepoDirOfChild | git_watcher.py:100 | The directory of `parent`, a separator (`/` or `\`) and `name` is `parent`, when `parent` is not a bare drive and does not end in a separator. |
| GitWatcher.RepoDirOfTrailingSeparator | git_watcher.py:100 | The directory of `parent`, a separator, `name` and a trailing separator (each `/` or `\`) is everything before the trailing one, not `parent`. |
| GitWatcher.LogCommits | git_watcher.py:96-105 | The loop only appends to the table. |
| GitWatcher.LogCommitsRecordsAll | git_watcher.py:96-105 | After the loop every commit of the repository is in the table. |
| GitWatcher.LogCommitsKeepsPairsUnique | git_watcher.py:97-98 | No (hash, repo) pair gets a second row. |
| GitWatcher.LogCommitsAddsOnlyNew | git_watcher.py:97-104 | Each added row is a commit the table did not hold, with its repo name and directory, stamped by the clock. |
| GitWatcher.LogCommitsSkipsKnown | git_watcher.py:97-98 | Known commits are skipped. |
| GitWatcher.RescanInsertsNothing | git_watcher.py:94-105 | Scanning an unchanged repository again inserts nothing. |
| GitWatcher.Discover | git_watcher.py:46-55 | A directory with a `.git` child is recorded first, before anything below it. |
| GitWatcher.DiscoverSound | git_watcher.py:46-55 | Every recorded path is a directory with a `.git` child, reached without entering a pruned directory. |
| GitWatcher.DiscoverComplete | git_watcher.py:46-55 | Every such directory is recorded, nested repositories included. |
| GitWatcher.ReposToScan | git_watcher.py:85-88 | Every `GIT_WATCH_PATHS` entry is scanned. |
| GitWatcher.ReposToScanIff | git_watcher.py:85-88 | A repository is scanned iff it is listed in `GIT_WATCH_PATHS`, or auto-discovery is on and it is found under some `WATCH_PATHS` entry. |
| GitWatcher.CommitTable.constructor | git_watcher.py:23-41 | A new commit table is empty. |
| GitWatcher.CommitTable.HasCommit | git_watcher.py:97-98 | The lookup finds a row iff one has that hash and repository. |
| GitWatcher.CommitTable.LogRepo | git_watcher.py:96-105 | The table becomes the result of the insert loop. |
| GitWatcher.CommitTable.LogRepos | git_watcher.py:94-105 | Every commit of every repository is in the table afterwards. Every added row is a clock-stamped commit of one of them. |
| GitWatcher.CommitTable.ScanAndLog | git_watcher.py:83-105 | The same, over the repositories the settings select. |
| GitWatcher.ScanStep | git_watcher.py:94-105 | Logging one more repository keeps both facts. |
| GitWatcher.RowsOf | git_watcher.py:117-121 | One repository's rows are a subsequence of the table. |
| GitWatcher.CommitLines | git_watcher.py:118 | There is one `[date] name: message` line per row. |
| GitWatcher.Grouped | git_watcher.py:114-121 | No repository is listed with an empty list, and the last row's repository is listed. |
| GitWatcher.GroupedKeys | git_watcher.py:117-121 | The keys are exactly the repositories with rows. |
| GitWatcher.GroupedLists | git_watcher.py:117-121 | Each list renders that repository's rows, in query order. |
| GitWatcher.RowsOfAbsent | git_watcher.py:117-121 | A repository with no rows has none listed. |
| GitWatcher.RowsOfCountsEachRowOnce | git_watcher.py:117-121 | Each row is listed exactly once, under its own repository. |
| GitWatcher.RowsOfNewestFirst | git_watcher.py:116 | Within one repository, the listed rows stay newest first. |
| GitWatcher.GroupByRepo | git_watcher.py:114-123 | The grouping loop builds the grouping of the query's rows. |
| BrowserHistory.ChromeToUnix | browser_history.py:27-28 | The conversion gives whole seconds since 1970, truncated toward zero. |
| BrowserHistory.ChromeToUnixTowardZero | browser_history.py:28 | Half a second before the epoch converts to 0, where floor division gives -1. |
| BrowserHistory.NewestRows | browser_history.py:23 | At most 200 rows are read, and never more than the table holds. |
| BrowserHistory.NewestRowsAreNewest | browser_history.py:23 | At most 200 rows are read, newest first, drawn from the table. No unread row is newer than one that is read. |
| BrowserHistory.Recent | browser_history.py:30-34 | The filter keeps at most as many entries as rows. |
| BrowserHistory.KeptPositions | browser_history.py:30-34 | The kept positions are indices of rows. |
| BrowserHistory.RecentKeepsReadOrder | browser_history.py:30-34 | The filter keeps exactly the recent rows, in read order. |
| BrowserHistory.RecentAtKeptPositions | browser_history.py:30-34 | Entry `k` comes from the `k`-th kept row. |
| BrowserHistory.KeptPositionsIncrease | browser_history.py:30-34 | The kept positions increase. |
| BrowserHistory.IsRecent | browser_history.py:33 | A visit no earlier than now is recent for any non-negative day count. |
| BrowserHistory.KeptPositionsAreRecent | browser_history.py:33 | A position is kept iff its row is recent. |
| BrowserHistory.FilterRecent | browser_history.py:30-34 | The loop collects the filtered entries. |
| BrowserHistory.RenderAll | browser_history.py:51 | There is one rendered line per entry. |
| BrowserHistory.AppendedRows | browser_history.py:46-47 | There is one row per entry, in order, with the ids after the last one handed out. |
| BrowserHistory.HistoryTable.constructor | browser_history.py:38-45 | A new history table is empty. |
| BrowserHistory.HistoryTable.AppendAll | browser_history.py:46-48 | The insert loop appends the entries' rows in order. |
| BrowserHistory.HistoryTable.FetchRecentHistory | browser_history.py:12-51 | A missing history file gives `[]` with no write. Otherwise the recent entries are appended and rendered. |
| BrowserHistory.HistoryTable.GetRecentBrowserHistory | browser_history.py:53-55 | The result is the first `limit` rendered entries, with the table updated as by the fetch. |
| BrowserHistory.HistoryLimitIsPrefix | browser_history.py:55 | `entries[:limit]` is a prefix of length `min(limit, n)`. A negative limit drops that many entries from the end. |
| Chat.AddedToSession | chat.py:28-31 | Adding below the cap appends. A memory within the cap stays within it. |
| Chat.OverflowDropsOldest | chat.py:29-31 | Adding to a full memory drops exactly the oldest exchange. |
| Chat.Replay | chat.py:28-31 | The memory never exceeds the cap. |
| Chat.ReplayKeepsMostRecent | chat.py:28-31 | After any run of additions the memory is the last `min(n, cap)` exchanges, oldest first. |
| Chat.Session.constructor | chat.py:26 | The session memory starts empty. |
| Chat.Session.AddToSession | chat.py:28-31 | `add_to_session` appends the exchange and drops the oldest past the cap, keeping the memory equal to the most recent exchanges. |
| Chat.RenderedExchanges | chat.py:34 | There is one `User:/Assistant:` block per exchange. |
| Chat.SessionContext | chat.py:33-34 | An empty memory gives an empty context, and one exchange gives that exchange's block alone. |
| Chat.SessionContextEmptyIff | chat.py:33-34 | The session context is empty iff the memory is. |
| Chat.SessionContextSnoc | chat.py:34 | A newer exchange is rendered after the older ones, on a new line. |
| Chat.Snippet | chat.py:51-53 | Content over the cap is cut to the cap plus "...". Other content is unchanged. |
| Chat.HitsOf | chat.py:48-54 | There is one hit per search result, in order. |
| Chat.MapHits | chat.py:48-55 | The loop builds those hits. |
| Chat.Retrieved | chat.py:45-55 | Retrieval succeeds iff the store search does. |
| Chat.RetrievedIsRanked | chat.py:45-55 | Retrieved hits keep the search ranking and number at most `top_k`. |
| Chat.SemanticRetrieve | chat.py:45-55 | Retrieval searches the store with the query's embedding. |
| Chat.HitDocs | chat.py:67-68 | There is one document per hit. |
| Chat.Tagged | chat.py:71-80 | There is one tagged document per item. |
| Chat.AssembledContext | chat.py:57-82 | There is one document per hit, event, commit and browser line, plus one for a non-empty session. |
| Chat.ContextLayout | chat.py:57-82 | The session entry comes first, present iff the memory is non-empty. Then come hits, file events, commits and browser entries, each in its own order. |
| Chat.AppendTagged | chat.py:71-80 | The loop appends the tagged items. |
| Chat.AppendHits | chat.py:67-68 | The loop appends the hits' documents. |
| Chat.AppendSources | chat.py:61-80 | The assembled documents, with the browser table appended to as by the fetch. |
| Chat.GatherContextAsWritten | chat.py:57-82 | As written, a failing search is raised, and a `git_watcher` without `get_recent_commits` raises `AttributeError` before the browser history is read. Only with that attribute is the context assembled. |
| Chat.GatherContextAsWrittenRaises | chat.py:74-76 | With the names git_watcher.py actually binds, every call raises, and a call whose search succeeds raises `AttributeError` for `get_recent_commits`. |
| Chat.GatherContext | chat.py:57-82 | A failing search is returned with no browser write. Otherwise the documents are assembled from the session, hits, recent events, commits and browser lines. |
| Chat.Prompt | chat.py:84-87 | The prompt's length is that of the instruction, the context text, the query heading and the query together. |
| Chat.RenderedDocs | chat.py:86 | There is one `Source:` block per document. |
| Chat.PromptFrame | chat.py:87 | Every prompt opens with the instruction and ends with the query under its heading. |
| Chat.PromptWithoutContext | chat.py:87 | Without documents the prompt is the instruction directly followed by the query. |
| Chat.ContextTextSnoc | chat.py:86 | A further document adds one blank-line-separated block. |
| Chat.GenerateReply | chat.py:84-88 | The reply is generated for the prompt built from the gathered context, or is the search error. |
| PyText.PySlice | browser_history.py:55 | Python slicing, including negative bounds. |
| PyText.Limit | indexer.py:72 | SQL `LIMIT`: a prefix, with a negative limit meaning no limit. |
| PyText.SplitJoin | watcher.py:9-10 | Splitting on a character and joining gives the text back. |
| PyText.SplitCount | watcher.py:9-10 | There is one more piece than separators. |
| PyText.Strip | watcher.py:9-10 | `strip()` gives an infix of the text. Everything it removes before and after is whitespace (space, tab, line feed, carriage return, vertical tab, form feed, and the separators 0x1c-0x1f), and a non-empty result neither starts nor ends with whitespace. |
| PyText.FromImport | indexer.py:17 | `from m import a, b` succeeds iff every name is bound in `m`. Otherwise it raises `ImportError` on a missing name, the first one when that one is missing. |
| PyText.JoinEmptyIff | chat.py:34 | A join of non-empty parts is empty iff there are no parts. |
| PyText.JoinSnoc | chat.py:34 | Joining one more part appends the separator and the part. |

## Left out

- I/O is not modelled: SQLite connections, commits and schema creation, the temporary copy of the browser database, `os.walk` failures and `followlinks`, and the watchdog observer and thread.
- The indexer and watcher polling loops (`Indexer.loop`, the watcher's and git watcher's `__main__` loops) and `chat.main`'s command-line loop only repeat the modelled operations or do I/O.
- `Indexer.reindex_all_vectors` (indexer.py:128-137) is not modelled. It only re-runs `process_path` over stored paths, an operation the model already covers.
- `read_text_file`, the PDF and DOCX extractors and `magic.from_file` are inputs, because they read files.
- SHA-256, UTF-8 encoding, the embedding provider, the Gemini and Ollama calls, `json.dumps`, `time.time` and `strftime` are inputs, because they are foreign code.
- Mean pooling and cosine similarity are floating-point arithmetic. They are inputs (`Env.embedPooled`, the `cosine` function), and scores are reals.
- `Utils.ChunkText`: requires `overlap < chunk_size`. As written, the source loops forever otherwise (see Findings).
- `Indexer.Indexer.RunOnce`: the `except` branch of `run_once` (indexer.py:123-125) is not reached in the model. `process_event_row` has no failure path here because database errors are not modelled. `process_path`'s own failures are returned values.
- `Store.VectorStore.Search`: `np.argsort` breaks score ties in its own order. The model's insertion sort breaks them differently, and the top-k lemmas state only what holds for any tie order.
- `Watcher.NewestEventsAreNewest`: SQLite's order among equal timestamps is unspecified. The lemma states only tie-independent facts.
- `BrowserHistory.NewestRowsAreNewest`: the same holds for equal visit times.
- `BrowserHistory.ChromeToUnix`: the true division rounds to a double before `int()`. The model divides exactly, which differs only for timestamps beyond 2^53 microseconds.
- `BrowserHistory.HistoryTable.FetchRecentHistory`: `time.time()` is read once per call rather than once per row. NULL titles and URLs are not modelled.
- `GitWatcher.CommitTable.LogRepo`: the clock is indexed by the number of rows in the table, standing for the time of each insert. The AUTOINCREMENT id column, which nothing reads, is not kept.
- `GitWatcher.CommitTable.ScanAndLog`: the order of iteration over the repository set is unspecified, and the contract is independent of it. Only `CalledProcessError` from `git log` is modelled, not a missing `git` executable.
- `GitWatcher.RepoName`: only drive-letter paths are modelled, not UNC paths (`\\server\share`).
- `GitWatcher.GroupByRepo`: the model uses a map, so the result does not keep the key insertion order of the Python dict.
- `PyText.Strip`: `str.strip`, `str.lower` and `str.upper` are modelled on ASCII only. Non-ASCII whitespace such as U+0085 and U+00A0 is not removed, and non-ASCII letters keep their case.
- `Indexer.Indexer.RunOnce`: one `Env` serves the whole batch. So `now`, `pathExists`, the extractors and the upsert fault are each a fixed function of the path for the batch, while the source reads `time.time()` and the file system again in each `process_path` call.
- `Indexer.Zeros`: a negative `EMBED_DIM`, for which `np.zeros` raises, is not modelled; the dimension is a `nat`.
- `Store.VectorStore.Upsert`: the vector's length is not checked against any dimension, as in the source.
- `Chat.GatherContext`: `git_watcher.get_recent_commits` does not exist, so the commit lines are an input.

## Findings

| source | as written | input that shows it | evidently intended | confidence | as-written member | corrected member |
|---|---|---|---|---|---|---|
| indexer.py:17 | `from llm_client import embed, get_client`, where llm_client.py defines neither name (only the class `LLMClient`) | importing indexer.py at all | `process_path` embeds the chunks with the client's `embed` and mean-pools them | not executed | Indexer.ImportOfEmbedFails | Indexer.DecideWrite |
| chat.py:75 | `git_watcher.get_recent_commits(limit=5)`, a function git_watcher.py does not define | any query whose search succeeds: `AttributeError` is raised after the file events and before the browser history is read | the recent commits are added to the context, and then the browser lines | not executed | Chat.GatherContextAsWrittenRaises | Chat.GatherContext |
| utils.py:39-41 | the index advances by `chunk_size - overlap` with no check that the step is positive | `chunk_text("a", chunk_size=200, overlap=200)`: the step is 0, `i` stays 0 and the loop appends forever | reject or avoid `overlap >= chunk_size`, so the loop terminates and returns `ceil(n/step)` windows | not executed | Utils.OverlapTooLargeNeverTerminates | Utils.ChunkText |
