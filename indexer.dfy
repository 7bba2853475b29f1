// indexer.py: extractor dispatch, the per-file indexing decision ladder,
// and the batch loop that drains the events queue into the vector store.

module Indexer {
  import opened PyText
  import opened Utils
  import opened Store
  import opened Events
  import LlmClient

  // ---------------------------------------------------------------------------
  // Extractor dispatch

  /** The extractor functions `SUPPORTED` maps to. */
  datatype Extractor = ReadTextFile | ExtractPdfText | ExtractDocxText

  /** `SUPPORTED`: lower-case extension to extractor. */
  const SUPPORTED: map<string, Extractor> := map[
    ".txt" := ReadTextFile, ".md" := ReadTextFile, ".py" := ReadTextFile, ".js" := ReadTextFile,
    ".json" := ReadTextFile, ".csv" := ReadTextFile, ".html" := ReadTextFile,
    ".pdf" := ExtractPdfText, ".docx" := ExtractDocxText]

  /** What calling an extractor on a path did: returned a string, returned
      `None`, or raised. */
  datatype ExtractOutcome = Returned(text: string) | ReturnedNone | Raised

  /** `SUPPORTED.get(ext, read_text_file)` on the lowered extension. */
  function ExtractorFor(path: string): Extractor {
    var ext := Lower(Ext(path));
    if ext in SUPPORTED then SUPPORTED[ext] else ReadTextFile
  }

  /** `extract_text_for_path(path)`: `fn(path) or ""`, and "" when `fn`
      raises. */
  function ExtractTextForPath(path: string, extract: (Extractor, string) -> ExtractOutcome): (r: string)
    ensures r != "" ==> extract(ExtractorFor(path), path) == Returned(r)
  {
    match extract(ExtractorFor(path), path)
    case Returned(t) => t
    case ReturnedNone => ""
    case Raised => ""
  }

  /** Dispatch depends only on the extension up to case: ".PDF" and ".pdf"
      pick the same extractor, and an extension `SUPPORTED` does not list
      picks `read_text_file`. */
  lemma DispatchByLoweredExtension(p: string, q: string)
    ensures Lower(Ext(p)) == Lower(Ext(q)) ==> ExtractorFor(p) == ExtractorFor(q)
    ensures Lower(Ext(p)) !in SUPPORTED ==> ExtractorFor(p) == ReadTextFile
  {
  }

  /** Only `.pdf` picks the PDF extractor and only `.docx` the Word one. */
  lemma DispatchPdfAndDocx(p: string)
    ensures ExtractorFor(p) == ExtractPdfText <==> Lower(Ext(p)) == ".pdf"
    ensures ExtractorFor(p) == ExtractDocxText <==> Lower(Ext(p)) == ".docx"
  {
    var ext := Lower(Ext(p));
    if ext in SUPPORTED {
      SupportedTextKeys(ext);
    }
  }

  lemma SupportedTextKeys(ext: string)
    requires ext in SUPPORTED
    ensures ext == ".pdf" || ext == ".docx" || SUPPORTED[ext] == ReadTextFile
    ensures ext == ".pdf" ==> SUPPORTED[ext] == ExtractPdfText
    ensures ext == ".docx" ==> SUPPORTED[ext] == ExtractDocxText
  {
  }

  /** An extractor that raises or returns `None` yields the empty text;
      otherwise the extractor's text is used unchanged. */
  lemma ExtractFailuresGiveEmptyText(path: string, extract: (Extractor, string) -> ExtractOutcome)
    ensures extract(ExtractorFor(path), path).Returned? ==>
              ExtractTextForPath(path, extract) == extract(ExtractorFor(path), path).text
    ensures !extract(ExtractorFor(path), path).Returned? ==> ExtractTextForPath(path, extract) == ""
  {
  }

  // ---------------------------------------------------------------------------
  // Configuration and the outside world

  /** `INDEXER_CHUNK_SIZE`, `INDEXER_CHUNK_OVERLAP` and `EMBED_DIM`. */
  datatype Config = Config(chunkSize: int, overlap: int, embedDim: nat)

  const DEFAULT_CONFIG: Config := Config(1200, 200, 3072)

  /** What `process_path` asks of the outside world:
      - `pathExists`: `os.path.exists`;
      - `extract`: running an extractor on a path;
      - `sha256`: the SHA-256 digest of a text's UTF-8 encoding;
      - `embedPooled`: `embed(chunks)` followed by the mean over the
        vectors, or `None` when either raises;
      - `upsertFault`: the error the database raises on the upsert of a
        path, if any;
      - `dumps`: `json.dumps`;
      - `now`: `time.time()`. */
  datatype Env = Env(
    pathExists: string -> bool,
    extract: (Extractor, string) -> ExtractOutcome,
    sha256: string -> Digest,
    embedPooled: seq<string> -> Option<Vector>,
    upsertFault: string -> Option<string>,
    dumps: Metadata -> string,
    now: real)

  // ---------------------------------------------------------------------------
  // process_path, as a decision

  const SUMMARY_CHARS: int := 800

  /** `text[:800] + ("..." if len(text) > 800 else "")`. */
  function Summary(text: string): (r: string)
    ensures |text| <= SUMMARY_CHARS ==> r == text
    ensures |text| > SUMMARY_CHARS ==> r == text[..SUMMARY_CHARS] + "..."
  {
    PySlice(text, 0, SUMMARY_CHARS) + (if |text| > SUMMARY_CHARS then "..." else "")
  }

  /** `ts or time.time()`: a missing or zero timestamp is replaced by now. */
  function EffectiveTimestamp(ts: Option<real>, now: real): (r: real)
    ensures r == now || (ts.Some? && r == ts.value)
    ensures r == 0.0 ==> now == 0.0
  {
    if ts.Some? && ts.value != 0.0 then ts.value else now
  }

  /** `np.zeros(EMBED_DIM, dtype="float32")`. */
  function Zeros(n: nat): (r: Vector)
    ensures |r| == n && IsZero(r)
  {
    seq(n, _ => 0)
  }

  /** The chunks embedded for a file: `chunk_text(...)`, or `[text[:size]]`
      when that is empty. */
  function FileChunks(text: string, cfg: Config): seq<string>
    requires cfg.overlap < cfg.chunkSize
  {
    var cs := Chunks(text, cfg.chunkSize, cfg.overlap);
    if cs == [] then [PySlice(text, 0, cfg.chunkSize)] else cs
  }

  /** The vector stored for a file: the pooled embedding, or zeros when
      embedding raised. */
  function FileVector(chunks: seq<string>, cfg: Config, env: Env): Vector {
    match env.embedPooled(chunks)
    case Some(v) => v
    case None => Zeros(cfg.embedDim)
  }

  /** What `process_path` decides before touching the store: give up with a
      reason, or store a row with these fields. */
  datatype Decision =
    | Skip(reason: string)
    | Write(content: string, vector: Vector, timestamp: real, sha: string)

  function Decide(path: string, ts: Option<real>, cfg: Config, env: Env): (r: Decision)
    requires cfg.overlap < cfg.chunkSize
    ensures r.Skip? ==> r.reason == "missing" || r.reason == "no_text"
    ensures r.Write? ==> env.pathExists(path)
  {
    if !env.pathExists(path) then Skip("missing")
    else
      var text := ExtractTextForPath(path, env.extract);
      if text == "" then Skip("no_text")
      else Write(Summary(text), FileVector(FileChunks(text, cfg), cfg, env),
                 EffectiveTimestamp(ts, env.now), Sha256OfText(text, env.sha256))
  }

  /** `process_path`'s return value, given its decision and the upsert's
      fault. */
  function Outcome(d: Decision, fault: Option<string>): (bool, string) {
    match d
    case Skip(reason) => (false, reason)
    case Write(_, _, _, _) => if fault.Some? then (false, "upsert_error:" + fault.value) else (true, "indexed")
  }

  /** The vector table after `process_path`. */
  function StoreAfter(rows: seq<VectorRow>, path: string, d: Decision, env: Env): seq<VectorRow> {
    if d.Write? && env.upsertFault(path).None? then
      Inserted(rows, path, "file", d.content, d.vector, d.timestamp, d.sha, SerializeMetadata(None, env.dumps))
    else rows
  }

  /** The ladder: a path that does not exist is "missing", an existing one
      whose extracted text is empty is "no_text", and only otherwise is a
      row written. */
  lemma DecideLadder(path: string, ts: Option<real>, cfg: Config, env: Env)
    requires cfg.overlap < cfg.chunkSize
    ensures Decide(path, ts, cfg, env) == Skip("missing") <==> !env.pathExists(path)
    ensures Decide(path, ts, cfg, env) == Skip("no_text") <==>
              env.pathExists(path) && ExtractTextForPath(path, env.extract) == ""
    ensures Decide(path, ts, cfg, env).Write? <==>
              env.pathExists(path) && ExtractTextForPath(path, env.extract) != ""
  {
  }

  /** A written row carries the hex SHA-256 of the whole extracted text, the
      first 800 characters of it followed by "..." exactly when it is longer,
      `ts` unless that is missing or zero, and the pooled embedding of the
      file's chunks or, when embedding failed, `EMBED_DIM` zeros. */
  lemma DecideWrite(path: string, ts: Option<real>, cfg: Config, env: Env)
    requires cfg.overlap < cfg.chunkSize
    requires Decide(path, ts, cfg, env).Write?
    ensures var d := Decide(path, ts, cfg, env);
            var text := ExtractTextForPath(path, env.extract);
            && d.sha == Sha256OfText(text, env.sha256)
            && (|text| <= SUMMARY_CHARS ==> d.content == text)
            && (|text| > SUMMARY_CHARS ==> d.content == text[..SUMMARY_CHARS] + "...")
            && (ts.Some? && ts.value != 0.0 ==> d.timestamp == ts.value)
            && (ts.None? || ts.value == 0.0 ==> d.timestamp == env.now)
            && (env.embedPooled(Chunks(text, cfg.chunkSize, cfg.overlap)).Some? ==>
                  d.vector == env.embedPooled(Chunks(text, cfg.chunkSize, cfg.overlap)).value)
            && (env.embedPooled(Chunks(text, cfg.chunkSize, cfg.overlap)).None? ==>
                  |d.vector| == cfg.embedDim && IsZero(d.vector))
  {
    var text := ExtractTextForPath(path, env.extract);
    NonEmptyTextHasChunks(text, cfg);
  }

  /** The names indexer.py imports from llm_client (indexer.py:17). */
  const LLM_CLIENT_IMPORTS: seq<string> := ["embed", "get_client"]

  /** As written, indexer.py cannot be imported: llm_client binds neither
      `embed` nor `get_client`, so the import raises `ImportError` on
      `embed`, whether or not the Gemini library is present. The model's
      `Env.embedPooled` stands for the pooled embedding that import was
      meant to supply (see `DecideWrite`). */
  lemma ImportOfEmbedFails(genaiImported: bool)
    ensures FromImport(LlmClient.ModuleNames(genaiImported), LLM_CLIENT_IMPORTS) == ImportError("embed")
    ensures "get_client" !in LlmClient.ModuleNames(genaiImported)
  {
  }

  /** A non-empty text always has chunks, so the `[text[:CHUNK_SIZE]]`
      fallback is never taken. */
  lemma NonEmptyTextHasChunks(text: string, cfg: Config)
    requires cfg.overlap < cfg.chunkSize
    requires text != ""
    ensures Chunks(text, cfg.chunkSize, cfg.overlap) != []
    ensures FileChunks(text, cfg) == Chunks(text, cfg.chunkSize, cfg.overlap)
  {
    assert |Chunks(text, cfg.chunkSize, cfg.overlap)| == ChunkCount(|text|, cfg.chunkSize - cfg.overlap);
  }

  /** `process_path` reports success exactly when it wrote a row; a skip or
      a failed upsert leaves the table as it was, and a successful one adds
      exactly one row for the path. */
  lemma OutcomeMatchesStore(rows: seq<VectorRow>, path: string, d: Decision, env: Env)
    requires Store.IdsIncreasing(rows) && IdsPositive(rows)
    ensures Outcome(d, env.upsertFault(path)).0 <==> |StoreAfter(rows, path, d, env)| == |rows| + 1
    ensures !Outcome(d, env.upsertFault(path)).0 ==> StoreAfter(rows, path, d, env) == rows
    ensures Outcome(d, env.upsertFault(path)).0 ==>
              CountPath(StoreAfter(rows, path, d, env), path) == CountPath(rows, path) + 1
    ensures d.Write? && env.upsertFault(path).Some? ==>
              Outcome(d, env.upsertFault(path)).1 == "upsert_error:" + env.upsertFault(path).value
  {
    if d.Write? && env.upsertFault(path).None? {
      InsertedAddsOneRow(rows, path, "file", d.content, d.vector, d.timestamp, d.sha, SerializeMetadata(None, env.dumps));
    }
  }

  /** The vector table after processing each of a batch of event rows in
      turn. */
  function StoreAfterBatch(rows: seq<VectorRow>, batch: seq<EventRow>, cfg: Config, env: Env): seq<VectorRow>
    requires cfg.overlap < cfg.chunkSize
  {
    if batch == [] then rows
    else
      var e := batch[|batch| - 1];
      StoreAfter(StoreAfterBatch(rows, batch[..|batch| - 1], cfg, env), e.path,
                 Decide(e.path, Some(e.timestamp), cfg, env), env)
  }

  /** The part of `process_path` before the upsert: the existence check,
      text extraction, hashing, chunking, embedding, summary and
      timestamp. */
  method DecidePath(path: string, ts: Option<real>, cfg: Config, env: Env) returns (d: Decision)
    requires cfg.overlap < cfg.chunkSize
    ensures d == Decide(path, ts, cfg, env)
  {
    if !env.pathExists(path) {
      return Skip("missing");
    }
    var text := ExtractTextForPath(path, env.extract);
    if text == "" {
      return Skip("no_text");
    }
    var sha := Sha256OfText(text, env.sha256);
    var chunks := ChunkText(text, cfg.chunkSize, cfg.overlap);
    if chunks == [] {
      chunks := [PySlice(text, 0, cfg.chunkSize)];
    }
    var fileVec := FileVector(chunks, cfg, env);
    var summary := Summary(text);
    var timestamp := EffectiveTimestamp(ts, env.now);
    d := Write(summary, fileVec, timestamp, sha);
  }

  // ---------------------------------------------------------------------------
  // The indexer object

  class Indexer {
    const cfg: Config
    const events: EventTable
    const vs: VectorStore

    ghost predicate Valid()
      reads this, events, vs
    {
      cfg.overlap < cfg.chunkSize && events.Valid() && vs.Valid()
    }

    /** The chunk settings must leave a positive step: with
        `overlap >= chunk_size` the chunker never terminates. */
    constructor (cfg: Config, events: EventTable, vs: VectorStore)
      requires cfg.overlap < cfg.chunkSize
      requires events.Valid() && vs.Valid()
      ensures Valid()
      ensures this.cfg == cfg && this.events == events && this.vs == vs
    {
      this.cfg := cfg;
      this.events := events;
      this.vs := vs;
    }

    /** `fetch_pending_events(limit)`. */
    method FetchPendingEvents(limit: int) returns (r: seq<EventRow>)
      requires Valid()
      ensures r == FetchPendingRows(events.rows, limit)
    {
      r := events.FetchPending(limit);
    }

    /** `mark_event_processed(eid)`. */
    method MarkEventProcessed(eid: int)
      requires Valid()
      modifies events
      ensures Valid()
      ensures events.rows == Marked(old(events.rows), eid)
    {
      events.MarkProcessed(eid);
    }

    /** `process_path(path, ts)`. */
    method ProcessPath(path: string, ts: Option<real>, env: Env) returns (ok: bool, reason: string)
      requires Valid()
      modifies vs
      ensures Valid()
      ensures (ok, reason) == Outcome(Decide(path, ts, cfg, env), env.upsertFault(path))
      ensures vs.rows == StoreAfter(old(vs.rows), path, Decide(path, ts, cfg, env), env)
    {
      var d := DecidePath(path, ts, cfg, env);
      if d.Skip? {
        return false, d.reason;
      }
      var err := vs.Upsert(path, "file", d.content, d.vector, d.timestamp, d.sha, None, env.dumps, env.upsertFault(path));
      if err.Some? {
        return false, "upsert_error:" + err.value;
      }
      return true, "indexed";
    }

    /** `process_event_row(row)`: processes the row's path with its
        timestamp and marks the row processed whatever the outcome. */
    method ProcessEventRow(row: EventRow, env: Env) returns (ok: bool, reason: string)
      requires Valid()
      modifies vs, events
      ensures Valid()
      ensures (ok, reason) == Outcome(Decide(row.path, Some(row.timestamp), cfg, env), env.upsertFault(row.path))
      ensures vs.rows == StoreAfter(old(vs.rows), row.path, Decide(row.path, Some(row.timestamp), cfg, env), env)
      ensures events.rows == Marked(old(events.rows), row.id)
    {
      ok, reason := ProcessPath(row.path, Some(row.timestamp), env);
      events.MarkProcessed(row.id);
    }

    /** `run_once(batch_size)`: fetches up to `batch_size` pending rows,
        processes and marks each in turn, and returns how many it fetched. */
    method RunOnce(batchSize: int, env: Env) returns (n: int)
      requires Valid()
      modifies vs, events
      ensures Valid()
      ensures var fetched := FetchPendingRows(old(events.rows), batchSize);
              && n == |fetched|
              && events.rows == MarkedAll(old(events.rows), IdsOf(fetched))
              && vs.rows == StoreAfterBatch(old(vs.rows), fetched, cfg, env)
    {
      var rows := events.FetchPending(batchSize);
      if rows == [] {
        assert IdsOf(rows) == [];
        return 0;
      }
      var i := 0;
      while i < |rows|
        invariant 0 <= i <= |rows|
        invariant Valid()
        invariant events.rows == MarkedAll(old(events.rows), IdsOf(rows[..i]))
        invariant vs.rows == StoreAfterBatch(old(vs.rows), rows[..i], cfg, env)
      {
        var ok, reason := ProcessEventRow(rows[i], env);
        BatchStep(old(events.rows), old(vs.rows), rows, i, cfg, env);
        i := i + 1;
      }
      assert rows[..i] == rows;
      n := |rows|;
    }
  }

  /** One more iteration of `run_once` marks one more id and processes one
      more row. */
  lemma BatchStep(events: seq<EventRow>, store: seq<VectorRow>, rows: seq<EventRow>, i: int, cfg: Config, env: Env)
    requires cfg.overlap < cfg.chunkSize
    requires 0 <= i < |rows|
    ensures MarkedAll(events, IdsOf(rows[..i + 1])) == Marked(MarkedAll(events, IdsOf(rows[..i])), rows[i].id)
    ensures StoreAfterBatch(store, rows[..i + 1], cfg, env)
            == StoreAfter(StoreAfterBatch(store, rows[..i], cfg, env), rows[i].path,
                          Decide(rows[i].path, Some(rows[i].timestamp), cfg, env), env)
  {
    assert rows[..i + 1][..i] == rows[..i];
    assert IdsOf(rows[..i + 1])[..i] == IdsOf(rows[..i]);
  }

  /** After `run_once`, none of the rows it fetched is pending any more; it
      fetched at most `batch_size` rows, and none exactly when no row was
      pending (for a positive batch size). */
  lemma RunOnceDrainsBatch(rows: seq<EventRow>, batchSize: int)
    requires Events.IdsIncreasing(rows)
    ensures var fetched := FetchPendingRows(rows, batchSize);
            && (forall e :: e in Pending(MarkedAll(rows, IdsOf(fetched))) ==>
                  forall f :: f in fetched ==> e.id != f.id)
            && (batchSize >= 0 ==> |fetched| <= batchSize)
            && (batchSize > 0 ==> (|fetched| == 0 <==> Pending(rows) == []))
  {
    var fetched := FetchPendingRows(rows, batchSize);
    MarkedAllLeavesNonePending(rows, IdsOf(fetched));
    forall e, f | e in Pending(MarkedAll(rows, IdsOf(fetched))) && f in fetched
      ensures e.id != f.id
    {
      var j :| 0 <= j < |fetched| && fetched[j] == f;
      assert IdsOf(fetched)[j] == f.id;
    }
  }
}
