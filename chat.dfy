// chat.py: the bounded session memory and its rendering, the mapping of
// search results to snippets, the order in which `gather_context` assembles
// the reply's context, and the prompt `generate_reply` builds from it.

module Chat {
  import opened PyText
  import opened Ranking
  import opened Store
  import LlmClient
  import Events
  import Watcher
  import BrowserHistory
  import GitWatcher

  /** The defaults of `SESSION_MEMORY_SIZE`, `RAG_TOP_K` and
      `MAX_SNIPPET_CHARS`; each can be overridden from the environment, so
      the operations below take them as parameters. */
  const SESSION_MEMORY_SIZE: int := 10
  const RAG_TOP_K: int := 4
  const MAX_SNIPPET_CHARS: int := 800
  /** The `limit=5` passed to each recent-activity source. */
  const RECENT_LIMIT: int := 5

  // ---------------------------------------------------------------------------
  // Session memory

  /** One `{"user": ..., "assistant": ...}` entry. */
  datatype Exchange = Exchange(user: string, assistant: string)

  /** The memory after `add_to_session` appends `ex` to `mem` and, when the
      list has grown past `cap`, pops its first entry. */
  function AddedToSession(mem: seq<Exchange>, ex: Exchange, cap: int): (r: seq<Exchange>)
    ensures |mem| <= Max(cap, 0) ==> |r| <= Max(cap, 0)
    ensures |mem| < cap ==> r == mem + [ex]
  {
    var m := mem + [ex];
    if |m| > cap then m[1..] else m
  }

  /** When the memory is full, adding an exchange drops exactly the oldest
      one and keeps the size at the cap. */
  lemma OverflowDropsOldest(mem: seq<Exchange>, ex: Exchange, cap: int)
    requires 1 <= cap == |mem|
    ensures AddedToSession(mem, ex, cap) == mem[1..] + [ex]
    ensures |AddedToSession(mem, ex, cap)| == cap
  {
    assert (mem + [ex])[1..] == mem[1..] + [ex];
  }

  /** The memory after `add_to_session` was called with each of `xs`, in
      order, on the initially empty list. */
  function Replay(xs: seq<Exchange>, cap: int): (r: seq<Exchange>)
    ensures |r| <= Max(cap, 0)
  {
    if xs == [] then [] else AddedToSession(Replay(xs[..|xs| - 1], cap), xs[|xs| - 1], cap)
  }

  /** The memory holds the most recent `min(k, cap)` exchanges, oldest
      first (none at all for a cap that is not positive). */
  lemma {:induction false} ReplayKeepsMostRecent(xs: seq<Exchange>, cap: int)
    ensures Replay(xs, cap) == xs[|xs| - Min(|xs|, Max(cap, 0))..]
  {
    if xs != [] {
      ReplayKeepsMostRecent(xs[..|xs| - 1], cap);
      AddToRecentSuffix(xs, cap);
    }
  }

  /** Adding the next exchange to the most recent ones before it gives the
      most recent ones after it. */
  lemma AddToRecentSuffix(xs: seq<Exchange>, cap: int)
    requires xs != []
    ensures var n := |xs| - 1;
            AddedToSession(xs[..n][n - Min(n, Max(cap, 0))..], xs[n], cap)
              == xs[|xs| - Min(|xs|, Max(cap, 0))..]
  {
    var n := |xs| - 1;
    var c := Max(cap, 0);
    var m := xs[..n][n - Min(n, c)..] + [xs[n]];
    assert m == xs[n - Min(n, c)..];
    if |m| > cap {
      assert m[1..] == xs[n - Min(n, c) + 1..];
    }
  }

  /** The module-level `session_memory` list. `added` records every exchange
      ever added, so that the memory can be related to the whole
      conversation. */
  class Session {
    var memory: seq<Exchange>
    const cap: int
    ghost var added: seq<Exchange>

    ghost predicate Valid()
      reads this
    {
      memory == Replay(added, cap)
    }

    constructor (cap: int)
      ensures Valid()
      ensures this.cap == cap && memory == [] && added == []
    {
      this.cap := cap;
      memory := [];
      added := [];
    }

    /** `add_to_session(user, assistant)`. */
    method AddToSession(user: string, assistant: string)
      requires Valid()
      modifies this
      ensures Valid()
      ensures added == old(added) + [Exchange(user, assistant)]
      ensures memory == AddedToSession(old(memory), Exchange(user, assistant), cap)
    {
      memory := memory + [Exchange(user, assistant)];
      if |memory| > cap {
        memory := memory[1..];
      }
      added := added + [Exchange(user, assistant)];
      assert added[..|added| - 1] == old(added);
    }
  }

  /** `User: {user}\nAssistant: {assistant}`. */
  function RenderExchange(e: Exchange): string {
    "User: " + e.user + "\nAssistant: " + e.assistant
  }

  function RenderedExchanges(mem: seq<Exchange>): (r: seq<string>)
    ensures |r| == |mem|
    ensures forall i :: 0 <= i < |mem| ==> r[i] == RenderExchange(mem[i])
  {
    seq(|mem|, i requires 0 <= i < |mem| => RenderExchange(mem[i]))
  }

  /** `get_session_context()`: the rendered exchanges joined by newlines. */
  function SessionContext(mem: seq<Exchange>): (r: string)
    ensures mem == [] ==> r == ""
    ensures |mem| == 1 ==> r == RenderExchange(mem[0])
  {
    Join("\n", RenderedExchanges(mem))
  }

  /** The context is empty exactly when the memory is. */
  lemma SessionContextEmptyIff(mem: seq<Exchange>)
    ensures SessionContext(mem) == "" <==> mem == []
  {
    var parts := RenderedExchanges(mem);
    forall i | 0 <= i < |parts|
      ensures parts[i] != ""
    {
      assert |parts[i]| >= |"User: "|;
    }
    JoinEmptyIff("\n", parts);
  }

  /** A newer exchange is rendered after the older ones, on a new line. */
  lemma SessionContextSnoc(mem: seq<Exchange>, e: Exchange)
    requires mem != []
    ensures SessionContext(mem + [e]) == SessionContext(mem) + "\n" + RenderExchange(e)
  {
    assert RenderedExchanges(mem + [e]) == RenderedExchanges(mem) + [RenderExchange(e)];
    JoinSnoc("\n", RenderedExchanges(mem), RenderExchange(e));
  }

  // ---------------------------------------------------------------------------
  // Semantic retrieval

  /** `snippet[:MAX_SNIPPET_CHARS] + "..."` when the content is longer than
      the cap, the content itself otherwise. */
  function Snippet(content: string, maxChars: int): (r: string)
    ensures |content| <= maxChars ==> r == content
    ensures |content| > maxChars ==>
              |r| >= 3 && r[..|r| - 3] <= content && r[|r| - 3..] == "..."
    ensures |content| > maxChars >= 0 ==> |r| == maxChars + 3
  {
    if |content| > maxChars then PySlice(content, 0, maxChars) + "..." else content
  }

  /** One element of `semantic_retrieve`'s result. */
  datatype ChatHit = ChatHit(score: real, path: string, snippet: string)

  function ToChatHit(h: Hit, maxChars: int): ChatHit {
    ChatHit(h.score, h.path, Snippet(h.content, maxChars))
  }

  /** The hits for the search results, one per result, in the same order. */
  function HitsOf(results: seq<Hit>, maxChars: int): (r: seq<ChatHit>)
    ensures |r| == |results|
    ensures forall i :: 0 <= i < |results| ==> r[i] == ToChatHit(results[i], maxChars)
  {
    seq(|results|, i requires 0 <= i < |results| => ToChatHit(results[i], maxChars))
  }

  /** The loop over `results` in `semantic_retrieve`. */
  method MapHits(results: seq<Hit>, maxChars: int) returns (hits: seq<ChatHit>)
    ensures hits == HitsOf(results, maxChars)
  {
    hits := [];
    var i := 0;
    while i < |results|
      invariant 0 <= i <= |results|
      invariant hits == HitsOf(results[..i], maxChars)
    {
      var snippet := results[i].content;
      if |snippet| > maxChars {
        snippet := PySlice(snippet, 0, maxChars) + "...";
      }
      hits := hits + [ChatHit(results[i].score, results[i].path, snippet)];
      i := i + 1;
    }
    assert results[..i] == results;
  }

  /** What `semantic_retrieve` returns for the query vector `q` over the
      store's rows, or the error the search raises. */
  function Retrieved(rows: seq<VectorRow>, q: Vector, topK: int, cosine: (Vector, Vector) -> real,
                     maxChars: int): (r: Result<seq<ChatHit>, SearchError>)
    ensures r.Ok? <==> SearchRows(rows, q, topK, cosine).Ok?
  {
    match SearchRows(rows, q, topK, cosine)
    case Err(e) => Err(e)
    case Ok(results) => Ok(HitsOf(results, maxChars))
  }

  /** The hits follow the search results one for one, so they keep its
      ranking: scores never increase, and there are at most `top_k`. */
  lemma RetrievedIsRanked(rows: seq<VectorRow>, q: Vector, topK: int, cosine: (Vector, Vector) -> real,
                          maxChars: int)
    requires Retrieved(rows, q, topK, cosine, maxChars).Ok?
    ensures var hits := Retrieved(rows, q, topK, cosine, maxChars).value;
            var results := SearchRows(rows, q, topK, cosine).value;
            && |hits| == |results|
            && (forall i :: 0 <= i < |hits| ==> hits[i] == ToChatHit(results[i], maxChars))
            && (forall i, j :: 0 <= i < j < |hits| ==> hits[i].score >= hits[j].score)
            && (topK >= 0 ==> |hits| <= topK)
  {
    if rows != [] {
      SearchIsTopK(rows, q, topK, cosine);
    }
  }

  /** `semantic_retrieve(query, top_k)`: embed the query, search the store,
      and map each result to a hit. */
  method SemanticRetrieve(query: string, topK: int, maxChars: int,
                          llm: LlmClient.LLMClient, store: VectorStore,
                          provider: string -> Option<seq<Float32>>, sha256: string -> Utils.Digest,
                          cosine: (Vector, Vector) -> real)
    returns (r: Result<seq<ChatHit>, SearchError>)
    requires store.Valid()
    ensures r == Retrieved(store.rows,
                           LlmClient.EmbedOne(llm.backend, llm.genaiAvailable, query, provider, sha256),
                           topK, cosine, maxChars)
  {
    var embeddings := llm.Embed([query], provider, sha256);
    var results := store.Search(embeddings[0], topK, cosine);
    match results
    case Err(e) =>
      r := Err(e);
    case Ok(found) =>
      var hits := MapHits(found, maxChars);
      r := Ok(hits);
  }

  // ---------------------------------------------------------------------------
  // Context assembly

  /** One `{"path": ..., "content": ...}` context document. */
  datatype ContextDoc = ContextDoc(path: string, content: string)

  function SessionDocs(sessionCtx: string): seq<ContextDoc> {
    if sessionCtx != "" then [ContextDoc("session_memory", sessionCtx)] else []
  }

  function HitDocs(hits: seq<ChatHit>): (r: seq<ContextDoc>)
    ensures |r| == |hits|
    ensures forall i :: 0 <= i < |hits| ==> r[i] == ContextDoc(hits[i].path, hits[i].snippet)
  {
    seq(|hits|, i requires 0 <= i < |hits| => ContextDoc(hits[i].path, hits[i].snippet))
  }

  function Tagged(path: string, contents: seq<string>): (r: seq<ContextDoc>)
    ensures |r| == |contents|
    ensures forall i :: 0 <= i < |contents| ==> r[i] == ContextDoc(path, contents[i])
  {
    seq(|contents|, i requires 0 <= i < |contents| => ContextDoc(path, contents[i]))
  }

  /** The documents `gather_context` collects: the session entry, the
      retrieval hits, then the file events, git commits and browser
      entries. */
  function AssembledContext(sessionCtx: string, hits: seq<ChatHit>, events: seq<string>,
                            commits: seq<string>, browser: seq<string>): (r: seq<ContextDoc>)
    ensures |r| == (if sessionCtx != "" then 1 else 0) + |hits| + |events| + |commits| + |browser|
  {
    SessionDocs(sessionCtx) + HitDocs(hits) + Tagged("file_event", events)
      + Tagged("git_commit", commits) + Tagged("browser", browser)
  }

  /** The layout of the assembled context: the session entry comes first and
      is there exactly when the memory is non-empty; after it each source's
      documents follow in its own order. */
  lemma ContextLayout(mem: seq<Exchange>, hits: seq<ChatHit>, events: seq<string>,
                      commits: seq<string>, browser: seq<string>)
    ensures var docs := AssembledContext(SessionContext(mem), hits, events, commits, browser);
            var s := if mem == [] then 0 else 1;
            var e := s + |hits|;
            var c := e + |events|;
            var b := c + |commits|;
            && |docs| == b + |browser|
            && docs[..s] == (if mem == [] then [] else [ContextDoc("session_memory", SessionContext(mem))])
            && docs[s..e] == HitDocs(hits)
            && docs[e..c] == Tagged("file_event", events)
            && docs[c..b] == Tagged("git_commit", commits)
            && docs[b..] == Tagged("browser", browser)
  {
    SessionContextEmptyIff(mem);
    ConcatSlices(SessionDocs(SessionContext(mem)), HitDocs(hits), Tagged("file_event", events),
                 Tagged("git_commit", commits), Tagged("browser", browser));
  }

  /** Each part of a five-part concatenation is the slice at its offset. */
  lemma ConcatSlices<T>(p: seq<T>, q: seq<T>, u: seq<T>, v: seq<T>, w: seq<T>)
    ensures var all := p + q + u + v + w;
            var i := |p|;
            var j := i + |q|;
            var k := j + |u|;
            var l := k + |v|;
            && all[..i] == p && all[i..j] == q && all[j..k] == u && all[k..l] == v && all[l..] == w
  {
    var all := p + q + u + v + w;
    assert all == p + (q + (u + (v + w)));
    assert all[|p|..] == q + (u + (v + w));
    assert all[|p| + |q|..] == u + (v + w);
    assert all[|p| + |q| + |u|..] == v + w;
  }

  /** A `for ... in contents: context_docs.append({"path": path, ...})`
      loop. */
  method AppendTagged(docs: seq<ContextDoc>, path: string, contents: seq<string>)
    returns (r: seq<ContextDoc>)
    ensures r == docs + Tagged(path, contents)
  {
    r := docs;
    var i := 0;
    while i < |contents|
      invariant 0 <= i <= |contents|
      invariant r == docs + Tagged(path, contents[..i])
    {
      r := r + [ContextDoc(path, contents[i])];
      i := i + 1;
    }
    assert contents[..i] == contents;
  }

  /** The loop appending one document per retrieval hit. */
  method AppendHits(docs: seq<ContextDoc>, hits: seq<ChatHit>) returns (r: seq<ContextDoc>)
    ensures r == docs + HitDocs(hits)
  {
    r := docs;
    var i := 0;
    while i < |hits|
      invariant 0 <= i <= |hits|
      invariant r == docs + HitDocs(hits[..i])
    {
      r := r + [ContextDoc(hits[i].path, hits[i].snippet)];
      i := i + 1;
    }
    assert hits[..i] == hits;
  }

  /** `gather_context(query)`. The file events are rendered from the rows
      of the `events` table; `commits` stands for the list the call to
      `git_watcher.get_recent_commits(limit=5)` would return; the browser
      history is read from `urls` (None when the browser's file is missing)
      and its recent entries are appended to `history`. A failing search
      raises before the browser history is touched. */
  method GatherContext(query: string, topK: int, maxChars: int, session: Session,
                       llm: LlmClient.LLMClient, store: VectorStore,
                       events: seq<Events.EventRow>, commits: seq<string>,
                       history: BrowserHistory.HistoryTable, urls: Option<seq<BrowserHistory.UrlRow>>,
                       now: real, provider: string -> Option<seq<Float32>>,
                       sha256: string -> Utils.Digest, cosine: (Vector, Vector) -> real,
                       fmtEvent: real -> string, fmtVisit: int -> string)
    returns (r: Result<seq<ContextDoc>, SearchError>)
    requires store.Valid() && history.Valid()
    modifies history
    ensures history.Valid()
    ensures var q := LlmClient.EmbedOne(llm.backend, llm.genaiAvailable, query, provider, sha256);
            var hits := Retrieved(store.rows, q, topK, cosine, maxChars);
            && (hits.Err? ==> r == Err(hits.error) && unchanged(history))
            && (hits.Ok? ==>
                  && r == Ok(AssembledContext(
                              SessionContext(session.memory), hits.value,
                              Watcher.RecentFileEvents(events, RECENT_LIMIT, fmtEvent), commits,
                              BrowserHistory.RecentHistoryLines(urls, RECENT_LIMIT, now,
                                                                BrowserHistory.DEFAULT_DAYS, fmtVisit)))
                  && (urls.None? ==> history.rows == old(history.rows) && history.lastId == old(history.lastId))
                  && (urls.Some? ==>
                        var entries := BrowserHistory.Recent(BrowserHistory.NewestRows(urls.value), now,
                                                             BrowserHistory.DEFAULT_DAYS);
                        history.rows == old(history.rows)
                          + BrowserHistory.AppendedRows(entries, old(history.lastId))))
  {
    var sessionCtx := SessionContext(session.memory);
    var retrieved := SemanticRetrieve(query, topK, maxChars, llm, store, provider, sha256, cosine);
    if retrieved.Err? {
      return Err(retrieved.error);
    }
    var docs := AppendSources(sessionCtx, retrieved.value, events, commits, history, urls, now, fmtEvent, fmtVisit);
    assert sessionCtx == SessionContext(session.memory);
    r := Ok(docs);
  }

  /** The documents `gather_context` collects once retrieval has succeeded,
      in the order it appends them; reading the browser history appends its
      recent entries to `history`. */
  method AppendSources(sessionCtx: string, hits: seq<ChatHit>, events: seq<Events.EventRow>, commits: seq<string>,
                       history: BrowserHistory.HistoryTable, urls: Option<seq<BrowserHistory.UrlRow>>,
                       now: real, fmtEvent: real -> string, fmtVisit: int -> string)
    returns (docs: seq<ContextDoc>)
    requires history.Valid()
    modifies history
    ensures history.Valid()
    ensures docs == AssembledContext(sessionCtx, hits, Watcher.RecentFileEvents(events, RECENT_LIMIT, fmtEvent), commits,
                                     BrowserHistory.RecentHistoryLines(urls, RECENT_LIMIT, now,
                                                                       BrowserHistory.DEFAULT_DAYS, fmtVisit))
    ensures urls.None? ==> history.rows == old(history.rows) && history.lastId == old(history.lastId)
    ensures urls.Some? ==>
              history.rows == old(history.rows)
                + BrowserHistory.AppendedRows(BrowserHistory.Recent(BrowserHistory.NewestRows(urls.value), now,
                                                                    BrowserHistory.DEFAULT_DAYS), old(history.lastId))
  {
    docs := [];
    if sessionCtx != "" {
      docs := docs + [ContextDoc("session_memory", sessionCtx)];
    }
    assert docs == SessionDocs(sessionCtx);
    docs := AppendHits(docs, hits);
    var fileEvents := Watcher.RecentFileEvents(events, RECENT_LIMIT, fmtEvent);
    docs := AppendTagged(docs, "file_event", fileEvents);
    docs := AppendTagged(docs, "git_commit", commits);
    var browser := history.GetRecentBrowserHistory(urls, RECENT_LIMIT, now, BrowserHistory.DEFAULT_DAYS, fmtVisit);
    docs := AppendTagged(docs, "browser", browser);
  }

  /** What ended `gather_context` as written: the search raised, or looking
      up an attribute of a module raised `AttributeError`. */
  datatype Raised = SearchRaised(error: SearchError) | AttributeRaised(owner: string, attribute: string)

  /** The function `gather_context` calls for recent commits (chat.py:75). */
  const COMMITS_CALL: string := "get_recent_commits"

  /** `gather_context` as written, given the names `gitWatcherNames` that
      the `git_watcher` module binds: after the session entry, the hits and
      the file events, the attribute lookup of `COMMITS_CALL` raises when
      the module does not bind it, and the browser history is never read.
      Only when it is bound does the result reach the commits and the
      browser entries. */
  function GatherContextAsWritten(sessionCtx: string, retrieved: Result<seq<ChatHit>, SearchError>,
                                  fileEvents: seq<string>, gitWatcherNames: set<string>,
                                  commits: seq<string>, browser: seq<string>): (r: Result<seq<ContextDoc>, Raised>)
    ensures retrieved.Err? ==> r == Err(SearchRaised(retrieved.error))
    ensures retrieved.Ok? && COMMITS_CALL !in gitWatcherNames ==>
              r == Err(AttributeRaised("git_watcher", COMMITS_CALL))
    ensures retrieved.Ok? && COMMITS_CALL in gitWatcherNames ==>
              r == Ok(AssembledContext(sessionCtx, retrieved.value, fileEvents, commits, browser))
  {
    match retrieved
    case Err(e) => Err(SearchRaised(e))
    case Ok(hits) =>
      if COMMITS_CALL !in gitWatcherNames then Err(AttributeRaised("git_watcher", COMMITS_CALL))
      else Ok(AssembledContext(sessionCtx, hits, fileEvents, commits, browser))
  }

  /** With the `git_watcher` module as it is, every `gather_context` whose
      search succeeds raises `AttributeError` before the browser history is
      read: no context is ever returned, whatever the commits and browser
      entries would have been. `GatherContext` models the evidently
      intended behaviour, with the commit lines as an input. */
  lemma GatherContextAsWrittenRaises(sessionCtx: string, retrieved: Result<seq<ChatHit>, SearchError>,
                                     fileEvents: seq<string>, commits: seq<string>, browser: seq<string>)
    ensures var r := GatherContextAsWritten(sessionCtx, retrieved, fileEvents, GitWatcher.MODULE_NAMES,
                                            commits, browser);
            && r.Err?
            && (retrieved.Ok? ==> r == Err(AttributeRaised("git_watcher", "get_recent_commits")))
  {
    assert COMMITS_CALL !in GitWatcher.MODULE_NAMES;
  }

  // ---------------------------------------------------------------------------
  // The prompt

  const PROMPT_HEAD: string := "Use the following context to answer concisely:\n"
  const QUERY_HEAD: string := "\n\nUser query:\n"

  /** `Source: {path}\n{content}`. */
  function RenderDoc(d: ContextDoc): string {
    "Source: " + d.path + "\n" + d.content
  }

  function RenderedDocs(docs: seq<ContextDoc>): (r: seq<string>)
    ensures |r| == |docs|
    ensures forall i :: 0 <= i < |docs| ==> r[i] == RenderDoc(docs[i])
  {
    seq(|docs|, i requires 0 <= i < |docs| => RenderDoc(docs[i]))
  }

  /** The context text: the rendered documents separated by blank lines. */
  function ContextText(docs: seq<ContextDoc>): string {
    Join("\n\n", RenderedDocs(docs))
  }

  /** The prompt `generate_reply` sends for `query` with context `docs`. */
  function Prompt(docs: seq<ContextDoc>, query: string): (r: string)
    ensures |r| == |PROMPT_HEAD| + |ContextText(docs)| + |QUERY_HEAD| + |query|
  {
    PROMPT_HEAD + ContextText(docs) + QUERY_HEAD + query
  }

  /** Every prompt opens with the fixed instruction and closes with the
      query under its heading. */
  lemma PromptFrame(docs: seq<ContextDoc>, query: string)
    ensures var p := Prompt(docs, query);
            && |p| >= |PROMPT_HEAD| + |QUERY_HEAD| + |query|
            && p[..|PROMPT_HEAD|] == PROMPT_HEAD
            && p[|p| - |query| - |QUERY_HEAD|..] == QUERY_HEAD + query
  {
    var p := Prompt(docs, query);
    assert p == PROMPT_HEAD + (ContextText(docs) + QUERY_HEAD + query);
    assert p == (PROMPT_HEAD + ContextText(docs)) + (QUERY_HEAD + query);
  }

  /** Without context documents the prompt is the instruction followed
      directly by the query. */
  lemma PromptWithoutContext(query: string)
    ensures Prompt([], query) == PROMPT_HEAD + QUERY_HEAD + query
  {
    assert RenderedDocs([]) == [];
  }

  /** A further document adds one blank-line-separated block after the
      others, just before the query. */
  lemma ContextTextSnoc(docs: seq<ContextDoc>, d: ContextDoc)
    requires docs != []
    ensures ContextText(docs + [d]) == ContextText(docs) + "\n\n" + RenderDoc(d)
  {
    assert RenderedDocs(docs + [d]) == RenderedDocs(docs) + [RenderDoc(d)];
    JoinSnoc("\n\n", RenderedDocs(docs), RenderDoc(d));
  }

  /** `generate_reply(user_query)`: the reply for the prompt built from the
      gathered context, or the search error that `gather_context` raised. */
  method GenerateReply(query: string, topK: int, maxChars: int, session: Session,
                       llm: LlmClient.LLMClient, store: VectorStore,
                       events: seq<Events.EventRow>, commits: seq<string>,
                       history: BrowserHistory.HistoryTable, urls: Option<seq<BrowserHistory.UrlRow>>,
                       now: real, provider: string -> Option<seq<Float32>>,
                       sha256: string -> Utils.Digest, cosine: (Vector, Vector) -> real,
                       fmtEvent: real -> string, fmtVisit: int -> string,
                       ollamaInstalled: bool, gemini: string -> LlmClient.GeminiOutcome,
                       ollama: string -> LlmClient.OllamaOutcome)
    returns (r: Result<string, SearchError>)
    requires store.Valid() && history.Valid()
    modifies history
    ensures history.Valid()
    ensures var q := LlmClient.EmbedOne(llm.backend, llm.genaiAvailable, query, provider, sha256);
            var hits := Retrieved(store.rows, q, topK, cosine, maxChars);
            && (hits.Err? ==> r == Err(hits.error) && unchanged(history))
            && (hits.Ok? ==>
                  var docs := AssembledContext(
                                SessionContext(session.memory), hits.value,
                                Watcher.RecentFileEvents(events, RECENT_LIMIT, fmtEvent), commits,
                                BrowserHistory.RecentHistoryLines(urls, RECENT_LIMIT, now,
                                                                  BrowserHistory.DEFAULT_DAYS, fmtVisit));
                  r == Ok(LlmClient.GenerateReply(llm.backend, llm.genaiAvailable, ollamaInstalled,
                                                  Prompt(docs, query), gemini, ollama)))
  {
    var gathered := GatherContext(query, topK, maxChars, session, llm, store, events, commits,
                                  history, urls, now, provider, sha256, cosine, fmtEvent, fmtVisit);
    if gathered.Err? {
      return Err(gathered.error);
    }
    var prompt := PROMPT_HEAD + ContextText(gathered.value) + QUERY_HEAD + query;
    var reply := llm.Generate(prompt, ollamaInstalled, gemini, ollama);
    r := Ok(reply);
  }
}
