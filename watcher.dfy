// watcher.py: the settings lists, the file-event filter, the append of a
// recorded event, and the "recent file events" query used as chat context.

module Watcher {
  import opened PyText
  import opened Ranking
  import opened Events

  // ---------------------------------------------------------------------------
  // Settings

  /** The stripped, non-empty pieces of a list of pieces, in order. */
  function StrippedNonEmpty(parts: seq<string>): (r: seq<string>)
    ensures forall i :: 0 <= i < |r| ==> r[i] != "" && Strip(r[i]) == r[i]
  {
    if parts == [] then []
    else
      var p := Strip(parts[0]);
      (if p != "" then [p] else []) + StrippedNonEmpty(parts[1..])
  }

  /** `[p.strip() for p in setting.split(",") if p.strip()]`: `WATCH_PATHS`
      here and `WATCH_PATHS`/`GIT_WATCH_PATHS` in git_watcher.py. */
  function ParsePathList(setting: string): (r: seq<string>)
    ensures forall i :: 0 <= i < |r| ==> r[i] != "" && Strip(r[i]) == r[i]
  {
    StrippedNonEmpty(Split(setting, ','))
  }

  lemma StripIdempotent(s: string)
    ensures Strip(Strip(s)) == Strip(s)
  {
    var t := Strip(s);
    if t != [] {
      assert StripLeft(t) == t;
      assert StripRight(t) == t;
    }
  }

  /** The stripped forms of the non-blank pieces, as a set. */
  ghost function StrippedPieces(parts: seq<string>): set<string> {
    set j | 0 <= j < |parts| && Strip(parts[j]) != "" :: Strip(parts[j])
  }

  /** The entries of the list are exactly the stripped forms of the
      non-blank pieces: nothing is invented and no non-blank piece is lost. */
  lemma {:induction false} ParsePathListEntries(parts: seq<string>)
    ensures forall x :: x in StrippedNonEmpty(parts) <==> x in StrippedPieces(parts)
  {
    if parts != [] {
      ParsePathListEntries(parts[1..]);
      StrippedPiecesCons(parts);
    }
  }

  /** The pieces of a non-empty list are those of its first piece and of
      the rest. */
  lemma StrippedPiecesCons(parts: seq<string>)
    requires parts != []
    ensures StrippedPieces(parts)
              == (if Strip(parts[0]) != "" then {Strip(parts[0])} else {}) + StrippedPieces(parts[1..])
  {
    var head: set<string> := if Strip(parts[0]) != "" then {Strip(parts[0])} else {};
    forall x | x in StrippedPieces(parts) ensures x in head + StrippedPieces(parts[1..]) {
      var j :| 0 <= j < |parts| && Strip(parts[j]) != "" && x == Strip(parts[j]);
      if j > 0 {
        assert parts[1..][j - 1] == parts[j];
      }
    }
    forall x | x in StrippedPieces(parts[1..]) ensures x in StrippedPieces(parts) {
      var j :| 0 <= j < |parts| - 1 && Strip(parts[1..][j]) != "" && x == Strip(parts[1..][j]);
      assert parts[1..][j] == parts[j + 1];
    }
  }

  lemma UnsetPathListIsEmpty()
    ensures ParsePathList("") == []
  {
    EmptySettingPieces();
  }

  /** The empty setting splits into one empty piece, which strips to itself. */
  lemma EmptySettingPieces()
    ensures Split("", ',') == [""] && Strip("") == ""
  {
    assert StripLeft("") == "" && StripRight("") == "";
  }

  /** `[e.strip().lower() for e in setting.split(",")]`: no piece is
      dropped, not even an empty one. */
  function ParseExcludePatterns(setting: string): (r: seq<string>)
    ensures |r| == |Split(setting, ',')|
  {
    var parts := Split(setting, ',');
    seq(|parts|, i requires 0 <= i < |parts| => Lower(Strip(parts[i])))
  }

  /** An unset `EXCLUDE_PATTERNS` yields the single empty pattern, and so
      does an empty piece anywhere in the setting. */
  lemma EmptyPieceGivesEmptyPattern(setting: string)
    ensures ParseExcludePatterns("") == [""]
    ensures (exists i :: 0 <= i < |Split(setting, ',')| && Strip(Split(setting, ',')[i]) == "") ==>
              "" in ParseExcludePatterns(setting)
  {
    EmptySettingPieces();
    BlankPieceAt("", 0);
    if exists i :: 0 <= i < |Split(setting, ',')| && Strip(Split(setting, ',')[i]) == "" {
      var i :| 0 <= i < |Split(setting, ',')| && Strip(Split(setting, ',')[i]) == "";
      BlankPieceAt(setting, i);
    }
  }

  lemma BlankPieceAt(setting: string, i: int)
    requires 0 <= i < |Split(setting, ',')| && Strip(Split(setting, ',')[i]) == ""
    ensures ParseExcludePatterns(setting)[i] == ""
  {
    var parts := Split(setting, ',');
    var stripped := Strip(parts[i]);
    assert ParseExcludePatterns(setting)[i] == Lower(stripped);
    assert |Lower(stripped)| == 0;
  }

  // ---------------------------------------------------------------------------
  // on_any_event

  /** The watchdog event fields the handler reads. */
  datatype FsEvent = FsEvent(eventType: string, srcPath: string, isDirectory: bool)

  /** Whether the lower-cased path contains some exclude pattern. */
  predicate Excluded(path: string, patterns: seq<string>) {
    exists i :: 0 <= i < |patterns| && Contains(Lower(path), patterns[i])
  }

  /** Whether `on_any_event` records the event. */
  predicate ShouldRecord(ev: FsEvent, patterns: seq<string>): (r: bool)
    ensures r ==> forall i :: 0 <= i < |patterns| ==> !Contains(Lower(ev.srcPath), patterns[i])
  {
    && !ev.isDirectory
    && !Excluded(ev.srcPath, patterns)
    && !EndsWith(ev.srcPath, ".db")
    && !EndsWith(ev.srcPath, ".db-journal")
  }

  /** An empty exclude pattern is contained in every path, so with one in
      the list (the unset setting included) no event is ever recorded. */
  lemma EmptyPatternDropsEverything(ev: FsEvent, patterns: seq<string>)
    requires "" in patterns
    ensures !ShouldRecord(ev, patterns)
  {
    var i :| 0 <= i < |patterns| && patterns[i] == "";
    EmptyIsContained(Lower(ev.srcPath));
  }

  /** Directory events are never recorded, and the exclusion test does not
      see the case of the path's letters; the `.db` suffix test does. */
  lemma FilterRules(ev: FsEvent, patterns: seq<string>, other: string)
    ensures ev.isDirectory ==> !ShouldRecord(ev, patterns)
    ensures Lower(other) == Lower(ev.srcPath) ==> (Excluded(other, patterns) <==> Excluded(ev.srcPath, patterns))
    ensures (!ev.isDirectory && !Excluded(ev.srcPath, patterns) && EndsWith(ev.srcPath, ".DB")
             && !EndsWith(ev.srcPath, ".db-journal")) ==> ShouldRecord(ev, patterns)
  {
    if !ev.isDirectory && !Excluded(ev.srcPath, patterns) && EndsWith(ev.srcPath, ".DB") {
      var p := ev.srcPath;
      assert p[|p| - 3..] == ".DB";
      assert ".DB"[2] != ".db"[2];
    }
  }

  /** `FileChangeHandler`: the exclude patterns are read once, from the
      setting, when the module loads. */
  class FileChangeHandler {
    const events: EventTable
    const excludePatterns: seq<string>

    constructor (events: EventTable, excludeSetting: string)
      ensures this.events == events
      ensures excludePatterns == ParseExcludePatterns(excludeSetting)
    {
      this.events := events;
      excludePatterns := ParseExcludePatterns(excludeSetting);
    }

    /** `on_any_event(event)`: records a passing event with the current
        time; any other event leaves the table as it was. */
    method OnAnyEvent(ev: FsEvent, now: real)
      requires events.Valid()
      modifies events
      ensures events.Valid()
      ensures ShouldRecord(ev, excludePatterns) ==>
                events.lastId == old(events.lastId) + 1
                && events.rows == old(events.rows) + [EventRow(events.lastId, ev.eventType, ev.srcPath, now, false)]
      ensures !ShouldRecord(ev, excludePatterns) ==>
                events.rows == old(events.rows) && events.lastId == old(events.lastId)
    {
      if ev.isDirectory {
        return;
      }
      var path := ev.srcPath;
      if Excluded(path, excludePatterns) {
        return;
      }
      if EndsWith(path, ".db") || EndsWith(path, ".db-journal") {
        return;
      }
      events.Insert(ev.eventType, path, now);
    }
  }

  // ---------------------------------------------------------------------------
  // get_recent_file_events

  function EventTime(e: EventRow): real { e.timestamp }

  /** The rows `ORDER BY timestamp DESC LIMIT limit` selects. */
  function NewestEvents(rows: seq<EventRow>, limit: int): (r: seq<EventRow>)
    ensures |r| <= |rows|
    ensures limit >= 0 ==> |r| <= limit
  {
    Limit(SortDesc(rows, EventTime), limit)
  }

  /** `[{time}] {TYPE}: {path}`; `fmt` stands for local-time formatting. */
  function RenderEvent(e: EventRow, fmt: real -> string): string {
    "[" + fmt(e.timestamp) + "] " + Upper(e.eventType) + ": " + e.path
  }

  /** `get_recent_file_events(limit)`. */
  function RecentFileEvents(rows: seq<EventRow>, limit: int, fmt: real -> string): (r: seq<string>)
    ensures |r| == |NewestEvents(rows, limit)|
    ensures forall i :: 0 <= i < |r| ==> r[i] == RenderEvent(NewestEvents(rows, limit)[i], fmt)
  {
    var sel := NewestEvents(rows, limit);
    seq(|sel|, i requires 0 <= i < |sel| => RenderEvent(sel[i], fmt))
  }

  /** At most `limit` rows are selected (all of them for a negative limit),
      newest first, drawn from the table, and no row left out is newer than
      a row selected. */
  lemma NewestEventsAreNewest(rows: seq<EventRow>, limit: int)
    ensures |NewestEvents(rows, limit)| == (if limit < 0 then |rows| else Min(limit, |rows|))
    ensures NonIncreasing(NewestEvents(rows, limit), EventTime)
    ensures multiset(NewestEvents(rows, limit)) <= multiset(rows)
    ensures forall x, y :: x in NewestEvents(rows, limit) && y in multiset(rows) - multiset(NewestEvents(rows, limit))
              ==> x.timestamp >= y.timestamp
  {
    var k := if limit < 0 then |rows| else Min(limit, |rows|);
    var sel := NewestEvents(rows, limit);
    assert sel == SortDesc(rows, EventTime)[..k];
    TopOfSorted(rows, EventTime, k);
    forall x, y | x in sel && y in multiset(rows) - multiset(sel) ensures x.timestamp >= y.timestamp {
      assert EventTime(x) >= EventTime(y);
    }
  }
}
