// browser_history.py: the Chrome/Edge timestamp conversion, the recency
// filter over the newest rows of the copied `urls` table, the append of every
// kept entry to `browser_history`, and the limit applied by
// `get_recent_browser_history`.

module BrowserHistory {
  import opened PyText
  import opened Ranking

  /** Microseconds between 1601-01-01 and 1970-01-01. */
  const CHROME_EPOCH_OFFSET_US: int := 11644473600000000
  const MICROS_PER_SECOND: int := 1000000
  const SECONDS_PER_DAY: int := 86400
  /** Rows read from the browser's `urls` table per call. */
  const MAX_ENTRIES: int := 200
  /** The default `days` of `get_recent_browser_history`. */
  const DEFAULT_DAYS: int := 3

  /** `chrome_to_unix(c)`: microseconds since 1601 to whole seconds since
      1970, the quotient truncated toward zero (Python's `int()` of a true
      division), not floored. */
  function ChromeToUnix(chromeTs: int): (r: int)
    ensures var d := chromeTs - CHROME_EPOCH_OFFSET_US;
            && (d >= 0 ==> 0 <= r * MICROS_PER_SECOND <= d < (r + 1) * MICROS_PER_SECOND)
            && (d < 0 ==> (r - 1) * MICROS_PER_SECOND < d <= r * MICROS_PER_SECOND <= 0)
  {
    var d := chromeTs - CHROME_EPOCH_OFFSET_US;
    if d >= 0 then d / MICROS_PER_SECOND else -((-d) / MICROS_PER_SECOND)
  }

  /** Half a second before the Unix epoch converts to 0, where a floored
      division would give -1. */
  lemma ChromeToUnixTowardZero()
    ensures ChromeToUnix(CHROME_EPOCH_OFFSET_US - 500000) == 0
    ensures (CHROME_EPOCH_OFFSET_US - 500000 - CHROME_EPOCH_OFFSET_US) / MICROS_PER_SECOND == -1
  {
  }

  // ---------------------------------------------------------------------------
  // Reading the browser's table

  /** One row of the browser's `urls` table. */
  datatype UrlRow = UrlRow(url: string, title: string, lastVisitTime: int)

  function VisitKey(u: UrlRow): real { u.lastVisitTime as real }

  /** `SELECT url, title, last_visit_time FROM urls ORDER BY last_visit_time
      DESC LIMIT 200`. */
  function NewestRows(urls: seq<UrlRow>): (r: seq<UrlRow>)
    ensures |r| <= MAX_ENTRIES && |r| <= |urls|
  {
    Limit(SortDesc(urls, VisitKey), MAX_ENTRIES)
  }

  /** At most 200 rows are read, most recently visited first, drawn from the
      table, and no row left unread was visited later than a row read. */
  lemma NewestRowsAreNewest(urls: seq<UrlRow>)
    ensures |NewestRows(urls)| == Min(MAX_ENTRIES, |urls|)
    ensures NonIncreasing(NewestRows(urls), VisitKey)
    ensures multiset(NewestRows(urls)) <= multiset(urls)
    ensures forall x, y :: x in NewestRows(urls) && y in multiset(urls) - multiset(NewestRows(urls))
              ==> x.lastVisitTime >= y.lastVisitTime
  {
    var k := Min(MAX_ENTRIES, |urls|);
    var sel := NewestRows(urls);
    assert sel == SortDesc(urls, VisitKey)[..k];
    TopOfSorted(urls, VisitKey, k);
    forall x, y | x in sel && y in multiset(urls) - multiset(sel) ensures x.lastVisitTime >= y.lastVisitTime {
      assert VisitKey(x) >= VisitKey(y);
    }
  }

  // ---------------------------------------------------------------------------
  // The recency filter

  /** A kept entry: `(url, title, ts)`. */
  datatype Entry = Entry(url: string, title: string, ts: int)

  function ToEntry(u: UrlRow): Entry {
    Entry(u.url, u.title, ChromeToUnix(u.lastVisitTime))
  }

  /** `time.time() - ts <= days * 86400`. */
  predicate IsRecent(u: UrlRow, now: real, days: int): (r: bool)
    ensures days >= 0 && ChromeToUnix(u.lastVisitTime) as real >= now ==> r
  {
    now - ChromeToUnix(u.lastVisitTime) as real <= (days * SECONDS_PER_DAY) as real
  }

  /** The entries the loop collects, in the order the rows were read. */
  function Recent(rows: seq<UrlRow>, now: real, days: int): (r: seq<Entry>)
    ensures |r| <= |rows|
  {
    if rows == [] then []
    else
      var last := rows[|rows| - 1];
      Recent(rows[..|rows| - 1], now, days) + (if IsRecent(last, now, days) then [ToEntry(last)] else [])
  }

  /** The positions of the rows the filter keeps, in increasing order. */
  function KeptPositions(rows: seq<UrlRow>, now: real, days: int): (r: seq<int>)
    ensures |r| <= |rows|
    ensures forall k :: 0 <= k < |r| ==> 0 <= r[k] < |rows|
  {
    if rows == [] then []
    else
      var n := |rows| - 1;
      KeptPositions(rows[..n], now, days) + (if IsRecent(rows[n], now, days) then [n] else [])
  }

  /** The filter keeps exactly the recent rows and keeps them in read order:
      entry k comes from the k-th kept position, the positions increase,
      and a position is kept iff its row is recent. */
  lemma RecentKeepsReadOrder(rows: seq<UrlRow>, now: real, days: int)
    ensures |Recent(rows, now, days)| == |KeptPositions(rows, now, days)|
    ensures forall k :: 0 <= k < |Recent(rows, now, days)| ==>
              Recent(rows, now, days)[k] == ToEntry(rows[KeptPositions(rows, now, days)[k]])
    ensures forall k, l :: 0 <= k < l < |KeptPositions(rows, now, days)| ==>
              KeptPositions(rows, now, days)[k] < KeptPositions(rows, now, days)[l]
    ensures forall i :: 0 <= i < |rows| ==> (i in KeptPositions(rows, now, days) <==> IsRecent(rows[i], now, days))
  {
    RecentAtKeptPositions(rows, now, days);
    KeptPositionsIncrease(rows, now, days);
    KeptPositionsAreRecent(rows, now, days);
  }

  lemma {:induction false} RecentAtKeptPositions(rows: seq<UrlRow>, now: real, days: int)
    ensures |Recent(rows, now, days)| == |KeptPositions(rows, now, days)|
    ensures forall k :: 0 <= k < |Recent(rows, now, days)| ==>
              Recent(rows, now, days)[k] == ToEntry(rows[KeptPositions(rows, now, days)[k]])
  {
    if rows != [] {
      var init := rows[..|rows| - 1];
      RecentAtKeptPositions(init, now, days);
      var pos0 := KeptPositions(init, now, days);
      assert forall k :: 0 <= k < |pos0| ==> rows[pos0[k]] == init[pos0[k]];
    }
  }

  lemma {:induction false} KeptPositionsIncrease(rows: seq<UrlRow>, now: real, days: int)
    ensures forall k, l :: 0 <= k < l < |KeptPositions(rows, now, days)| ==>
              KeptPositions(rows, now, days)[k] < KeptPositions(rows, now, days)[l]
  {
    if rows != [] {
      KeptPositionsIncrease(rows[..|rows| - 1], now, days);
    }
  }

  lemma {:induction false} KeptPositionsAreRecent(rows: seq<UrlRow>, now: real, days: int)
    ensures forall i :: 0 <= i < |rows| ==> (i in KeptPositions(rows, now, days) <==> IsRecent(rows[i], now, days))
  {
    if rows != [] {
      var n := |rows| - 1;
      var init := rows[..n];
      KeptPositionsAreRecent(init, now, days);
      assert forall i :: 0 <= i < n ==> rows[i] == init[i];
    }
  }

  /** The loop `for url, title, visit_time in rows: ...` of
      `fetch_recent_history`. */
  method FilterRecent(rows: seq<UrlRow>, now: real, days: int) returns (entries: seq<Entry>)
    ensures entries == Recent(rows, now, days)
  {
    entries := [];
    var i := 0;
    while i < |rows|
      invariant 0 <= i <= |rows|
      invariant entries == Recent(rows[..i], now, days)
    {
      var ts := ChromeToUnix(rows[i].lastVisitTime);
      if now - ts as real <= (days * SECONDS_PER_DAY) as real {
        entries := entries + [Entry(rows[i].url, rows[i].title, ts)];
      }
      assert rows[..i + 1][..i] == rows[..i];
      i := i + 1;
    }
    assert rows[..i] == rows;
  }

  /** `[{local time of ts}] {title} — {url}`; `fmt` stands for
      `time.strftime('%Y-%m-%d %H:%M:%S', time.localtime(ts))`. */
  function RenderEntry(e: Entry, fmt: int -> string): string {
    "[" + fmt(e.ts) + "] " + e.title + " — " + e.url
  }

  function RenderAll(entries: seq<Entry>, fmt: int -> string): (r: seq<string>)
    ensures |r| == |entries|
    ensures forall i :: 0 <= i < |entries| ==> r[i] == RenderEntry(entries[i], fmt)
  {
    seq(|entries|, i requires 0 <= i < |entries| => RenderEntry(entries[i], fmt))
  }

  /** The lines `get_recent_browser_history(limit, days)` returns: none when
      the history file is missing, otherwise the first `limit` rendered
      entries. */
  function RecentHistoryLines(urls: Option<seq<UrlRow>>, limit: int, now: real, days: int,
                              fmt: int -> string): seq<string>
  {
    if urls.None? then [] else PySlice(RenderAll(Recent(NewestRows(urls.value), now, days), fmt), 0, limit)
  }

  // ---------------------------------------------------------------------------
  // The `browser_history` table

  /** One row of `browser_history`: `visit_time` holds the Unix seconds. */
  datatype HistoryRow = HistoryRow(id: int, url: string, title: string, visitTime: int)

  /** The rows appended for `entries` when the last id handed out is
      `lastId`. */
  function AppendedRows(entries: seq<Entry>, lastId: int): (r: seq<HistoryRow>)
    ensures |r| == |entries|
    ensures forall k :: 0 <= k < |entries| ==>
              r[k] == HistoryRow(lastId + k + 1, entries[k].url, entries[k].title, entries[k].ts)
  {
    seq(|entries|, k requires 0 <= k < |entries| =>
      HistoryRow(lastId + k + 1, entries[k].url, entries[k].title, entries[k].ts))
  }

  class HistoryTable {
    var rows: seq<HistoryRow>
    var lastId: int

    ghost predicate Valid()
      reads this
    {
      && 0 <= lastId
      && (forall i, j :: 0 <= i < j < |rows| ==> rows[i].id < rows[j].id)
      && (forall i :: 0 <= i < |rows| ==> 1 <= rows[i].id <= lastId)
    }

    constructor ()
      ensures Valid() && rows == [] && lastId == 0
    {
      rows := [];
      lastId := 0;
    }

    /** The insert loop: one `INSERT` per entry, in order. */
    method AppendAll(entries: seq<Entry>)
      requires Valid()
      modifies this
      ensures Valid()
      ensures lastId == old(lastId) + |entries|
      ensures rows == old(rows) + AppendedRows(entries, old(lastId))
    {
      var i := 0;
      while i < |entries|
        invariant 0 <= i <= |entries|
        invariant Valid()
        invariant lastId == old(lastId) + i
        invariant rows == old(rows) + AppendedRows(entries[..i], old(lastId))
      {
        lastId := lastId + 1;
        rows := rows + [HistoryRow(lastId, entries[i].url, entries[i].title, entries[i].ts)];
        assert AppendedRows(entries[..i + 1], old(lastId))
            == AppendedRows(entries[..i], old(lastId)) + [HistoryRow(lastId, entries[i].url, entries[i].title, entries[i].ts)];
        i := i + 1;
      }
      assert entries[..i] == entries;
    }

    /** `fetch_recent_history(days)`: `urls` is the browser's table, or
        None when the history file does not exist; `now` is the clock. */
    method FetchRecentHistory(urls: Option<seq<UrlRow>>, now: real, days: int, fmt: int -> string)
      returns (r: seq<string>)
      requires Valid()
      modifies this
      ensures Valid()
      ensures urls.None? ==> r == [] && rows == old(rows) && lastId == old(lastId)
      ensures urls.Some? ==>
                var entries := Recent(NewestRows(urls.value), now, days);
                && r == RenderAll(entries, fmt)
                && rows == old(rows) + AppendedRows(entries, old(lastId))
                && lastId == old(lastId) + |entries|
    {
      if urls.None? {
        return [];
      }
      var read := Limit(SortDesc(urls.value, VisitKey), MAX_ENTRIES);
      var entries := FilterRecent(read, now, days);
      AppendAll(entries);
      r := RenderAll(entries, fmt);
    }

    /** `get_recent_browser_history(limit, days)`: `entries[:limit]`. */
    method GetRecentBrowserHistory(urls: Option<seq<UrlRow>>, limit: int, now: real, days: int, fmt: int -> string)
      returns (r: seq<string>)
      requires Valid()
      modifies this
      ensures Valid()
      ensures r == RecentHistoryLines(urls, limit, now, days, fmt)
      ensures urls.None? ==> rows == old(rows) && lastId == old(lastId)
      ensures urls.Some? ==>
                var entries := Recent(NewestRows(urls.value), now, days);
                && rows == old(rows) + AppendedRows(entries, old(lastId))
                && lastId == old(lastId) + |entries|
    {
      var all := FetchRecentHistory(urls, now, days, fmt);
      r := PySlice(all, 0, limit);
    }
  }

  /** `entries[:limit]` is a prefix of the entries, of length
      `min(limit, n)` for a non-negative limit; a negative limit drops that
      many entries from the end. */
  lemma HistoryLimitIsPrefix(entries: seq<string>, limit: int)
    ensures PySlice(entries, 0, limit) <= entries
    ensures limit >= 0 ==> |PySlice(entries, 0, limit)| == Min(limit, |entries|)
    ensures limit < 0 ==> |PySlice(entries, 0, limit)| == Max(|entries| + limit, 0)
  {
  }
}
