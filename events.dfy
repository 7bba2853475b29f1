// The `events` table: the work queue between the file watcher, which
// appends one row per file-system event (watcher.py `insert_event`), and the
// indexer, which reads the pending rows oldest first and marks them
// processed (indexer.py `fetch_pending_events`, `mark_event_processed`).

module Events {
  import opened PyText

  /** One row of `events`: `processed` is the 0/1 column. */
  datatype EventRow = EventRow(id: int, eventType: string, path: string, timestamp: real, processed: bool)

  /** Ids are unique and rows are kept in id order. */
  ghost predicate IdsIncreasing(rows: seq<EventRow>) {
    forall i, j :: 0 <= i < j < |rows| ==> rows[i].id < rows[j].id
  }

  /** The rows with `processed=0`, in id order. */
  function Pending(rows: seq<EventRow>): (r: seq<EventRow>)
    ensures |r| <= |rows|
    ensures forall e :: e in r <==> e in rows && !e.processed
  {
    if rows == [] then []
    else (if rows[0].processed then [] else [rows[0]]) + Pending(rows[1..])
  }

  /** `SELECT ... WHERE processed=0 ORDER BY id LIMIT ?`. */
  function FetchPendingRows(rows: seq<EventRow>, limit: int): seq<EventRow> {
    Limit(Pending(rows), limit)
  }

  lemma {:induction false} PendingKeepsOrder(rows: seq<EventRow>)
    requires IdsIncreasing(rows)
    ensures IdsIncreasing(Pending(rows))
  {
    if rows != [] {
      PendingKeepsOrder(rows[1..]);
      var tail := Pending(rows[1..]);
      forall j | 0 <= j < |tail| ensures rows[0].id < tail[j].id {
        assert tail[j] in rows[1..];
        var m :| 0 <= m < |rows| - 1 && rows[1..][m] == tail[j];
        assert rows[m + 1] == tail[j];
      }
    }
  }

  /** `fetch_pending_events(limit)` returns only unprocessed rows, in
      increasing id order, at most `limit` of them (every pending row for a
      negative limit), and they are the first pending rows: the result is a
      prefix of all pending rows. */
  lemma FetchPendingIsOldestFirst(rows: seq<EventRow>, limit: int)
    requires IdsIncreasing(rows)
    ensures var r := FetchPendingRows(rows, limit);
            && (forall e :: e in r ==> e in rows && !e.processed)
            && IdsIncreasing(r)
            && r <= Pending(rows)
            && |r| == (if limit < 0 then |Pending(rows)| else Min(limit, |Pending(rows)|))
  {
    PendingKeepsOrder(rows);
    var r := FetchPendingRows(rows, limit);
    forall e | e in r ensures e in Pending(rows) {
      var i :| 0 <= i < |r| && r[i] == e;
      assert Pending(rows)[i] == e;
    }
  }

  /** `UPDATE events SET processed=1 WHERE id=?`. */
  function Marked(rows: seq<EventRow>, eid: int): (r: seq<EventRow>)
    ensures |r| == |rows|
  {
    seq(|rows|, i requires 0 <= i < |rows| =>
      if rows[i].id == eid then rows[i].(processed := true) else rows[i])
  }

  /** Marking sets `processed` on the row with that id and changes nothing
      else, in any row. */
  lemma MarkedChangesOnlyThatRow(rows: seq<EventRow>, eid: int)
    ensures forall i :: 0 <= i < |rows| ==>
              Marked(rows, eid)[i] == rows[i].(processed := rows[i].processed || rows[i].id == eid)
  {
  }

  /** Marking the same id twice is the same as marking it once. */
  lemma MarkedIdempotent(rows: seq<EventRow>, eid: int)
    ensures Marked(Marked(rows, eid), eid) == Marked(rows, eid)
  {
  }

  /** Marking an id no row has changes nothing. */
  lemma MarkedUnknownId(rows: seq<EventRow>, eid: int)
    requires forall i :: 0 <= i < |rows| ==> rows[i].id != eid
    ensures Marked(rows, eid) == rows
  {
  }

  /** After marking, no pending row has that id. */
  lemma MarkedLeavesPending(rows: seq<EventRow>, eid: int)
    ensures forall e :: e in Pending(Marked(rows, eid)) ==> e.id != eid
  {
  }

  /** Marking each of a list of ids in turn, first to last. */
  function MarkedAll(rows: seq<EventRow>, ids: seq<int>): (r: seq<EventRow>)
    ensures |r| == |rows|
  {
    if ids == [] then rows else Marked(MarkedAll(rows, ids[..|ids| - 1]), ids[|ids| - 1])
  }

  /** Marking a list of ids in turn marks exactly the rows with one of those
      ids and keeps every other field of every row. */
  lemma {:induction false} MarkedAllMarksExactly(rows: seq<EventRow>, ids: seq<int>)
    ensures forall i :: 0 <= i < |rows| ==>
              MarkedAll(rows, ids)[i] == rows[i].(processed := rows[i].processed || rows[i].id in ids)
  {
    if ids != [] {
      var init := ids[..|ids| - 1];
      MarkedAllMarksExactly(rows, init);
      assert forall x :: x in ids <==> x in init || x == ids[|ids| - 1] by {
        assert ids == init + [ids[|ids| - 1]];
      }
    }
  }

  /** After marking a list of ids, none of them is pending any more. */
  lemma MarkedAllLeavesNonePending(rows: seq<EventRow>, ids: seq<int>)
    ensures forall e :: e in Pending(MarkedAll(rows, ids)) ==> e.id !in ids
  {
    MarkedAllMarksExactly(rows, ids);
    forall e | e in Pending(MarkedAll(rows, ids)) ensures e.id !in ids {
      var m := MarkedAll(rows, ids);
      var i :| 0 <= i < |m| && m[i] == e;
    }
  }

  function IdsOf(rows: seq<EventRow>): (r: seq<int>)
    ensures |r| == |rows|
    ensures forall i :: 0 <= i < |rows| ==> r[i] == rows[i].id
  {
    seq(|rows|, i requires 0 <= i < |rows| => rows[i].id)
  }

  /** The events table. AUTOINCREMENT hands out ids above every id ever
      used; rows are never deleted, so `lastId` is the largest id. */
  class EventTable {
    var rows: seq<EventRow>
    var lastId: int

    ghost predicate Valid()
      reads this
    {
      && IdsIncreasing(rows)
      && 0 <= lastId
      && (forall i :: 0 <= i < |rows| ==> 1 <= rows[i].id <= lastId)
    }

    constructor ()
      ensures Valid() && rows == [] && lastId == 0
    {
      rows := [];
      lastId := 0;
    }

    /** `insert_event(conn, event_type, path, timestamp)`: appends one
        unprocessed row with a fresh id. */
    method Insert(eventType: string, path: string, timestamp: real)
      requires Valid()
      modifies this
      ensures Valid()
      ensures lastId == old(lastId) + 1
      ensures rows == old(rows) + [EventRow(lastId, eventType, path, timestamp, false)]
    {
      lastId := lastId + 1;
      rows := rows + [EventRow(lastId, eventType, path, timestamp, false)];
    }

    /** `fetch_pending_events(limit)`. */
    method FetchPending(limit: int) returns (r: seq<EventRow>)
      requires Valid()
      ensures r == FetchPendingRows(rows, limit)
      ensures forall e :: e in r ==> e in rows && !e.processed
      ensures limit >= 0 ==> |r| <= limit
    {
      r := Limit(Pending(rows), limit);
    }

    /** `mark_event_processed(eid)`. */
    method MarkProcessed(eid: int)
      requires Valid()
      modifies this
      ensures Valid()
      ensures lastId == old(lastId)
      ensures rows == Marked(old(rows), eid)
    {
      rows := Marked(rows, eid);
    }
  }
}
