/** The relational event store: the table `public.events` as a sequence of
    rows in scan order, each with a positive surrogate id, and the guard
    logic that the insert, update, remove and query operations wrap around
    their SQL statements.  Database faults are oracle flags: `lookupFails`
    for a failing SELECT, `commitFails` for a failing COMMIT (which rolls the
    transaction back). */
module Psql {
  import opened Calendar
  import opened Structs

  datatype Option<T> = None | Some(value: T)

  datatype PSQLEvent = PSQLEvent(
    uuid: string,
    header: string,
    dateTime: Instant,
    description: string,
    owner: string,
    mailingDuration: Int32,
    eventDurationStart: Instant,
    eventDurationStop: Instant)

  /** A change request: the UUID to look up and the record to write. */
  datatype PSQLChangeEvent = PSQLChangeEvent(event: PSQLEvent, uuid: string)

  /** A row of the table: the database-assigned id and the event's columns. */
  datatype Row = Row(id: int, event: PSQLEvent)

  datatype DbError = QueryFailed | CommitFailed | AlreadyExists(uuid: string) | NotExist(uuid: string)

  /** Row ids are positive and no two rows share one. */
  ghost predicate ValidRows(rows: seq<Row>) {
    && (forall i :: 0 <= i < |rows| ==> rows[i].id > 0)
    && (forall i, j :: 0 <= i < j < |rows| ==> rows[i].id != rows[j].id)
  }

  /** No row carries `uuid`. */
  predicate Absent(rows: seq<Row>, uuid: string) {
    forall i :: 0 <= i < |rows| ==> rows[i].event.uuid != uuid
  }

  /** Index of the first row, in scan order, that carries `uuid`; `|rows|`
      when there is none. */
  function FirstMatch(rows: seq<Row>, uuid: string): (i: nat)
    ensures i <= |rows|
    ensures forall j :: 0 <= j < i ==> rows[j].event.uuid != uuid
    ensures i < |rows| ==> rows[i].event.uuid == uuid
  {
    if rows == [] then 0
    else if rows[0].event.uuid == uuid then 0
    else 1 + FirstMatch(rows[1..], uuid)
  }

  /** `SELECT id FROM public.events WHERE uuid = $1`: the ids of the matching
      rows, in scan order. */
  function SelectIds(rows: seq<Row>, uuid: string): (ids: seq<int>)
    ensures |ids| <= |rows|
    ensures ids == [] <==> Absent(rows, uuid)
    ensures ids != [] ==> ids[0] == rows[FirstMatch(rows, uuid)].id
  {
    if rows == [] then []
    else if rows[0].event.uuid == uuid then [rows[0].id] + SelectIds(rows[1..], uuid)
    else
      var rest := SelectIds(rows[1..], uuid);
      assert Absent(rows[1..], uuid) ==> Absent(rows, uuid);
      rest
  }

  /** GetEventIdByUUID: the id of the first matching row, 0 when no row
      matches, and (0, error) when the query fails. */
  function GetEventIdByUUID(rows: seq<Row>, uuid: string, lookupFails: bool): (r: (int, Option<DbError>))
    ensures lookupFails ==> r == (0, Some(QueryFailed))
    ensures !lookupFails ==> r.1 == None
    ensures !lookupFails && Absent(rows, uuid) ==> r.0 == 0
    ensures !lookupFails && !Absent(rows, uuid) ==>
      FirstMatch(rows, uuid) < |rows| && r.0 == rows[FirstMatch(rows, uuid)].id
  {
    if lookupFails then (0, Some(QueryFailed))
    else
      var ids := SelectIds(rows, uuid);
      if |ids| > 0 then (ids[0], None) else (0, None)
  }

  /** The row's datetime lies in the closed interval [start, stop]. */
  predicate InRange(row: Row, start: Instant, stop: Instant) {
    start <= row.event.dateTime <= stop
  }

  /** The positions, in increasing order, of the rows inside [start, stop]:
      every such row appears once, and no other row does. */
  ghost function RangeIndices(rows: seq<Row>, start: Instant, stop: Instant): (idx: seq<nat>)
    ensures forall j :: 0 <= j < |idx| ==> idx[j] < |rows| && InRange(rows[idx[j]], start, stop)
    ensures forall j, k :: 0 <= j < k < |idx| ==> idx[j] < idx[k]
    ensures forall i :: 0 <= i < |rows| && InRange(rows[i], start, stop) ==> i in idx
  {
    if rows == [] then []
    else
      var last := |rows| - 1;
      var before := RangeIndices(rows[..last], start, stop);
      if InRange(rows[last], start, stop) then before + [last] else before
  }

  /** The result of `SELECT ... WHERE datetime >= $1 AND datetime <= $2`, in
      scan order: position j holds the event of the j-th row inside the
      interval, so each such row is returned exactly once and nothing else is. */
  function SelectBetween(rows: seq<Row>, start: Instant, stop: Instant): (events: seq<PSQLEvent>)
    ensures var idx := RangeIndices(rows, start, stop);
      && |events| == |idx|
      && forall j :: 0 <= j < |idx| ==> events[j] == rows[idx[j]].event
  {
    if rows == [] then []
    else
      var last := |rows| - 1;
      var before := SelectBetween(rows[..last], start, stop);
      ghost var idx := RangeIndices(rows[..last], start, stop);
      assert forall j :: 0 <= j < |idx| ==> rows[..last][idx[j]] == rows[idx[j]];
      if InRange(rows[last], start, stop) then before + [rows[last].event] else before
  }

  /** GetEvents: the events of every row whose datetime lies in the closed
      interval [start, stop], each once, in scan order; nil (here the empty
      sequence) with no error when none does, and nil with an error when the
      query fails. */
  function GetEvents(rows: seq<Row>, start: Instant, stop: Instant, queryFails: bool): (r: (seq<PSQLEvent>, Option<DbError>))
    ensures queryFails ==> r == ([], Some(QueryFailed))
    ensures !queryFails ==> r.1 == None && r.0 == SelectBetween(rows, start, stop)
    ensures !queryFails ==> var idx := RangeIndices(rows, start, stop);
      && |r.0| == |idx|
      && forall j :: 0 <= j < |idx| ==> r.0[j] == rows[idx[j]].event
    ensures !queryFails ==> (r.0 == [] <==> forall i :: 0 <= i < |rows| ==> !InRange(rows[i], start, stop))
  {
    if queryFails then ([], Some(QueryFailed))
    else
      var selected := SelectBetween(rows, start, stop);
      ghost var idx := RangeIndices(rows, start, stop);
      if |selected| > 0 then
        assert InRange(rows[idx[0]], start, stop);
        (selected, None)
      else
        assert forall i :: 0 <= i < |rows| ==> !InRange(rows[i], start, stop) by {
          forall i | 0 <= i < |rows| ensures !InRange(rows[i], start, stop) {
            if InRange(rows[i], start, stop) {
              assert false;
            }
          }
        }
        ([], None)
  }

  /** `UPDATE public.events SET ... WHERE id = $9`. */
  function SetWhereId(rows: seq<Row>, id: int, event: PSQLEvent): (r: seq<Row>)
    ensures |r| == |rows|
    ensures forall i :: 0 <= i < |r| ==> r[i].id == rows[i].id
    ensures forall i :: 0 <= i < |r| && rows[i].id != id ==> r[i] == rows[i]
    ensures forall i :: 0 <= i < |r| && rows[i].id == id ==> r[i].event == event
  {
    seq(|rows|, i requires 0 <= i < |rows| => if rows[i].id == id then Row(id, event) else rows[i])
  }

  /** `DELETE FROM public.events WHERE id = $1`, keeping the other rows in order. */
  function DeleteWhereId(rows: seq<Row>, id: int): (r: seq<Row>)
    ensures |r| <= |rows|
    ensures forall x :: x in r <==> x in rows && x.id != id
  {
    if rows == [] then []
    else if rows[0].id == id then DeleteWhereId(rows[1..], id)
    else [rows[0]] + DeleteWhereId(rows[1..], id)
  }

  /** A statement aimed at id 0 touches nothing, since every row id is positive. */
  lemma WriteToIdZeroIsNoOp(rows: seq<Row>, event: PSQLEvent)
    requires ValidRows(rows)
    ensures SetWhereId(rows, 0, event) == rows
    ensures DeleteWhereId(rows, 0) == rows
  {
    var updated := SetWhereId(rows, 0, event);
    assert forall i :: 0 <= i < |rows| ==> updated[i] == rows[i];
    DeleteAbsentIdIsNoOp(rows, 0);
  }

  /** With positive row ids, a successful lookup yields 0 exactly when no row
      carries the UUID, so 0 can serve as "not found". */
  lemma LookupIsZeroIffAbsent(rows: seq<Row>, uuid: string)
    requires ValidRows(rows)
    ensures GetEventIdByUUID(rows, uuid, false).0 == 0 <==> Absent(rows, uuid)
  {
  }

  lemma {:induction false} FirstMatchAfterAppend(rows: seq<Row>, row: Row, uuid: string)
    requires Absent(rows, uuid) && row.event.uuid == uuid
    ensures FirstMatch(rows + [row], uuid) == |rows|
  {
    if rows != [] {
      assert (rows + [row])[1..] == rows[1..] + [row];
      FirstMatchAfterAppend(rows[1..], row, uuid);
    }
  }

  /** An inserted event is found again under its UUID, at the id it was given. */
  lemma InsertThenLookup(rows: seq<Row>, id: int, event: PSQLEvent)
    requires Absent(rows, event.uuid)
    ensures GetEventIdByUUID(rows + [Row(id, event)], event.uuid, false) == (id, None)
  {
    FirstMatchAfterAppend(rows, Row(id, event), event.uuid);
  }

  /** Deleting by a row's id removes exactly that row when ids are distinct. */
  lemma {:induction false} DeleteWhereIdAt(rows: seq<Row>, k: nat)
    requires ValidRows(rows) && k < |rows|
    ensures DeleteWhereId(rows, rows[k].id) == rows[..k] + rows[k + 1..]
  {
    var id := rows[k].id;
    var tail := rows[1..];
    if k == 0 {
      DeleteAbsentIdIsNoOp(tail, id);
    } else {
      assert ValidRows(tail);
      assert tail[k - 1] == rows[k];
      DeleteWhereIdAt(tail, k - 1);
      assert rows[0].id != id;
      assert rows[..k] == [rows[0]] + tail[..k - 1];
      assert rows[k + 1..] == tail[k..];
      calc {
        DeleteWhereId(rows, id);
        [rows[0]] + DeleteWhereId(tail, id);
        [rows[0]] + (tail[..k - 1] + tail[k..]);
      }
    }
  }

  /** Deleting rows keeps ids positive and distinct. */
  lemma {:induction false} DeleteKeepsValid(rows: seq<Row>, id: int)
    requires ValidRows(rows)
    ensures ValidRows(DeleteWhereId(rows, id))
  {
    if rows != [] {
      var tail := rows[1..];
      assert ValidRows(tail);
      DeleteKeepsValid(tail, id);
      if rows[0].id != id {
        var rest := DeleteWhereId(tail, id);
        HeadIdNotInTail(rows);
        assert DeleteWhereId(rows, id) == [rows[0]] + rest;
        ConsKeepsValid(rows[0], rest);
      }
    }
  }

  lemma HeadIdNotInTail(rows: seq<Row>)
    requires ValidRows(rows) && rows != []
    ensures forall x :: x in rows[1..] ==> x.id != rows[0].id
  {
    forall x | x in rows[1..] ensures x.id != rows[0].id {
      var j :| 0 <= j < |rows[1..]| && rows[1..][j] == x;
      assert rows[j + 1] == x;
    }
  }

  lemma ConsKeepsValid(row: Row, rest: seq<Row>)
    requires row.id > 0 && ValidRows(rest)
    requires forall x :: x in rest ==> x.id != row.id
    ensures ValidRows([row] + rest)
  {
    var rows := [row] + rest;
    forall i, j | 0 <= i < j < |rows| ensures rows[i].id != rows[j].id {
      if i == 0 {
        assert rows[j] == rest[j - 1];
        assert rest[j - 1] in rest;
      } else {
        assert rows[i] == rest[i - 1] && rows[j] == rest[j - 1];
      }
    }
  }

  /** Deleting an id that no row has leaves the table as it was. */
  lemma {:induction false} DeleteAbsentIdIsNoOp(rows: seq<Row>, id: int)
    requires forall i :: 0 <= i < |rows| ==> rows[i].id != id
    ensures DeleteWhereId(rows, id) == rows
  {
    if rows != [] {
      DeleteAbsentIdIsNoOp(rows[1..], id);
      assert rows == [rows[0]] + rows[1..];
    }
  }

  /** Both ends of the interval are inclusive: a row exactly at `stop` is
      returned for [start, stop] and again for [stop, later]. */
  lemma SharedEndpointReturnedTwice(rows: seq<Row>, k: nat, start: Instant, stop: Instant, later: Instant)
    requires k < |rows| && rows[k].event.dateTime == stop && start <= stop <= later
    ensures rows[k].event in GetEvents(rows, start, stop, false).0
    ensures rows[k].event in GetEvents(rows, stop, later, false).0
  {
    ReturnedWhenInRange(rows, k, start, stop);
    ReturnedWhenInRange(rows, k, stop, later);
  }

  /** Every row inside the interval has its event in the result. */
  lemma ReturnedWhenInRange(rows: seq<Row>, k: nat, start: Instant, stop: Instant)
    requires k < |rows| && InRange(rows[k], start, stop)
    ensures rows[k].event in GetEvents(rows, start, stop, false).0
  {
    var idx := RangeIndices(rows, start, stop);
    var j :| 0 <= j < |idx| && idx[j] == k;
    assert GetEvents(rows, start, stop, false).0[j] == rows[k].event;
  }

  class PSQL {
    var rows: seq<Row>
    var nextId: int  // the id the database gives the next inserted row

    ghost predicate Valid()
      reads this
    {
      && ValidRows(rows)
      && 0 < nextId
      && (forall r :: r in rows ==> r.id < nextId)
    }

    constructor ()
      ensures Valid() && rows == []
    {
      rows, nextId := [], 1;
    }

    /** Inserts `event` as a new row unless a row with its UUID exists. */
    method InsertEvent(event: PSQLEvent, lookupFails: bool, commitFails: bool)
      returns (ok: bool, err: Option<DbError>)
      requires Valid()
      modifies this
      ensures Valid()
      ensures ok <==> !lookupFails && Absent(old(rows), event.uuid) && !commitFails
      ensures rows == if ok then old(rows) + [Row(old(nextId), event)] else old(rows)
      ensures ok <==> err == None
      ensures lookupFails ==> err == Some(QueryFailed)
      ensures !lookupFails && !Absent(old(rows), event.uuid) ==> err == Some(AlreadyExists(event.uuid))
      ensures !lookupFails && Absent(old(rows), event.uuid) && commitFails ==> err == Some(CommitFailed)
      ensures nextId == old(nextId) + if ok then 1 else 0
    {
      var (identifier, lookupErr) := GetEventIdByUUID(rows, event.uuid, lookupFails);
      if lookupErr.Some? {
        return false, lookupErr;
      }
      LookupIsZeroIffAbsent(rows, event.uuid);
      if identifier != 0 {
        return false, Some(AlreadyExists(event.uuid));
      }
      var staged := rows + [Row(nextId, event)];
      if commitFails {
        return false, Some(CommitFailed);
      }
      rows, nextId := staged, nextId + 1;
      return true, None;
    }

    /** UpdateEvent as written: it refuses with "not exist" exactly when the
        UUID IS present, and otherwise writes to the row with id 0, which does
        not exist; so it never changes the table and reports success exactly
        when the UUID is absent. */
    method UpdateEvent(req: PSQLChangeEvent, lookupFails: bool, commitFails: bool)
      returns (ok: bool, err: Option<DbError>)
      requires Valid()
      modifies this
      ensures Valid()
      ensures rows == old(rows)
      ensures ok <==> !lookupFails && Absent(old(rows), req.uuid) && !commitFails
      ensures ok <==> err == None
      ensures lookupFails ==> err == Some(QueryFailed)
      ensures !lookupFails && !Absent(old(rows), req.uuid) ==> err == Some(NotExist(req.uuid))
      ensures !lookupFails && Absent(old(rows), req.uuid) && commitFails ==> err == Some(CommitFailed)
      ensures nextId == old(nextId)
    {
      var (identifier, lookupErr) := GetEventIdByUUID(rows, req.uuid, lookupFails);
      if lookupErr.Some? {
        return false, lookupErr;
      }
      LookupIsZeroIffAbsent(rows, req.uuid);
      if identifier != 0 {
        return false, Some(NotExist(req.uuid));
      }
      var staged := SetWhereId(rows, identifier, req.event);
      if commitFails {
        return false, Some(CommitFailed);
      }
      WriteToIdZeroIsNoOp(rows, req.event);
      rows := staged;
      return true, None;
    }

    /** RemoveEvent as written: the same inverted guard, then a delete of the
        row with id 0; it never changes the table. */
    method RemoveEvent(req: PSQLChangeEvent, lookupFails: bool, commitFails: bool)
      returns (ok: bool, err: Option<DbError>)
      requires Valid()
      modifies this
      ensures Valid()
      ensures rows == old(rows)
      ensures ok <==> !lookupFails && Absent(old(rows), req.uuid) && !commitFails
      ensures ok <==> err == None
      ensures lookupFails ==> err == Some(QueryFailed)
      ensures !lookupFails && !Absent(old(rows), req.uuid) ==> err == Some(NotExist(req.uuid))
      ensures !lookupFails && Absent(old(rows), req.uuid) && commitFails ==> err == Some(CommitFailed)
      ensures nextId == old(nextId)
    {
      var (identifier, lookupErr) := GetEventIdByUUID(rows, req.uuid, lookupFails);
      if lookupErr.Some? {
        return false, lookupErr;
      }
      LookupIsZeroIffAbsent(rows, req.uuid);
      if identifier != 0 {
        return false, Some(NotExist(req.uuid));
      }
      var staged := DeleteWhereId(rows, identifier);
      if commitFails {
        return false, Some(CommitFailed);
      }
      WriteToIdZeroIsNoOp(rows, req.event);
      rows := staged;
      return true, None;
    }

    /** UpdateEvent with the guard the error message describes: refuse when
        the UUID is absent, otherwise overwrite the first row carrying it. */
    method UpdateEventChecked(req: PSQLChangeEvent, lookupFails: bool, commitFails: bool)
      returns (ok: bool, err: Option<DbError>)
      requires Valid()
      modifies this
      ensures Valid()
      ensures ok <==> !lookupFails && !Absent(old(rows), req.uuid) && !commitFails
      ensures ok <==> err == None
      ensures lookupFails ==> err == Some(QueryFailed)
      ensures !lookupFails && Absent(old(rows), req.uuid) ==> err == Some(NotExist(req.uuid))
      ensures !lookupFails && !Absent(old(rows), req.uuid) && commitFails ==> err == Some(CommitFailed)
      ensures nextId == old(nextId)
      ensures !ok ==> rows == old(rows)
      ensures ok ==> var k := FirstMatch(old(rows), req.uuid);
        && |rows| == |old(rows)|
        && rows[k] == Row(old(rows)[k].id, req.event)
        && forall i :: 0 <= i < |rows| && i != k ==> rows[i] == old(rows)[i]
    {
      var (identifier, lookupErr) := GetEventIdByUUID(rows, req.uuid, lookupFails);
      if lookupErr.Some? {
        return false, lookupErr;
      }
      LookupIsZeroIffAbsent(rows, req.uuid);
      if identifier == 0 {
        return false, Some(NotExist(req.uuid));
      }
      var staged := SetWhereId(rows, identifier, req.event);
      if commitFails {
        return false, Some(CommitFailed);
      }
      rows := staged;
      return true, None;
    }

    /** RemoveEvent with the intended guard: refuse when the UUID is absent,
        otherwise delete the first row carrying it. */
    method RemoveEventChecked(req: PSQLChangeEvent, lookupFails: bool, commitFails: bool)
      returns (ok: bool, err: Option<DbError>)
      requires Valid()
      modifies this
      ensures Valid()
      ensures ok <==> !lookupFails && !Absent(old(rows), req.uuid) && !commitFails
      ensures ok <==> err == None
      ensures lookupFails ==> err == Some(QueryFailed)
      ensures !lookupFails && Absent(old(rows), req.uuid) ==> err == Some(NotExist(req.uuid))
      ensures !lookupFails && !Absent(old(rows), req.uuid) && commitFails ==> err == Some(CommitFailed)
      ensures nextId == old(nextId)
      ensures !ok ==> rows == old(rows)
      ensures ok ==> var k := FirstMatch(old(rows), req.uuid);
        rows == old(rows)[..k] + old(rows)[k + 1..]
    {
      var (identifier, lookupErr) := GetEventIdByUUID(rows, req.uuid, lookupFails);
      if lookupErr.Some? {
        return false, lookupErr;
      }
      LookupIsZeroIffAbsent(rows, req.uuid);
      if identifier == 0 {
        return false, Some(NotExist(req.uuid));
      }
      var staged := DeleteWhereId(rows, identifier);
      if commitFails {
        return false, Some(CommitFailed);
      }
      DeleteWhereIdAt(rows, FirstMatch(rows, req.uuid));
      DeleteKeepsValid(rows, identifier);
      rows := staged;
      return true, None;
    }
  }
}
