/** The in-memory event store: a map from UUID to event, guarded create,
    update and remove, and the daily, weekly and monthly window queries. */
module Scheduler {
  import opened Calendar

  datatype Duration = Duration(start: Instant, end: Instant)

  datatype Event = Event(
    uuid: int,
    header: string,
    dateTime: Instant,
    eventDuration: Duration,
    description: string,
    owner: string,
    mailingDuration: int)

  /** Every key maps to an event that carries that key as its UUID. */
  ghost predicate KeysAreUuids(storage: map<int, Event>) {
    forall k :: k in storage ==> storage[k].uuid == k
  }

  /** The queries' test: the event's DateTime is not before `lo` and not after
      `hi`; both ends are inclusive. */
  predicate InWindow(e: Event, lo: Instant, hi: Instant) {
    lo <= e.dateTime <= hi
  }

  /** `events` holds, in some order, the stored events whose DateTime lies in
      the closed window [lo, hi], each exactly once: `ids` gives, position by
      position, the distinct key each one was read from. */
  ghost predicate ListsWindow(storage: map<int, Event>, lo: Instant, hi: Instant,
                              events: seq<Event>, ids: seq<int>)
  {
    && |ids| == |events|
    && (forall i :: 0 <= i < |ids| ==> ids[i] in storage && events[i] == storage[ids[i]])
    && (forall i, j :: 0 <= i < j < |ids| ==> ids[i] != ids[j])
    && (forall k :: k in storage ==> (k in ids <==> InWindow(storage[k], lo, hi)))
  }

  class Scheduler {
    var storage: map<int, Event>

    constructor (storage: map<int, Event>)
      ensures this.storage == storage
    {
      this.storage := storage;
    }

    /** Adds `event` under its own UUID unless that key is already taken. */
    method Create(event: Event) returns (ok: bool)
      modifies this
      ensures ok <==> event.uuid !in old(storage)
      ensures storage == if ok then old(storage)[event.uuid := event] else old(storage)
      ensures KeysAreUuids(old(storage)) ==> KeysAreUuids(storage)
    {
      if event.uuid in storage {
        return false;
      }
      storage := storage[event.uuid := event];
      return true;
    }

    /** Replaces the whole record stored under `id`, if there is one; the new
        record's own UUID is not checked against `id`. */
    method Update(id: int, event: Event) returns (ok: bool)
      modifies this
      ensures ok <==> id in old(storage)
      ensures storage == if ok then old(storage)[id := event] else old(storage)
      ensures KeysAreUuids(old(storage)) && ok ==> (KeysAreUuids(storage) <==> event.uuid == id)
    {
      if id in storage {
        UpdateKeepsKeysIff(storage, id, event);
        storage := storage[id := event];
        return true;
      }
      return false;
    }

    /** Deletes the entry under `id`, if there is one. */
    method Remove(id: int) returns (ok: bool)
      modifies this
      ensures ok <==> id in old(storage)
      ensures storage == if ok then old(storage) - {id} else old(storage)
      ensures KeysAreUuids(old(storage)) ==> KeysAreUuids(storage)
    {
      if id in storage {
        storage := storage - {id};
        return true;
      }
      return false;
    }

    /** The scan shared by the three queries: one pass over the map, in the
        map's own (unspecified) order, keeping the events inside [lo, hi]. */
    method EventsBetween(lo: Instant, hi: Instant) returns (events: seq<Event>, ghost ids: seq<int>)
      ensures ListsWindow(storage, lo, hi, events, ids)
      ensures events == [] <==> forall k :: k in storage ==> !InWindow(storage[k], lo, hi)
    {
      events, ids := [], [];
      var rest: set<int> := storage.Keys;
      while rest != {}
        invariant rest <= storage.Keys
        invariant |ids| == |events|
        invariant forall i :: 0 <= i < |ids| ==>
          ids[i] in storage && ids[i] !in rest && events[i] == storage[ids[i]] && InWindow(events[i], lo, hi)
        invariant forall i, j :: 0 <= i < j < |ids| ==> ids[i] != ids[j]
        invariant forall k :: k in storage && k !in rest && InWindow(storage[k], lo, hi) ==> k in ids
        decreases rest
      {
        NonEmptyHasMember(rest);
        var k :| k in rest;
        var e := storage[k];
        if lo <= e.dateTime && e.dateTime <= hi {
          events, ids := events + [e], ids + [k];
        }
        rest := rest - {k};
      }
      if events == [] {
        forall k | k in storage ensures !InWindow(storage[k], lo, hi) {
          assert k !in ids;
        }
      } else {
        ghost var k0 := ids[0];
        assert k0 in storage && InWindow(storage[k0], lo, hi);
      }
    }

    /** Events from midnight of `date`'s day through the following midnight. */
    method GetDailyEvents(date: Instant) returns (events: seq<Event>, ghost ids: seq<int>)
      ensures ListsWindow(storage, Midnight(date), Midnight(date) + NanosPerDay, events, ids)
      ensures events == [] <==>
        forall k :: k in storage ==> !InWindow(storage[k], Midnight(date), Midnight(date) + NanosPerDay)
    {
      var dayStart := Midnight(date);
      var dayEnd := AddDate(dayStart, 0, 0, 1);
      AddDaysIsShift(dayStart, 1);
      events, ids := EventsBetween(dayStart, dayEnd);
    }

    /** Events from midnight of `weekStart`'s day through midnight seven days later;
        the start is not moved to any particular weekday. */
    method GetWeeklyEvents(weekStart: Instant) returns (events: seq<Event>, ghost ids: seq<int>)
      ensures ListsWindow(storage, Midnight(weekStart), Midnight(weekStart) + 7 * NanosPerDay, events, ids)
      ensures events == [] <==>
        forall k :: k in storage ==> !InWindow(storage[k], Midnight(weekStart), Midnight(weekStart) + 7 * NanosPerDay)
    {
      var start := Midnight(weekStart);
      var end := AddDate(start, 0, 0, 7);
      AddDaysIsShift(start, 7);
      events, ids := EventsBetween(start, end);
    }

    /** Events from midnight of `monthStart`'s day through the same day one
        calendar month later, that is, as many days later as that month has. */
    method GetMonthlyEvents(monthStart: Instant) returns (events: seq<Event>, ghost ids: seq<int>)
      ensures ListsWindow(storage, Midnight(monthStart),
                          Midnight(monthStart) + MonthLengthAt(monthStart) * NanosPerDay, events, ids)
      ensures events == [] <==>
        forall k :: k in storage ==>
          !InWindow(storage[k], Midnight(monthStart), Midnight(monthStart) + MonthLengthAt(monthStart) * NanosPerDay)
    {
      var start := Midnight(monthStart);
      var end := AddDate(start, 0, 1, 0);
      AddMonthIsMonthLength(start);
      SameDaySameMonth(start, monthStart);
      events, ids := EventsBetween(start, end);
    }
  }

  lemma NonEmptyHasMember(s: set<int>)
    requires s != {}
    ensures exists k :: k in s
  {
    if forall k :: k !in s {
      assert false;
    }
  }

  /** Midnight lies on the same civil day, so it has the same month length. */
  lemma SameDaySameMonth(m: Instant, t: Instant)
    requires m == Midnight(t)
    ensures MonthLengthAt(m) == MonthLengthAt(t)
  {
    assert m / NanosPerDay == t / NanosPerDay;
  }

  /** After an update of a present key, the key/UUID invariant survives exactly
      when the new record carries that key as its UUID. */
  lemma UpdateKeepsKeysIff(storage: map<int, Event>, id: int, event: Event)
    requires id in storage
    ensures KeysAreUuids(storage) ==> (KeysAreUuids(storage[id := event]) <==> event.uuid == id)
  {
    if KeysAreUuids(storage[id := event]) {
      assert storage[id := event][id] == event;
    }
  }

  /** Creating a fresh key and removing it again restores the store. */
  lemma CreateThenRemove(storage: map<int, Event>, event: Event)
    requires event.uuid !in storage
    ensures storage[event.uuid := event] - {event.uuid} == storage
  {
  }

  /** An event is returned by the daily query for its own instant, and not by
      the daily query 25 hours later. */
  lemma DailyWindowOfOwnDay(t: Instant)
    ensures Midnight(t) <= t <= Midnight(t) + NanosPerDay
    ensures !(Midnight(t + 25 * 3600 * NanosPerSecond) <= t)
  {
  }

  /** Both ends are inclusive, so an event exactly at the next midnight is in
      the daily window of `date` and in the daily window of the next day. */
  lemma DailyWindowsShareMidnight(date: Instant)
    ensures var next := Midnight(date) + NanosPerDay;
      && Midnight(date) <= next <= Midnight(date) + NanosPerDay
      && Midnight(next) <= next <= Midnight(next) + NanosPerDay
      && Midnight(next) == next
  {
    var next := Midnight(date) + NanosPerDay;
    DayMultiple(date / NanosPerDay + 1);
  }
}
