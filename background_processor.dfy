/** The dispatcher's scan loop: a cursor (start, stop) that begins as a
    zero-width window at the current instant and slides forward by ten
    seconds per tick.  Each tick asks the database for the events to publish
    in [start, stop] and hands every one of them to the message channel.
    The query and the channel are oracles: a tick is given the query's answer
    and, per position in the batch, whether the publish succeeded. */
module BackgroundProcessor {
  import opened Calendar
  import opened Structs

  /** The cursor advance per tick: ten seconds. */
  const TickInterval: int := 10_000_000_000

  /** GetPublishEvents' answer for one window: an error, or the events found
      (a nil slice and an empty one both publish nothing). */
  datatype QueryAnswer = QueryError | Found(events: seq<Event>)

  /** The closed interval a tick queries. */
  datatype Window = Window(start: Instant, stop: Instant)

  predicate InWindow(x: Instant, w: Window) {
    w.start <= x <= w.stop
  }

  /** The events a tick passes to Publish. */
  function Batch(answer: QueryAnswer): seq<Event> {
    match answer
    case QueryError => []
    case Found(events) => events
  }

  /** The events of `events` whose publish succeeded, in order. */
  function Accepted(events: seq<Event>, publishOk: nat -> bool): (r: seq<Event>)
    ensures |r| <= |events|
    ensures forall e :: e in r ==> e in events
  {
    if events == [] then []
    else
      var last := |events| - 1;
      var before := Accepted(events[..last], publishOk);
      assert forall e :: e in events[..last] ==> e in events;
      before + if publishOk(last) then [events[last]] else []
  }

  /** When every publish succeeds, every event is delivered, in order. */
  lemma {:induction false} AllDeliveredWhenChannelAccepts(events: seq<Event>, publishOk: nat -> bool)
    requires forall i: nat :: publishOk(i)
    ensures Accepted(events, publishOk) == events
  {
    if events != [] {
      var last := |events| - 1;
      AllDeliveredWhenChannelAccepts(events[..last], publishOk);
      assert events[..last] + [events[last]] == events;
    }
  }

  /** The window that tick number `k` (from 0) queries when the cursor was
      created at `origin`: the first is zero-width, every later one is
      TickInterval wide and starts where the one before it stopped. */
  function WindowAt(origin: Instant, k: nat): (w: Window)
    ensures w.start <= w.stop
    ensures w.stop == origin + k * TickInterval
    ensures k == 0 ==> w.start == w.stop
    ensures k > 0 ==> w.stop - w.start == TickInterval
  {
    if k == 0 then Window(origin, origin)
    else Window(origin + (k - 1) * TickInterval, origin + k * TickInterval)
  }

  /** Consecutive windows share an endpoint: there is no gap between them. */
  lemma ConsecutiveWindowsMeet(origin: Instant, k: nat)
    ensures WindowAt(origin, k).stop == WindowAt(origin, k + 1).start
  {
  }

  /** Every instant from the origin up to the end of tick `n`'s window lies in
      the window of some tick 0..n. */
  lemma CoveringTick(origin: Instant, n: nat, x: Instant) returns (k: nat)
    requires origin <= x <= origin + n * TickInterval
    ensures k <= n && InWindow(x, WindowAt(origin, k))
  {
    if x == origin {
      k := 0;
    } else {
      var q := (x - origin - 1) / TickInterval;
      assert q * TickInterval <= x - origin - 1 < (q + 1) * TickInterval;
      assert q * TickInterval < n * TickInterval;
      k := q + 1;
    }
  }

  /** Both ends of a window are inclusive, so the instant where tick k's
      window ends is queried again by tick k + 1: an event due exactly then
      can be published twice. */
  lemma SharedEndpointQueriedTwice(origin: Instant, k: nat)
    ensures var x := WindowAt(origin, k).stop;
      InWindow(x, WindowAt(origin, k)) && InWindow(x, WindowAt(origin, k + 1))
  {
  }

  /** The clock reads behind one `time.Date(time.Now().Year(), time.Now().Month(),
      …, time.Now().Nanosecond(), …)` expression: every field is taken from a
      `time.Now()` of its own, in argument order. */
  datatype ClockReads = ClockReads(year: Instant, month: Instant, day: Instant,
                                   hour: Instant, minute: Instant, second: Instant, nano: Instant)

  /** All seven reads saw the same instant. */
  predicate SingleRead(r: ClockReads) {
    r.month == r.year && r.day == r.year && r.hour == r.year &&
    r.minute == r.year && r.second == r.year && r.nano == r.year
  }

  /** The instant such an expression builds; when all seven reads see the
      same instant, that instant is the result. */
  function FromReads(r: ClockReads): (t: Instant)
    ensures SingleRead(r) ==> t == r.year
  {
    var c := CivilOf(r.year / NanosPerDay);
    ClockFieldsRecombine(r.year);
    Date(c.year, CivilOf(r.month / NanosPerDay).month, CivilOf(r.day / NanosPerDay).day,
         TimeOfDay(Hour(r.hour), Minute(r.minute), Second(r.second), Nanosecond(r.nano)))
  }

  /** A year rollover between the first read and the second: the year is
      read in the last nanosecond of December 31 and every other field just
      after midnight, one nanosecond later.  The instant built is January 1
      of the old year, a whole year before either read. */
  lemma YearRolloverBetweenReads(year: int)
    ensures var before, after := Date(year, 12, 31, NanosPerDay - 1), Date(year + 1, 1, 1, 0);
      var t := FromReads(ClockReads(before, after, after, after, after, after, after));
      after == before + 1 && t == Date(year, 1, 1, 0) && t + YearLength(year) * NanosPerDay == after
  {
    NewYearFollowsLastNanosecond(year);
    LastNanosecondOfYear(year);
    FirstOfJanuary(year + 1);
    YearLater(year);
  }

  lemma NewYearFollowsLastNanosecond(year: int)
    ensures Date(year + 1, 1, 1, 0) == Date(year, 12, 31, NanosPerDay - 1) + 1
  {
    YearStep(year);
    DateInRange(year, 12, 31, NanosPerDay - 1);
    DateInRange(year + 1, 1, 1, 0);
  }

  /** The last nanosecond of a year reads back as December 31 of that year. */
  lemma LastNanosecondOfYear(year: int)
    ensures CivilOf(Date(year, 12, 31, NanosPerDay - 1) / NanosPerDay) == Civil(year, 12, 31)
  {
    DateDay(year, 12, 31, NanosPerDay - 1);
    CivilOfDayNumber(Civil(year, 12, 31));
  }

  /** Midnight on January 1 reads back as January 1 with every clock field zero. */
  lemma FirstOfJanuary(year: int)
    ensures var t := Date(year, 1, 1, 0);
      CivilOf(t / NanosPerDay) == Civil(year, 1, 1) &&
      Hour(t) == 0 && Minute(t) == 0 && Second(t) == 0 && Nanosecond(t) == 0
  {
    DateRoundTrip(Civil(year, 1, 1));
    DateInRange(year, 1, 1, 0);
    MidnightClockFields(DayNumber(year, 1, 1));
  }

  /** January 1 of the next year is a year length after January 1. */
  lemma YearLater(year: int)
    ensures Date(year, 1, 1, 0) + YearLength(year) * NanosPerDay == Date(year + 1, 1, 1, 0)
  {
    YearStep(year);
    DateInRange(year, 1, 1, 0);
    DateInRange(year + 1, 1, 1, 0);
  }

  /** The same rollover can hit `stop` alone: `start` read consistently in the
      last nanosecond of December 31, `stop` read across midnight.  The first
      window is then inverted, ending a year less one nanosecond before it
      starts, and as the cursor moves by TickInterval per tick it stays that
      far in the past. */
  lemma InvertedFirstWindow(year: int)
    ensures var before, after := Date(year, 12, 31, NanosPerDay - 1), Date(year + 1, 1, 1, 0);
      var start := FromReads(ClockReads(before, before, before, before, before, before, before));
      var stop := FromReads(ClockReads(before, after, after, after, after, after, after));
      start == before && stop < start && stop + YearLength(year) * NanosPerDay == start + 1
  {
    YearRolloverBetweenReads(year);
  }

  class Processor {
    var start: Instant
    var stop: Instant
    var queried: seq<Window>   // the windows passed to GetPublishEvents, in order
    var published: seq<Event>  // the events passed to Publish, in order
    var delivered: seq<Event>  // those of them the channel accepted
    ghost var origin: Instant  // the instant the processor started at

    /** After k ticks the cursor stands at the window of tick k, and the
        windows queried so far are those of ticks 0..k-1. */
    ghost predicate Valid()
      reads this
    {
      && stop == origin + |queried| * TickInterval
      && start == (if queried == [] then origin else origin + (|queried| - 1) * TickInterval)
      && forall k :: 0 <= k < |queried| ==> queried[k] == WindowAt(origin, k)
    }

    /** The cursor starts as the zero-width window at `now`. */
    constructor (now: Instant)
      ensures Valid() && origin == now
      ensures start == now && stop == now
      ensures queried == [] && published == [] && delivered == []
    {
      start, stop := now, now;
      queried, published, delivered := [], [], [];
      origin := now;
    }

    /** The inner loop of a tick: every event of the batch is passed to
        Publish once, in order; a failed publish is skipped over. */
    method PublishAll(events: seq<Event>, publishOk: nat -> bool)
      modifies this
      ensures published == old(published) + events
      ensures delivered == old(delivered) + Accepted(events, publishOk)
      ensures start == old(start) && stop == old(stop) && queried == old(queried) && origin == old(origin)
    {
      var i := 0;
      while i < |events|
        invariant 0 <= i <= |events|
        invariant published == old(published) + events[..i]
        invariant delivered == old(delivered) + Accepted(events[..i], publishOk)
        invariant start == old(start) && stop == old(stop) && queried == old(queried) && origin == old(origin)
      {
        assert events[..i + 1][..i] == events[..i];
        published := published + [events[i]];
        if publishOk(i) {
          delivered := delivered + [events[i]];
        }
        i := i + 1;
      }
      assert events[..i] == events;
    }

    /** One iteration of the scan loop: query [start, stop], publish each
        event found, then advance the cursor whatever happened. */
    method Tick(answer: QueryAnswer, publishOk: nat -> bool)
      requires Valid()
      modifies this
      ensures Valid() && origin == old(origin)
      ensures queried == old(queried) + [Window(old(start), old(stop))]
      ensures start == old(stop) && stop == old(stop) + TickInterval
      ensures published == old(published) + Batch(answer)
      ensures delivered == old(delivered) + Accepted(Batch(answer), publishOk)
    {
      queried := queried + [Window(start, stop)];
      if answer.Found? {
        PublishAll(answer.events, publishOk);
      }
      start := stop;
      stop := stop + TickInterval;
    }

    /** `n` iterations of the otherwise unbounded scan loop, tick j getting
        answers[j] from the query and publishOk(j) from the channel. */
    method RunTicks(answers: seq<QueryAnswer>, publishOk: nat -> nat -> bool)
      requires Valid()
      modifies this
      ensures Valid() && origin == old(origin)
      ensures |queried| == |old(queried)| + |answers|
      ensures stop == old(stop) + |answers| * TickInterval
      ensures published == old(published) + Batches(answers)
      ensures delivered == old(delivered) + Deliveries(answers, publishOk)
    {
      var j := 0;
      while j < |answers|
        invariant 0 <= j <= |answers|
        invariant Valid() && origin == old(origin)
        invariant |queried| == |old(queried)| + j
        invariant stop == old(stop) + j * TickInterval
        invariant published == old(published) + Batches(answers[..j])
        invariant delivered == old(delivered) + Deliveries(answers[..j], publishOk)
      {
        RunStep(answers, j, publishOk);
        ghost var batch, accepted := Batch(answers[j]), Accepted(Batch(answers[j]), publishOk(j));
        Tick(answers[j], publishOk(j));
        Associative(old(published), Batches(answers[..j]), batch);
        Associative(old(delivered), Deliveries(answers[..j], publishOk), accepted);
        assert stop == old(stop) + j * TickInterval + TickInterval;
        j := j + 1;
      }
      assert answers[..j] == answers;
    }
  }

  /** The events published over a run of ticks, tick by tick. */
  function Batches(answers: seq<QueryAnswer>): seq<Event> {
    if answers == [] then []
    else Batches(answers[..|answers| - 1]) + Batch(answers[|answers| - 1])
  }

  /** The events the channel accepted over a run of ticks, tick j's publishes
      judged by publishOk(j); they are never more than were published. */
  function Deliveries(answers: seq<QueryAnswer>, publishOk: nat -> nat -> bool): (r: seq<Event>)
    ensures |r| <= |Batches(answers)|
  {
    if answers == [] then []
    else
      var last := |answers| - 1;
      Deliveries(answers[..last], publishOk) + Accepted(Batch(answers[last]), publishOk(last))
  }

  /** When the channel accepts every publish of every tick, everything
      published over the run is delivered, in order. */
  lemma {:induction false} AllBatchesDeliveredWhenChannelAccepts(answers: seq<QueryAnswer>, publishOk: nat -> nat -> bool)
    requires forall j: nat, i: nat :: publishOk(j)(i)
    ensures Deliveries(answers, publishOk) == Batches(answers)
  {
    if answers != [] {
      var last := |answers| - 1;
      AllBatchesDeliveredWhenChannelAccepts(answers[..last], publishOk);
      AllDeliveredWhenChannelAccepts(Batch(answers[last]), publishOk(last));
    }
  }

  /** Sequence concatenation regroups; stated once so that RunTicks can name
      the regrouping it needs instead of leaving the solver to search for it. */
  lemma Associative(a: seq<Event>, b: seq<Event>, c: seq<Event>)
    ensures (a + b) + c == a + (b + c)
  {
  }

  /** One more tick extends both histories by that tick's share. */
  lemma RunStep(answers: seq<QueryAnswer>, j: nat, publishOk: nat -> nat -> bool)
    requires j < |answers|
    ensures Batches(answers[..j + 1]) == Batches(answers[..j]) + Batch(answers[j])
    ensures Deliveries(answers[..j + 1], publishOk) ==
      Deliveries(answers[..j], publishOk) + Accepted(Batch(answers[j]), publishOk(j))
  {
    assert answers[..j + 1][..j] == answers[..j];
  }
}
