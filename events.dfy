/** The academic calendar a student sees (controllers/eventController.js):
    the upcoming events and the events of a date range, both without the
    events that have already ended. Dates are `YYYY-MM-DD` texts compared
    as strings. */
module Events {
  import opened Common
  import opened Text
  import O = Ordering

  /** An `academic_events` row. */
  datatype Event = Event(id: Id, title: string, startDate: string, endDate: Option<string>,
                         startTime: Option<string>, status: string)

  /** `todayStr`: the local year, the month (`getMonth()`, from 0) plus one,
      and the day of the month, the last two padded to two digits. */
  function TodayString(year: nat, monthIndex: nat, date: nat): string {
    DateString(year, monthIndex + 1, date)
  }

  /** The expiry filter: an event is kept while its end date, or its start
      date when it has no end date, is not before today. */
  predicate NotExpired(e: Event, today: string) {
    if Present(e.endDate) then !StrLess(e.endDate.value, today) else !StrLess(e.startDate, today)
  }

  function Current(today: string): Event -> bool {
    (e: Event) => NotExpired(e, today)
  }

  /** `.gte('event_start_date', today).eq('status', 'active')` */
  function StartsFrom(today: string): Event -> bool {
    (e: Event) => e.status == "active" && !StrLess(e.startDate, today)
  }

  /** `.gte('event_start_date', from).lte('event_start_date', to).eq('status', 'active')` */
  function StartsWithin(from: string, to: string): Event -> bool {
    (e: Event) => e.status == "active" && !StrLess(e.startDate, from) && !StrLess(to, e.startDate)
  }

  /** `.order('event_start_date').order('event_start_time')`, both
      ascending; an event without a start time comes after those with one
      on the same day, as the store puts nulls last. */
  function StartKey(e: Event): O.Key {
    match e.startTime
    case Some(t) => [O.Txt(e.startDate), O.Num(0), O.Txt(t)]
    case None => [O.Txt(e.startDate), O.Txt("")]
  }

  /** `.limit(n)` */
  function Take(events: seq<Event>, n: nat): (r: seq<Event>)
    ensures |r| <= n && r <= events
    ensures |events| <= n ==> r == events
  {
    if |events| <= n then events else events[..n]
  }

  datatype EventsOutcome =
    | EventsMissingRange                  // 400
    | EventsFailed                        // 500
    | EventList(data: seq<Event>, count: nat)

  /** getUpcomingEvents: the first `limit` (10 by default) active events
      starting today or later, in start order, and then those not ended. */
  function UpcomingEvents(events: seq<Event>, today: string, limit: Option<nat>, fails: bool): (r: EventsOutcome)
    ensures r.EventsMissingRange? == false
    ensures r.EventsFailed? <==> fails
    ensures r.EventList? ==> r.count == |r.data| <= limit.GetOr(10)
  {
    if fails then EventsFailed
    else
      var data := Filter(FirstUpcoming(events, today, limit), Current(today));
      EventList(data, |data|)
  }

  /** What the upcoming query fetches, before the expiry filter. */
  function FirstUpcoming(events: seq<Event>, today: string, limit: Option<nat>): (r: seq<Event>)
    ensures |r| <= limit.GetOr(10)
  {
    Take(O.SortBy(Filter(events, StartsFrom(today)), StartKey, false), limit.GetOr(10))
  }

  /** Every upcoming event is an active event of the table that has not
      ended and starts today or later. */
  lemma UpcomingAreCurrent(events: seq<Event>, today: string, limit: Option<nat>, e: Event)
    requires e in UpcomingEvents(events, today, limit, false).data
    ensures e in events && e.status == "active" && !StrLess(e.startDate, today) && NotExpired(e, today)
  {
    var matching := Filter(events, StartsFrom(today));
    assert e in FirstUpcoming(events, today, limit);
    assert e in multiset(matching);
    assert Current(today)(e);
  }

  /** A fetched upcoming event is returned exactly when it has not ended. */
  lemma UpcomingHoldsExactly(events: seq<Event>, today: string, limit: Option<nat>, e: Event)
    ensures e in UpcomingEvents(events, today, limit, false).data <==>
              e in FirstUpcoming(events, today, limit) && NotExpired(e, today)
  {
    assert Current(today)(e) <==> NotExpired(e, today);
  }

  /** When the limit does not cut the query short, the list holds exactly
      the active events of the table that start today or later and have
      not ended. */
  lemma UpcomingWithinLimit(events: seq<Event>, today: string, limit: Option<nat>, e: Event)
    requires |Filter(events, StartsFrom(today))| <= limit.GetOr(10)
    ensures e in UpcomingEvents(events, today, limit, false).data <==>
              e in events && e.status == "active" && !StrLess(e.startDate, today) && NotExpired(e, today)
  {
    var matching := Filter(events, StartsFrom(today));
    var sorted := O.SortBy(matching, StartKey, false);
    assert multiset(sorted) == multiset(matching);
    assert |sorted| == |matching| by {
      assert |multiset(sorted)| == |multiset(matching)|;
    }
    assert FirstUpcoming(events, today, limit) == sorted by {
      assert Take(sorted, limit.GetOr(10)) == sorted;
    }
    assert e in sorted <==> e in matching by {
      assert e in sorted <==> e in multiset(sorted);
      assert e in matching <==> e in multiset(matching);
    }
    assert e in matching <==> e in events && StartsFrom(today)(e);
    UpcomingHoldsExactly(events, today, limit, e);
  }

  /** When no event ends before it starts, the expiry filter drops nothing:
      the list is the first `limit` active events starting today or later. */
  lemma UpcomingWhenDatesConsistent(events: seq<Event>, today: string, limit: Option<nat>)
    requires forall e :: e in events && Present(e.endDate) ==> !StrLess(e.endDate.value, e.startDate)
    ensures UpcomingEvents(events, today, limit, false).data == FirstUpcoming(events, today, limit)
  {
    var fetched := FirstUpcoming(events, today, limit);
    var matching := Filter(events, StartsFrom(today));
    forall e | e in fetched ensures Current(today)(e) {
      assert e in multiset(matching);
      assert e in events && !StrLess(e.startDate, today);
      if Present(e.endDate) {
        NotLessTransitive(e.endDate.value, e.startDate, today);
      }
    }
    FilterAll(fetched, Current(today));
  }

  /** getEventsByDateRange: the active events starting between the two
      dates, both included, in start order, without those already ended. */
  function EventsInRange(events: seq<Event>, from: Option<string>, to: Option<string>, today: string, fails: bool)
    : (r: EventsOutcome)
    ensures r.EventsMissingRange? <==> !Present(from) || !Present(to)
    ensures r.EventsFailed? <==> Present(from) && Present(to) && fails
    ensures r.EventList? ==> r.count == |r.data|
  {
    if !Present(from) || !Present(to) then EventsMissingRange
    else if fails then EventsFailed
    else
      var data := Filter(O.SortBy(Filter(events, StartsWithin(from.value, to.value)), StartKey, false), Current(today));
      EventList(data, |data|)
  }

  /** The range query returns exactly the active, not yet ended events
      whose start lies between the two dates. */
  lemma RangeHoldsExactly(events: seq<Event>, from: string, to: string, today: string, e: Event)
    requires from != "" && to != ""
    ensures var r := EventsInRange(events, Some(from), Some(to), today, false);
            e in r.data <==>
              e in events && e.status == "active" && !StrLess(e.startDate, from) && !StrLess(to, e.startDate)
              && NotExpired(e, today)
  {
    var matching := Filter(events, StartsWithin(from, to));
    var sorted := O.SortBy(matching, StartKey, false);
    assert e in sorted <==> e in multiset(matching);
    assert Current(today)(e) == NotExpired(e, today);
    assert StartsWithin(from, to)(e) <==> e.status == "active" && !StrLess(e.startDate, from) && !StrLess(to, e.startDate);
  }

  /** Both lists come in start order. */
  lemma RangeInStartOrder(events: seq<Event>, from: string, to: string, today: string)
    requires from != "" && to != ""
    ensures O.SortedBy(EventsInRange(events, Some(from), Some(to), today, false).data, StartKey, false)
  {
    var sorted := O.SortBy(Filter(events, StartsWithin(from, to)), StartKey, false);
    O.FilterKeepsSorted(sorted, Current(today), StartKey, false);
  }

  lemma UpcomingInStartOrder(events: seq<Event>, today: string, limit: Option<nat>)
    ensures O.SortedBy(UpcomingEvents(events, today, limit, false).data, StartKey, false)
  {
    var sorted := O.SortBy(Filter(events, StartsFrom(today)), StartKey, false);
    var fetched := FirstUpcoming(events, today, limit);
    assert O.SortedBy(fetched, StartKey, false) by {
      forall i, j | 0 <= i < j < |fetched| ensures !O.Before(StartKey(fetched[j]), StartKey(fetched[i]), false) {
        assert fetched[i] == sorted[i] && fetched[j] == sorted[j];
      }
    }
    O.FilterKeepsSorted(fetched, Current(today), StartKey, false);
  }

  /** For four-digit years, the string test on an end date agrees with the
      calendar: an event is kept exactly when it ends today or later. */
  lemma ExpiryFollowsCalendar(e: Event, y: nat, m: nat, d: nat, ty: nat, tmIndex: nat, td: nat)
    requires y < 10000 && m < 100 && d < 100
    requires 1000 <= ty <= 9999 && tmIndex + 1 < 100 && td < 100
    requires e.endDate == Some(IsoDateString(y, m, d))
    ensures NotExpired(e, TodayString(ty, tmIndex, td)) <==> !DateBefore(y, m, d, ty, tmIndex + 1, td)
  {
    DateStringIsIso(ty, tmIndex + 1, td);
    IsoDateOrder(y, m, d, ty, tmIndex + 1, td);
  }
}
