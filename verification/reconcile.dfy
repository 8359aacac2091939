/** Cancelling the instances an EXDATE removes (`cancelExDates`,
    `fetchInstancesWithinBounds`, `cancelInstance`; app.js:63-143). The
    Google Calendar queries are inputs: the instances whose original start
    is the EXDATE, and the instances a fallback day-window query returns.
    The calendar itself is a sequence of instances that `PUT` updates. */
module Reconcile {
  import Civil

  datatype Instance = Instance(id: string, status: string)

  const Cancelled: string := "cancelled"

  /** `event.start` of the imported event: a `dateTime` for a timed event,
      only a `date` for an all-day one. */
  datatype EventStart = Timed(dateTime: string) | AllDay(date: string)

  /** What one EXDATE leads to: whether the day-window query is sent, and
      which instances are then `PUT` back as cancelled. */
  datatype Decision = Decision(queriesFallback: bool, toCancel: seq<Instance>)

  // ---------------------------------------------------------------------
  // The two-tier decision (app.js:111-141)

  function Decide(exact: seq<Instance>, start: EventStart, fallback: seq<Instance>): (d: Decision)
    ensures d.queriesFallback <==> exact == [] && start.Timed?
    ensures exact != [] ==> d.toCancel == exact
    ensures exact == [] && start.AllDay? ==> d.toCancel == []
    ensures d.queriesFallback ==> d.toCancel == (if |fallback| == 1 then fallback else [])
  {
    if exact != [] then Decision(false, exact)
    else if start.AllDay? then Decision(false, [])
    else if |fallback| != 1 then Decision(true, [])
    else Decision(true, fallback)
  }

  /** An instance is cancelled exactly when it matched the EXDATE's original
      start, or when nothing did, the event is timed and it is the one
      instance of the day window. */
  lemma DecideCancels(exact: seq<Instance>, start: EventStart, fallback: seq<Instance>, x: Instance)
    ensures x in Decide(exact, start, fallback).toCancel <==>
      x in exact || (exact == [] && start.Timed? && fallback == [x])
  {
  }

  /** The fallback answer matters only when the fallback query is sent. */
  lemma FallbackUnusedUnlessQueried(exact: seq<Instance>, start: EventStart, f: seq<Instance>, g: seq<Instance>)
    requires !Decide(exact, start, f).queriesFallback
    ensures Decide(exact, start, f) == Decide(exact, start, g)
  {
  }

  // ---------------------------------------------------------------------
  // Cancelling (app.js:95-107, 137-141)

  /** `cancelInstance`: the instance body with its status set. */
  function CancelInstance(i: Instance): (r: Instance)
    ensures r.id == i.id && r.status == Cancelled
  {
    i.(status := Cancelled)
  }

  /** `PUT .../events/{x.id}`: every stored instance with that id becomes `x`. */
  function Put(store: seq<Instance>, x: Instance): seq<Instance> {
    seq(|store|, j requires 0 <= j < |store| => if store[j].id == x.id then x else store[j])
  }

  function Ids(xs: seq<Instance>): set<string> {
    set x | x in xs :: x.id
  }

  /** The calendar after cancelling `ids`, stated without `Put`. */
  function Mark(store: seq<Instance>, ids: set<string>): (r: seq<Instance>)
    ensures |r| == |store|
  {
    seq(|store|, j requires 0 <= j < |store| =>
      if store[j].id in ids then store[j].(status := Cancelled) else store[j])
  }

  lemma MarkTwice(store: seq<Instance>, a: set<string>, b: set<string>)
    ensures Mark(Mark(store, a), b) == Mark(store, a + b)
  {
  }

  /** `PUT`ting the cancelled body of an instance cancels every stored
      instance with its id and nothing else. */
  lemma PutCancelIsMark(store: seq<Instance>, i: Instance)
    ensures Put(store, CancelInstance(i)) == Mark(store, {i.id})
  {
  }

  lemma IdsCons(xs: seq<Instance>)
    requires xs != []
    ensures Ids(xs) == {xs[0].id} + Ids(xs[1..])
  {
    assert forall x :: x in xs <==> x == xs[0] || x in xs[1..];
  }

  /** The cancellations of a list of instances, one after another: exactly
      the stored instances with one of their ids end up cancelled. */
  function CancelAll(store: seq<Instance>, xs: seq<Instance>): (r: seq<Instance>)
    ensures |r| == |store|
    ensures r == Mark(store, Ids(xs))
    decreases |xs|
  {
    if xs == [] then
      assert Mark(store, {}) == store;
      store
    else
      PutCancelIsMark(store, xs[0]);
      MarkTwice(store, {xs[0].id}, Ids(xs[1..]));
      IdsCons(xs);
      CancelAll(Put(store, CancelInstance(xs[0])), xs[1..])
  }

  /** Cancelling changes only the status, only of instances with a cancelled
      id, and only to `cancelled`. */
  lemma CancelAllEffect(store: seq<Instance>, xs: seq<Instance>, j: int)
    requires 0 <= j < |store|
    ensures CancelAll(store, xs)[j].id == store[j].id
    ensures CancelAll(store, xs)[j].status ==
      if (exists x :: x in xs && x.id == store[j].id) then Cancelled else store[j].status
  {
  }

  /** Cancelling again changes nothing, and the order of the `PUT`s does
      not matter: concurrent cancellation is the same as sequential. */
  lemma CancelAllOrderFree(store: seq<Instance>, xs: seq<Instance>, ys: seq<Instance>)
    ensures CancelAll(CancelAll(store, xs), xs) == CancelAll(store, xs)
    ensures CancelAll(CancelAll(store, xs), ys) == CancelAll(CancelAll(store, ys), xs)
  {
    MarkTwice(store, Ids(xs), Ids(xs));
    MarkTwice(store, Ids(xs), Ids(ys));
    MarkTwice(store, Ids(ys), Ids(xs));
    assert Ids(xs) + Ids(xs) == Ids(xs);
    assert Ids(xs) + Ids(ys) == Ids(ys) + Ids(xs);
  }

  // ---------------------------------------------------------------------
  // All EXDATEs of one event

  /** The two query answers for one EXDATE. */
  datatype Lookup = Lookup(exact: seq<Instance>, fallback: seq<Instance>)

  /** The ids some EXDATE's decision cancels. */
  function DecidedIds(start: EventStart, lookups: seq<Lookup>): set<string>
    decreases |lookups|
  {
    if lookups == [] then {}
    else Ids(Decide(lookups[0].exact, start, lookups[0].fallback).toCancel) + DecidedIds(start, lookups[1..])
  }

  /** Every EXDATE's decision carried out, one EXDATE after another. In the
      end exactly the instances some decision named are cancelled, in
      addition to those that already were; nothing else changes. */
  function CancelExDates(store: seq<Instance>, start: EventStart, lookups: seq<Lookup>): (r: seq<Instance>)
    ensures |r| == |store|
    ensures r == Mark(store, DecidedIds(start, lookups))
    decreases |lookups|
  {
    if lookups == [] then
      assert Mark(store, {}) == store;
      store
    else
      var d := Decide(lookups[0].exact, start, lookups[0].fallback);
      MarkTwice(store, Ids(d.toCancel), DecidedIds(start, lookups[1..]));
      CancelExDates(CancelAll(store, d.toCancel), start, lookups[1..])
  }

  // ---------------------------------------------------------------------
  // The fallback window (app.js:65-82, 123-127)

  /** `s.replace(c, rep)` with a string pattern: the first occurrence only. */
  function ReplaceFirst(s: string, c: char, rep: string): (r: string)
    ensures c !in s ==> r == s
  {
    if s == [] then []
    else if s[0] == c then rep + s[1..]
    else [s[0]] + ReplaceFirst(s[1..], c, rep)
  }

  /** The replaced character is the first `c`; text on either side stays. */
  lemma {:induction false} ReplaceFirstSplits(s: string, c: char, rep: string, k: int)
    requires 0 <= k < |s| && s[k] == c && c !in s[..k]
    ensures ReplaceFirst(s, c, rep) == s[..k] + rep + s[k + 1..]
  {
    if k > 0 {
      assert s[1..][..k - 1] == s[1..k];
      assert c !in s[1..][..k - 1];
      ReplaceFirstSplits(s[1..], c, rep, k - 1);
      assert s[..k] == [s[0]] + s[1..][..k - 1];
      assert s[k + 1..] == s[1..][k..];
    }
  }

  /** A UTC time text whose only `Z` is its last character. */
  predicate Zulu(utc: string) {
    |utc| > 0 && utc[|utc| - 1] == 'Z' && 'Z' !in utc[..|utc| - 1]
  }

  /** `"…T…Z"` written with the explicit offset the API demands: the
      closing `Z` becomes `+00:00`. */
  function ExplicitUtcOffset(utc: string): (r: string)
    ensures 'Z' !in utc ==> r == utc
    ensures Zulu(utc) ==> r == utc[..|utc| - 1] + "+00:00"
  {
    if Zulu(utc) then
      ReplaceFirstSplits(utc, 'Z', "+00:00", |utc| - 1);
      assert utc[|utc|..] == [];
      ReplaceFirst(utc, 'Z', "+00:00")
    else
      ReplaceFirst(utc, 'Z', "+00:00")
  }

  /** `startDay`: the EXDATE adjusted by minus its hours, minutes and
      seconds, which is midnight of the same day in the same zone. */
  function StartOfDay(exDate: Civil.CivilTime): (r: Civil.CivilTime)
    requires Civil.Valid(exDate)
    ensures Civil.Valid(r)
    ensures r == exDate.(hour := 0, minute := 0, second := 0)
  {
    var r := Civil.Adjust(exDate, 0, -exDate.hour, -exDate.minute, -exDate.second);
    Civil.SecondsInjective(r, exDate.(hour := 0, minute := 0, second := 0));
    r
  }

  /** `endDay`: `startDay` adjusted by one day, which is the next calendar
      day at the same clock. */
  function EndOfDay(startDay: Civil.CivilTime): (r: Civil.CivilTime)
    requires Civil.Valid(startDay)
    ensures Civil.Valid(r)
    ensures r == Civil.NextDay(startDay)
    ensures Civil.DayNumber(r) == Civil.DayNumber(startDay) + 1
  {
    var r := Civil.Adjust(startDay, 1, 0, 0, 0);
    Civil.NextDayNumber(startDay);
    Civil.SecondsInjective(r, Civil.NextDay(startDay));
    r
  }

  /** `eventDuration`: end minus start on the wall clock, both read without
      their offsets. */
  function Duration(start: Civil.CivilTime, end: Civil.CivilTime): int
    requires Civil.Valid(start) && Civil.Valid(end)
  {
    Civil.Seconds(end) - Civil.Seconds(start)
  }

  /** The query bounds sent for the fallback. */
  datatype Window = Window(timeMin: string, timeMax: string)

  /** The day window of `exDate`, each bound converted to UTC by
      `utcString` and given an explicit offset: `timeMax` is the midnight
      ending the EXDATE's day, and `timeMin` is a time of the EXDATE's zone
      lying the event's duration after the midnight starting it. */
  function FallbackWindow(exDate: Civil.CivilTime, eventStart: Civil.CivilTime, eventEnd: Civil.CivilTime,
                          utcString: Civil.CivilTime -> string): (w: Window)
    requires Civil.Valid(exDate) && Civil.Valid(eventStart) && Civil.Valid(eventEnd)
    ensures var midnight := exDate.(hour := 0, minute := 0, second := 0);
      && w.timeMax == ExplicitUtcOffset(utcString(Civil.NextDay(midnight)))
      && exists lower: Civil.CivilTime ::
           && Civil.Valid(lower) && lower.zone == exDate.zone
           && Civil.Seconds(lower) == Civil.Seconds(midnight) + Civil.Seconds(eventEnd) - Civil.Seconds(eventStart)
           && w.timeMin == ExplicitUtcOffset(utcString(lower))
  {
    var startDay := StartOfDay(exDate);
    var endDay := EndOfDay(startDay);
    var endTimeMin := Civil.AddSeconds(startDay, Duration(eventStart, eventEnd));
    Window(ExplicitUtcOffset(utcString(endTimeMin)), ExplicitUtcOffset(utcString(endDay)))
  }
}
