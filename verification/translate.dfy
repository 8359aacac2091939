/** The mapping from a parsed iCalendar event to the body of a Google
    Calendar `events.import` request (`toGcalEvent`, app.js:176-221). What
    the parser and the host supply is passed in: the event's fields, the
    guessed time zone, the random bytes for a missing UID and the expanded
    EXDATEs. */
module Translate {
  import opened Wrappers
  import Uuid
  import Recurrence

  /** The parsed VEVENT as `toGcalEvent` reads it. `startDate` and
      `endDate` are the times already rendered by `toString()`; `recurring`
      is the answer of `isRecurring()`, taken as given. */
  datatype IcalEvent = IcalEvent(
    uid: Option<string>,
    summary: Option<string>,
    location: Option<string>,
    description: Option<string>,
    startDate: string,
    endDate: string,
    recurring: bool,
    properties: seq<Recurrence.Property>)

  datatype EventTime = EventTime(dateTime: string, timeZone: string)

  /** The request body; an absent optional member is `None`. */
  datatype GcalEvent = GcalEvent(
    iCalUID: string,
    start: EventTime,
    end: EventTime,
    description: string,
    useDefaultReminders: bool,
    recurrence: Option<seq<string>>,
    summary: Option<string>,
    location: Option<string>)

  /** The event's `URL` property, if any. */
  function Url(e: IcalEvent): Option<string> {
    Recurrence.FirstPropertyValue(e.properties, "url")
  }

  /** `event.uid || uuidv4()`. */
  function IcalUid(uid: Option<string>, randomBytes: seq<Uuid.Byte>): (r: string)
    requires |randomBytes| == 16
    ensures Truthy(uid) ==> r == uid.value
    ensures !Truthy(uid) ==> r == Uuid.UuidV4(randomBytes)
  {
    if Truthy(uid) then uid.value else Uuid.UuidV4(randomBytes)
  }

  /** The description starts empty, takes the event's description when it
      is non-empty, and then gets the URL appended, after a blank line when
      there is text before it. */
  function ComposeDescription(description: Option<string>, url: Option<string>): (r: string)
    ensures !Truthy(url) ==> r == (if Truthy(description) then description.value else "")
  {
    var base := if Truthy(description) then description.value else "";
    if Truthy(url) then
      if base != "" then base + "\n\n" + url.value else base + url.value
    else base
  }

  /** Undoes `ComposeDescription`, given the URL. */
  function RecoverDescription(r: string, url: Option<string>): string {
    if !Truthy(url) then r
    else if r == url.value || |r| < |url.value| + 2 then ""
    else r[..|r| - |url.value| - 2]
  }

  /** The event's description can be read back from the composed one. */
  lemma DescriptionRecoverable(description: Option<string>, url: Option<string>)
    ensures RecoverDescription(ComposeDescription(description, url), url)
         == (if Truthy(description) then description.value else "")
  {
    if Truthy(url) && Truthy(description) {
      var r := ComposeDescription(description, url);
      assert r == description.value + "\n\n" + url.value;
      assert |r| > |url.value|;
      assert r[..|r| - |url.value| - 2] == description.value;
    }
  }

  /** With a URL the composed description ends in it, and a non-empty
      event description comes first, separated by a blank line. */
  lemma DescriptionLayout(description: Option<string>, url: Option<string>)
    requires Truthy(url)
    ensures var r := ComposeDescription(description, url);
      && |r| >= |url.value|
      && r[|r| - |url.value|..] == url.value
      && (Truthy(description) ==> r[..|description.value| + 2] == description.value + "\n\n")
      && (Truthy(description) ==> r == description.value + "\n\n" + url.value)
      && (!Truthy(description) ==> r == url.value)
  {
    var r := ComposeDescription(description, url);
    if Truthy(description) {
      assert r == (description.value + "\n\n") + url.value;
    }
  }

  /** `toGcalEvent`: the request body and, for a recurring event, the
      expanded EXDATEs to cancel afterwards. The identifier, the description
      and the recurrence lines are the ones the functions above produce. */
  function ToGcalEvent<D>(e: IcalEvent, tz: string, randomBytes: seq<Uuid.Byte>, expandedExDates: seq<D>)
    : (r: (GcalEvent, seq<D>))
    requires |randomBytes| == 16
    ensures r.0.start == EventTime(e.startDate, tz) && r.0.end == EventTime(e.endDate, tz)
    ensures r.0.iCalUID == IcalUid(e.uid, randomBytes)
    ensures r.0.description == ComposeDescription(e.description, Url(e))
    ensures r.0.useDefaultReminders
    ensures r.0.recurrence.Some? <==> e.recurring
    ensures r.0.recurrence == (if e.recurring then Some(Recurrence.RecurrenceRules(e.properties)) else None)
    ensures r.1 == (if e.recurring then expandedExDates else [])
    ensures r.0.summary.Some? <==> Truthy(e.summary)
    ensures r.0.location.Some? <==> Truthy(e.location)
  {
    var body := GcalEvent(
      IcalUid(e.uid, randomBytes),
      EventTime(e.startDate, tz),
      EventTime(e.endDate, tz),
      ComposeDescription(e.description, Url(e)),
      true,
      if e.recurring then Some(Recurrence.RecurrenceRules(e.properties)) else None,
      if Truthy(e.summary) then e.summary else None,
      if Truthy(e.location) then e.location else None);
    (body, if e.recurring then expandedExDates else [])
  }

  /** Summary and location are copied verbatim when present; the
      recurrence lines are the RRULE lines and then the RDATE lines of the
      event, one per property. */
  lemma ToGcalEventCopies<D>(e: IcalEvent, tz: string, randomBytes: seq<Uuid.Byte>, expandedExDates: seq<D>)
    requires |randomBytes| == 16
    ensures var g := ToGcalEvent(e, tz, randomBytes, expandedExDates).0;
      && (g.summary.Some? ==> g.summary.value == e.summary.value)
      && (g.location.Some? ==> g.location.value == e.location.value)
      && (g.recurrence.Some? ==>
            g.recurrence.value ==
            Recurrence.IcalStrings(Recurrence.AllProperties(e.properties, "rrule"))
              + Recurrence.IcalStrings(Recurrence.AllProperties(e.properties, "rdate")))
      && (g.recurrence.Some? ==>
            |g.recurrence.value| ==
            |Recurrence.AllProperties(e.properties, "rrule")| + |Recurrence.AllProperties(e.properties, "rdate")|)
  {
    Recurrence.RecurrenceRulesOrder(e.properties);
    Recurrence.RecurrenceRulesCount(e.properties);
  }

  /** An event with a UID keeps it whatever the random bytes; one without
      gets a well-formed version-4 identifier. */
  lemma IdentifierChoice<D>(e: IcalEvent, tz: string, a: seq<Uuid.Byte>, b: seq<Uuid.Byte>, ds: seq<D>)
    requires |a| == 16 && |b| == 16
    ensures Truthy(e.uid) ==>
      ToGcalEvent(e, tz, a, ds).0.iCalUID == e.uid.value == ToGcalEvent(e, tz, b, ds).0.iCalUID
    ensures !Truthy(e.uid) ==>
      var id := ToGcalEvent(e, tz, a, ds).0.iCalUID;
      Uuid.UuidLayout(id) && id[14] == '4' && id[19] in "89ab"
  {
    if !Truthy(e.uid) {
      Uuid.UuidV4VersionVariant(a);
    }
  }

  /** Two events without a UID get different identifiers whenever their
      stamped random bytes differ. */
  lemma FreshIdentifiersDiffer<D>(e: IcalEvent, f: IcalEvent, tz: string, a: seq<Uuid.Byte>, b: seq<Uuid.Byte>, ds: seq<D>)
    requires |a| == 16 && |b| == 16 && !Truthy(e.uid) && !Truthy(f.uid)
    requires Uuid.Stamp(a) != Uuid.Stamp(b)
    ensures ToGcalEvent(e, tz, a, ds).0.iCalUID != ToGcalEvent(f, tz, b, ds).0.iCalUID
  {
    if Uuid.UuidV4(a) == Uuid.UuidV4(b) {
      Uuid.UuidV4Injective(a, b);
    }
  }

  /** The body's description recovers the event's description. */
  lemma ToGcalEventDescription<D>(e: IcalEvent, tz: string, randomBytes: seq<Uuid.Byte>, ds: seq<D>)
    requires |randomBytes| == 16
    ensures RecoverDescription(ToGcalEvent(e, tz, randomBytes, ds).0.description, Url(e))
         == (if Truthy(e.description) then e.description.value else "")
  {
    DescriptionRecoverable(e.description, Url(e));
  }
}
