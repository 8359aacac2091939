# ics2gcal core, modelled in Dafny

ics2gcal is a Chrome extension that imports an iCalendar (`.ics`)
attachment into Google Calendar. This project models the logic it runs
between downloading the file and calling the Calendar API, and proves
properties of that model:

- **Sanitiser** (`sanitizer.dfy`, module `Sanitizer`). Two regex rewrites
  run before parsing. The first drops a trailing comma in front of a new
  line that is not a folded continuation. The second empties lines that are
  exactly `RDATE:` or `EXDATE:`. Both are modelled as JavaScript's global,
  left-to-right, non-overlapping `String.prototype.replace`.
- **Recurrence lines** (`recurrence.dfy`, module `Recurrence`). These are
  the RRULE lines and then the RDATE lines of an event. The module also
  covers the property look-ups the translation needs.
- **Random identifiers** (`uuid.dfy`, module `Uuid`). Sixteen bytes are
  stamped with the version-4 / variant-1 bits of section 4.4 of RFC 4122.
  They are then written as zero-padded lower-case hex into the template
  `xxxx-xx-xx-xx-xxxxxx`. `ParseUuid` reads the bytes back from that
  layout, and the lemmas show that it inverts `UuidV4`.
- **Event translation** (`translate.dfy`, module `Translate`). A parsed
  event becomes the body of an `events.import` request: UID fallback,
  shared time zone, default reminders, recurrence, summary, location and
  the description with the URL appended.
- **EXDATE reconciliation** (`reconcile.dfy`, module `Reconcile`). This is
  the two-tier rule that decides which instances are cancelled:
  - first, the exact original-start matches;
  - otherwise, for timed events only, the single instance in the EXDATE's
    day window.

  The module also covers the cancellation `PUT`s on a calendar, and the
  bounds of the day-window query.
- **Calendar arithmetic** (`civil.dfy`, module `Civil`). This is a
  proleptic Gregorian wall-clock time, with the day stepping and second
  carrying that the day window relies on.
- **Response check** (`http.dfy`, module `Http`). This is `handleStatus`.
- **Calendar choices** (`calendars.dfy`, module `Calendars`). The options
  page keeps only writable calendars and splits them into visible and
  hidden lists.

`wrappers.dfy` holds `Option`/`Result`. `arith.dfy` holds the uniqueness
of Euclidean division, which the bit, hex and calendar proofs share.

Behaviour of the code that is easy to get wrong:

- **The comma rewrite is not idempotent.** In `",\n,\nX"` the second comma
  is the character captured by the first match, so the scan resumes after
  it. One pass gives `"\n,\nX"`; a second pass gives `"\n\nX"`
  (`Sanitizer.DropTrailingCommasNotIdempotent`).
- **Erasing keeps the line terminator.** The `/m` rewrite erases only the
  text of an empty `RDATE:` line, so `"RDATE:\n"` becomes `"\n"`
  (`Sanitizer.EmptyRdateLineKeepsTerminator`).
- **The rewrites do not commute.** The comma rewrite runs first, and the
  two do not give the same result in either order. For `",\nRDATE:\n"`,
  the code's order gives `"\n\n"`; the other order gives `",\n\n"`.
  The model composes them in the code's order (`Sanitizer.Sanitize`,
  `Sanitizer.SanitizeOrderMatters`).
- **A failed EXDATE lookup is not silent.** `cancelExDates` awaits
  `Promise.all`, so one EXDATE whose lookup fails rejects the whole call.
  The model treats the lookups as given inputs, so it does not show this
  (see "Left out").

## Model

| member | source | states |
|---|---|---|
| Sanitizer.DropTrailingCommas | app.js:14-15 | The comma rewrite only deletes commas: the output is the input with some `,` characters removed, and nothing is added or reordered. |
| Sanitizer.DropTrailingCommasSelects | app.js:10-15 | The output is the input minus exactly the characters that a keep-mask marks. A position is dropped iff it holds `,` followed by `\n` and a non-`\s` character, and that `,` was not captured by the previous match. |
| Sanitizer.CommaMask | app.js:14-15 | For every input there is a mask with that left-to-right, non-overlapping characterisation. |
| Sanitizer.KeptCharacters | app.js:10-15 | A character other than `,` is never removed. A `,` before `\n` and whitespace (a folded line) is never removed either. |
| Sanitizer.DropTrailingCommasShortens | app.js:14-15 | The output is never longer than the input. With no `,\n\S` in the input, the output equals the input. |
| Sanitizer.NoMatchUnchanged | app.js:14-15 | Text without any `,\n\S` occurrence is returned unchanged. |
| Sanitizer.DeletesOnlyShortens | app.js:14-15 | Deleting characters cannot lengthen a text, and deleting none leaves it equal. |
| Sanitizer.DropTrailingCommasNotIdempotent | app.js:14-15 | `",\n,\nX"` becomes `"\n,\nX"`, and a second pass changes it again, to `"\n\nX"`. |
| Sanitizer.EraseLinewise | app.js:16-19 | The line terminators and the number of lines are kept. Each line is erased iff it is exactly `RDATE:` or `EXDATE:`; every other line, such as `RDATE:20240101T000000Z`, is unchanged. |
| Sanitizer.LinesRoundTrip | app.js:18-19 | Splitting a text into lines and terminators and joining them again gives the text back. This is the line view the `/m` rewrite works on. |
| Sanitizer.LinesHaveNoBreak | app.js:18-19 | No line of the split holds a line terminator, so the text is split at every one of them. |
| Sanitizer.LineEndFindsBreak | app.js:18-19 | The first line holds no line terminator, and it ends at one unless it runs to the end of the text. |
| Sanitizer.LinesCount | app.js:18-19 | A text has one line more than it has terminators. |
| Sanitizer.BreaksAreTerminators | app.js:18-19 | Every character recorded as a terminator is one of `\n`, `\r`, U+2028 and U+2029. |
| Sanitizer.EmptyRdateLineKeepsTerminator | app.js:18-19 | `"RDATE:\n"` becomes `"\n"`: the terminator stays. |
| Sanitizer.EraseEmptyDateLines | app.js:18-19 | Erasing never lengthens the text, and a text without a line terminator is erased iff it is exactly `RDATE:` or `EXDATE:`, and otherwise kept. |
| Sanitizer.Sanitize | app.js:14-19 | The composed repair (commas first, then empty date lines) never lengthens the text. |
| Sanitizer.SanitizeOrderMatters | app.js:14-19 | On `",\nRDATE:\n"` the code's order (commas, then date lines) gives `"\n\n"`, while the other order gives `",\n\n"`. |
| Uuid.BitAnd | app.js:167-169 | JavaScript `&` on operands below 2^31 (here, bytes) is at most either operand. |
| Uuid.BitOr | app.js:167-169 | JavaScript `\|` on operands below 2^31 (here, bytes) is at least either operand and at most their sum. |
| Uuid.AndLowMask | app.js:167-169 | For operands below 2^31 (here, bytes), `a & (2^k - 1)` keeps the low `k` bits: it equals `a % 2^k`. |
| Uuid.OrHighBit | app.js:167-169 | For operands below 2^31 (here, bytes), or-ing in a bit above `x` adds it: `2^k \| x == 2^k + x` for `x < 2^k`. |
| Uuid.SetVersion | app.js:166-167 | `0x40 \| (b & 0x0F)` has high nibble 4 and keeps `b`'s low nibble. |
| Uuid.SetVariant | app.js:168-169 | `0x80 \| (b & 0x3F)` has top bits `10` and keeps `b`'s low six bits. |
| Uuid.Stamp | app.js:164-169 | Bytes 6 and 8 are stamped as above, and every other byte is unchanged. |
| Uuid.ToHex | app.js:172 | `n.toString(16)` is lower-case hex whose value is `n`. It has one digit iff `n < 16`, and two for a byte of 16 or more. |
| Uuid.PadStart | app.js:172 | `padStart(n, fill)` left-pads to at least `n` characters and keeps the original as the suffix. |
| Uuid.PaddedToStringIsByteHex | app.js:172 | `b.toString(16).padStart(2, '0')` is the two-digit hex of byte `b`. |
| Uuid.ByteHex | app.js:172 | Two lower-case hex digits. |
| Uuid.ByteHexValue | app.js:172 | The two digits, read back high then low, give the byte. |
| Uuid.DigitValueOfHexDigit | app.js:172 | Reading back a rendered hex digit gives its value. |
| Uuid.FillTemplate | app.js:170-173 | Replacing each `x` by the next byte's two digits lengthens the template by one character per `x`. |
| Uuid.FillAtPlaceholder | app.js:170-173 | An `x` at template index `j` lands at `j` plus the number of earlier `x`s, as the two digits of the byte whose index is that count. |
| Uuid.FillAtOther | app.js:170-173 | Any other template character `j` is copied to `j` plus the number of earlier `x`s. |
| Uuid.TemplateShape | app.js:171 | The template has 20 characters, 16 placeholders in byte order, and hyphens after 4, 6, 8 and 10 placeholders. |
| Uuid.UuidV4 | app.js:163-174 | The identifier has 36 characters, hyphens exactly at 8, 13, 18 and 23, and lower-case hex elsewhere. Stamped byte `k` is written, zero-padded, at its two columns in byte order. |
| Uuid.UuidV4VersionVariant | app.js:166-169 | Column 14 is `4` and column 19 is one of `8 9 a b`. |
| Uuid.ParseUuid | app.js:163-174 | `ParseUuid` reads the 16 bytes back from a text iff it has the identifier layout. |
| Uuid.ParseUuidV4 | app.js:163-174 | Parsing a generated identifier gives back exactly the stamped bytes. |
| Uuid.RenderLaidOut | app.js:170-173 | Filling the template with the bytes parsed from any well-laid-out text reproduces that text. |
| Uuid.UuidV4Onto | app.js:163-174 | Every text with the identifier layout, version digit `4` and a variant digit in `8 9 a b` is the output for its own parsed bytes. |
| Uuid.StampFixed | app.js:166-169 | Bytes that already carry version and variant are left alone by stamping. |
| Uuid.UuidV4Injective | app.js:163-174 | Equal identifiers come from equal stamped bytes. |
| Recurrence.AllProperties | app.js:155-156 | `getAllProperties(name)` returns no more properties than the component has. |
| Recurrence.AllPropertiesMembers | app.js:155-156 | A property is selected iff it belongs to the component and has that name. |
| Recurrence.FirstPropertyValue | app.js:214 | A value is found iff some property has the name. |
| Recurrence.FirstIsHeadOfAll | app.js:214 | The first value is that of the first property of the name, and there is none when no property has it. |
| Recurrence.IcalString | app.js:156 | The rendered line is longer than the property name. |
| Recurrence.IcalStringPrefix | app.js:156 | A rendered line starts with the upper-case property name and `:`. |
| Recurrence.GetRecurrenceRules | app.js:145-161 | The nested loop returns the reference list. |
| Recurrence.RecurrenceRulesOrder | app.js:153-159 | The reference list is all RRULE lines and then all RDATE lines, each group in source order. |
| Recurrence.RecurrenceRulesCount | app.js:153-160 | Its length is #RRULE + #RDATE. |
| Recurrence.RecurrenceRulesSources | app.js:147-159 | Every line is a rendered RRULE or RDATE property of the event, so no EXRULE or EXDATE appears. |
| Recurrence.RecurrenceRulesPrefixes | app.js:153-159 | The first #RRULE lines start `RRULE:` and all later lines start `RDATE:`. |
| Recurrence.RecurrenceRulesComplete | app.js:153-159 | Every RRULE and RDATE property appears among the lines. |
| Recurrence.OtherPropertiesIgnored | app.js:147-159 | Adding a property of any other kind, such as EXDATE or EXRULE, leaves the lines unchanged. |
| Recurrence.IcalStringsAppend | app.js:156-157 | Rendering a list extended by one property appends that property's line. |
| Civil.DaysInMonth | app.js:123-126 | Every month has 28 to 31 days. |
| Civil.DaysBeforeNextYear | app.js:123-126 | Consecutive years are one year-length apart in the day count, under the Gregorian leap rule. |
| Civil.WholeYear | app.js:123-126 | The months of a year add up to the year's length. |
| Civil.NextDay | app.js:125-126 | Stepping to the next calendar day keeps a time valid. |
| Civil.NextDayNumber | app.js:125-126 | The next calendar day has day number one higher and the same clock and zone, across month and year ends. |
| Civil.PrevDayNumber | app.js:123-126 | The previous calendar day has day number one lower and the same clock and zone. |
| Civil.NextPrevInverse | app.js:123-126 | Stepping forward then back, or back then forward, returns the same time. |
| Civil.DayNumberInjective | app.js:123-126 | Valid dates with the same day number are the same date. |
| Civil.SecondsInjective | app.js:76-79 | Valid times of one zone with the same second count are equal. |
| Civil.AddDaysNumber | app.js:123-126 | Adding `k` days moves the day number by exactly `k` and keeps the clock. |
| Civil.AddSeconds | app.js:76-79 | Adding `n` seconds, with carry into the date, gives a valid time whose second count is exactly `n` more, in the same zone. |
| Civil.Adjust | app.js:123-126 | `adjust(d, h, m, s)` gives a valid time whose second count is `d` days, `h` hours, `m` minutes and `s` seconds more, in the same zone. |
| Civil.AddSecondsDifference | app.js:76-79 | Adding the distance between two times of one zone to the first gives the second. |
| Reconcile.Decide | app.js:111-134 | The fallback query is sent iff there is no exact match and the event is timed. Exact matches, when present, are what is cancelled. An all-day event without exact matches cancels nothing. After the fallback query, the one instance is cancelled if the window held exactly one, and nothing otherwise. |
| Reconcile.DecideCancels | app.js:111-141 | An instance is cancelled iff it matched exactly, or there was no exact match, the event is timed and it is the window's only instance. |
| Reconcile.FallbackUnusedUnlessQueried | app.js:115-134 | When no fallback query is sent, its answer does not change the decision. |
| Reconcile.CancelInstance | app.js:95-96 | The instance keeps its id and gets status `cancelled`. |
| Reconcile.PutCancelIsMark | app.js:95-106 | `PUT`ting an instance's cancelled body cancels exactly the stored instances with its id, as the independent `Mark` describes. |
| Reconcile.MarkTwice | app.js:137-141 | Cancelling two id sets one after the other is cancelling their union. |
| Reconcile.CancelAll | app.js:137-141 | Cancelling a list of instances one by one sets exactly the instances with those ids to `cancelled`, as the independent `Mark` describes. |
| Reconcile.CancelAllEffect | app.js:95-106 | An instance's id never changes. Its status becomes `cancelled` iff its id was cancelled, and otherwise it keeps its status. |
| Reconcile.CancelAllOrderFree | app.js:137-141 | Cancelling again changes nothing, and the order of the cancellations does not matter. The concurrent `Promise.all` is therefore equal to any sequential order. |
| Reconcile.CancelExDates | app.js:109-143 | After all EXDATEs, exactly the instances named by some decision are cancelled, in addition to any already cancelled; nothing else changes. |
| Reconcile.ReplaceFirst | app.js:70 | `replace` with a string pattern leaves a text without the pattern unchanged. |
| Reconcile.ReplaceFirstSplits | app.js:70 | Only the first occurrence is replaced, and the text on both sides is kept. |
| Reconcile.ExplicitUtcOffset | app.js:68-70 | A UTC string ending in its only `Z` ends in `+00:00` instead, and a string without `Z` is unchanged. |
| Reconcile.StartOfDay | app.js:123-124 | Adjusting by minus the hours, minutes and seconds gives midnight of the same day, in the same zone. |
| Reconcile.EndOfDay | app.js:125-126 | Adjusting by one day gives the next calendar day at the same clock, with day number one higher. |
| Reconcile.FallbackWindow | app.js:63-82 | `timeMax` is the next midnight, converted and rendered with an explicit offset. `timeMin` is a time in the EXDATE's zone that lies the event's duration after the day's midnight, rendered the same way. |
| Translate.IcalUid | app.js:185 | `iCalUID` is the event's UID when it is non-empty, and otherwise the generated identifier. |
| Translate.ComposeDescription | app.js:194-219 | Without a URL, the description is the event's non-empty description or `''`. |
| Translate.DescriptionLayout | app.js:212-219 | With a URL, the description ends in the URL. With a non-empty event description it is exactly that description, one blank line (`\n\n`) and the URL; without one, it is exactly the URL. |
| Translate.DescriptionRecoverable | app.js:194-219 | Removing the URL part, given the URL, recovers the event's description, or `''`. |
| Translate.ToGcalEvent | app.js:176-221 | `iCalUID` is the UID or the generated identifier, and the description is the composed one. Start and end carry the event's times and the one guessed zone. Default reminders are on. `recurrence` is present iff the event recurs, and is then the event's recurrence lines. The EXDATEs returned are the expanded ones for a recurring event and empty otherwise. `summary` and `location` are present iff non-empty. |
| Translate.ToGcalEventCopies | app.js:199-211 | `summary` and `location` are copied verbatim. The recurrence is the RRULE lines and then the RDATE lines, in source order, one per property. |
| Translate.IdentifierChoice | app.js:185 | An event with a UID keeps it whatever the random bytes. One without gets a well-formed version-4 identifier. |
| Translate.FreshIdentifiersDiffer | app.js:185 | Two events without a UID get different identifiers whenever their stamped bytes differ. |
| Translate.ToGcalEventDescription | app.js:208-219 | The body's description gives back the event's description. |
| Http.HandleStatus | app.js:1-7 | A response is passed on unchanged iff 200 ≤ status < 300. Otherwise it becomes a rejection carrying the status text. |
| Http.AcceptsSuccessClass | options.js:1-7 | For non-negative statuses, acceptance is exactly the 2xx class. |
| Calendars.VisibleAppend | options.js:48-59 | One more item extends exactly the list its role and `selected` flag choose. |
| Calendars.Partition | options.js:48-59 | The loop yields the visible and the hidden reference lists. |
| Calendars.FetchChecked | options.js:26-45 | A response whose status is outside 2xx, or whose body fails to decode, gives two empty lists. A 2xx response with decoded items gives their partition. |
| Calendars.FetchCalendars | options.js:26-65 | A failed request or decode gives two empty lists. Otherwise the result is the partition of the items. |
| Calendars.ListMembership | options.js:50-58 | A pair is visible iff it comes from an `owner`/`writer` item with `selected` true, and hidden iff from one without it. |
| Calendars.ListsCountWritable | options.js:50-58 | The two lengths add up to the number of writable items, so each lands in exactly one list. |
| Calendars.Choices | options.js:54-57 | Each item maps to its `[id, summary]` pair, position by position. |
| Calendars.ListsKeepOrder | options.js:48-59 | Both lists are subsequences of the items' pairs, so the relative order is kept. |

## Left out

- **Parsing.** `ICAL.parse`, `ICAL.Component`, `ICAL.Event`,
  `ICAL.RecurExpansion` and time-zone registration are not modelled
  (app.js:20-27, 202-206): ical.js is not part of this model. Events come
  in as `Translate.IcalEvent` values, and the expanded EXDATEs as a list.
- **Recurrence.IcalString** renders a property as `NAME:value`. ical.js's
  `toICALString` also writes parameters and escapes values; that renderer
  is not part of this model.
- **Time-zone handling.** `ICAL.Timezone.convert_time` and the UTC
  `toString()` need the tz database. They are taken as one function
  parameter (`utcString`) of `Reconcile.FallbackWindow`. The guessed zone
  from `moment.tz.guess()` is a parameter of `Translate.ToGcalEvent`.
- **Reconcile.FallbackWindow** states the window in the EXDATE's
  zone. Because `fromDateTimeString` drops offsets, the duration is the
  wall-clock difference of the event's start and end. This matches the
  source's own noted limitation.
- **HTTP and orchestration.** All `fetch` calls, the URL query strings,
  JSON encoding and the orchestration in `addIcalToCalendar`
  (app.js:236-280) are not modelled. Query answers are inputs
  (`Reconcile.Lookup`); the calendar's instances are a sequence that
  `Reconcile.Put` updates.
- **Promise.all.** Concurrency and error propagation are not modelled:
  per-EXDATE work is sequential. `Reconcile.CancelAllOrderFree` shows that
  the order of cancellations does not matter. A rejected lookup, which
  rejects the whole `cancelExDates` call in the code, is not modelled.
- **Randomness.** `window.crypto.getRandomValues` is replaced by a
  16-byte parameter.
- **Browser plumbing.** Authentication and `chrome.*` messaging, storage,
  the InboxSDK hook-up, the options page DOM code and background.js are
  not modelled.
- **Instance resources.** An instance is reduced to its id and status.
  The other fields travel unchanged through the `PUT`.
- **Calendars.FetchCalendars**: a response without an `items` array
  throws in the code outside its `try`, so the call rejects. The model
  takes the items as decoded and does not represent that rejection.
- **Civil.AddSeconds**: `ICAL.Time`'s own normalisation code is not part
  of this model. Calendar arithmetic is the proleptic Gregorian calendar
  on an unbounded year.
- **DATE-valued EXDATEs.** `Civil.CivilTime` always carries a clock, so an
  EXDATE with `VALUE=DATE` cannot be represented. The decision itself is
  modelled for all-day events through `Reconcile.EventStart`.
- **Uuid.BitAnd** and `Uuid.BitOr` work on unbounded naturals. JavaScript's
  `&` and `|` first apply the 32-bit ToInt32 conversion, which is not
  modelled; the two agree for operands below 2^31, and the code only
  applies them to bytes.
- **Translate.IcalEvent**'s `recurring` flag is an input standing for
  ical.js's `isRecurring()`; it is not derived from the RRULE and RDATE
  properties, so a recurring event without either gets an empty
  `recurrence` list.
- **Reconcile.Put** stands in for the Calendar API's `PUT`, which is not
  part of this model, so it carries no contract of its own; its effect
  when cancelling is stated by `Reconcile.PutCancelIsMark`.
