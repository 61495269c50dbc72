# Kai MB Mechanic booking core in Dafny

This project models the booking logic of the Kai MB Mechanic booking app, a
Streamlit page over an SQLite table (`app.py`), and proves properties of it.
The model covers:

- **Slot generator** (`Schedule`). `generate_slots` is a method with the same
  `while` loop. It is proved equal to a specification function over the
  slot starts, and those starts are shown to begin at DAY_START, be
  SLOT_MINUTES apart, end by DAY_END and drop a trailing partial slot. Times
  of day are minutes after midnight, dates are proleptic Gregorian ordinals,
  and `strftime("%H:%M")` is the total function `Label`.
- **Lead-time rule** (`Schedule`). `lead_time_ok` takes the clock reading
  `now` as a parameter and parses the label as the source does:
  `split(":")`, then Python's `int()`, then `time(hh, mm)`. Every parse
  failure is `None` and yields true. `int()` skips less whitespace than
  `str.strip()`: only tab, line feed, vertical tab, form feed, carriage return
  and the space, not the separators 0x1c..0x1f. The model keeps the two apart
  (`Numbers.StripIntSpace` and `Text.Strip`).
- **Availability filter** (`Availability`). The two comprehensions that build
  the offered slots are modelled as filters.
- **Booking store** (`Store`). This is a class holding the rows of the
  `bookings` table and the next AUTOINCREMENT id:
  - `insert_booking` and `update_status` are methods that change the table;
  - `slot_taken` is a predicate over the rows;
  - the `ORDER BY` of `fetch_bookings` is a sort, proved to give an ordered
    permutation of the rows.
- **Phone normalisation and validation** (`Phone`).
- **Submit handler** (`Submission`). It builds the error list imperatively and
  inserts the booking only when the list is empty.
- **Price arithmetic** (`Catalog`). This covers the add-ons sum, the quoted
  total and `money`.

Supporting modules model the parts of Python used along the way, ASCII only:
- `Text`: `strip`, `replace`, `split`, `join`, and the code-point order
  SQLite uses for TEXT;
- `Numbers`: `int()` and `str()` on integers;
- `Seqs`: list comprehensions with a filter;
- `Wrappers`: an `Option` type for `None`.

Where the code and its documentation disagree, the model follows the code:

- `insert_booking` stores whatever status the `Booking` carries. It is the
  submit handler that sets `"new"`; the store does not force it.
- `update_status` accepts any string, not only the four statuses the admin
  page offers.
- Re-opening a cancelled booking is allowed by design. `Store.ReopenCanDoubleBook`
  shows that this can put two live bookings on one slot.

## Model

| member | source | states |
|---|---|---|
| Schedule.Label | app.py:132 | `dt.time().strftime("%H:%M")`: the minute of the day as two-digit hour, colon, two-digit minute |
| Schedule.SlotLabels | app.py:125-134 | what `generate_slots` returns: the labels of the slot starts, or none on a day off (the specification of `GenerateSlots`) |
| Schedule.LeadTimeOk | app.py:145-151 | `lead_time_ok`: text that fails to parse passes; a parsed time passes iff it is at least MIN_LEAD_TIME_MINUTES after now |
| Numbers.ParseInt | app.py:148 | `int(s)`: skip `int()`'s whitespace at both ends, then an optional sign, then digits with single underscores between them; anything else is None |
| Schedule.GenerateSlots | app.py:125-134 | the loop returns exactly the labels of the slot starts of the day's weekday, in order |
| Schedule.StartsFromShape | app.py:128-134 | from a start `t` the loop emits `t`, `t+SLOT_MINUTES`, ...; every slot ends by DAY_END, and one more step would not |
| Schedule.SlotStartsSpec | app.py:125-134 | a day off has no slots; a work day's slots start at DAY_START, are SLOT_MINUTES apart, lie within the day, and a trailing partial slot is dropped |
| Schedule.SlotCount | app.py:128-134 | a work day has (DAY_END - DAY_START) div SLOT_MINUTES slots, or none when DAY_END is earlier |
| Schedule.ShippedSlots | app.py:44-47 | with Mon-Sat, 09:00-18:00 and 60-minute slots, a work day offers exactly 09:00 to 17:00 (nine slots) and Sunday nothing |
| Schedule.ClockReading | app.py:132 | the hour and minute shown by `strftime` give back the minute of the day |
| Numbers.ParseIntKeepsSeparator | app.py:148 | `int()` rejects "\x1c9", which `strip()` would turn into "9" |
| Schedule.ParseClock | app.py:147-148 | a parsed clock text is a time of day below 24:00 |
| Schedule.LabelRoundTrip | app.py:147-148 | the parse in `lead_time_ok` reads a generated label back as its time of day |
| Schedule.LabelInjective | app.py:132 | different times of day get different labels |
| Schedule.LeadTimeOfLabel | app.py:145-151 | on a generated label, `lead_time_ok` holds iff the slot starts at or after now + MIN_LEAD_TIME_MINUTES |
| Schedule.LeadTimeColonCount | app.py:146-150 | a text without exactly one colon cannot be unpacked into `hh, mm` and is accepted |
| Schedule.LeadTimeMalformed | app.py:146-150 | a text `hh:mm` whose hour is not an integer 0..23, or whose minute is not an integer 0..59, raises and is accepted |
| Schedule.LeadTimeSeparatorPadded | app.py:146-150 | "\x1c9:00" is accepted whatever the time, because `int("\x1c9")` raises |
| Schedule.LeadTimeWellFormed | app.py:147-151 | a text `hh:mm` with hour 0..23 and minute 0..59 passes iff that time of the day is at least the lead time after now |
| Schedule.ShippedSettings | app.py:44-51 | SETTINGS holds the shipped work days, hours, slot length and lead time, and is well formed |
| Availability.FreeSlots | app.py:244-246 | the two comprehensions: the day's slots that are not taken, then, when MIN_LEAD_TIME_MINUTES > 0, those that pass `lead_time_ok` |
| Availability.FreeSlotsSubsequence | app.py:244-246 | the offered slots are an order-preserving subsequence of the day's slots |
| Availability.FreeSlotsMembers | app.py:244-246 | a text is offered iff it is a slot of the day, not taken, and (when a lead time is set) passes `lead_time_ok` |
| Availability.FreeSlotAt | app.py:244-246 | the slot at a minute is offered iff the loop reaches it, no live booking holds it, and (with a lead time) it starts at least that long after now |
| Availability.LabelIsSlot | app.py:125-134 | a time's label is among the day's slots iff the time is a slot start |
| Availability.ShippedAfternoon | app.py:244-246 | with the shipped settings at 14:30, 15:00 is no longer offered and a free 16:00 still is |
| Phone.IsValidPhone | app.py:120-122 | `is_valid_phone`: the string of the digits of `p` has length 9 to 12 |
| Phone.NormalizePhone | app.py:114-117 | the normalised number holds no space and no dash |
| Phone.NormalizeMissing | app.py:114-117 | a missing or empty phone normalises to the empty string |
| Phone.NormalizeKeepsDigits | app.py:114-122 | normalising keeps the digits in order, so it does not change validity |
| Phone.NormalizeIdempotent | app.py:114-117 | normalising twice is normalising once, when the plain space is the input's only whitespace |
| Phone.NormalizeNotIdempotent | app.py:115-116 | "-\t5" normalises to "\t5", which normalises to "5": with other whitespace a second pass can change the result |
| Phone.ValidPhoneCount | app.py:120-122 | a number is valid iff 9 to 12 of its characters are digits |
| Phone.DigitsOfCount | app.py:121 | the joined digit string is as long as the number of digit positions |
| Catalog.AddonsPrice | app.py:227 | `sum(ADDONS[a] for a in addons_selected)`, in selection order |
| Catalog.QuotedTotal | app.py:229 | service price plus travel fee plus the add-ons sum |
| Catalog.AddonsLabel | app.py:292 | the add-ons column: the ticked names joined by ", ", or "None" when nothing is ticked |
| Catalog.AddonsPriceNonNegative | app.py:227 | with non-negative prices the add-ons sum is non-negative |
| Catalog.AddonsPriceAppend | app.py:227 | the sum over two selections one after the other is the sum of their sums |
| Catalog.AddonsPriceOrderFree | app.py:227 | the order in which add-ons are ticked does not change their sum |
| Catalog.QuotedTotalBounds | app.py:229 | the quoted total is at least service price plus travel fee, and equal to it without add-ons |
| Catalog.Money | app.py:196-197 | `money(n)` starts with "$" followed by at least one character |
| Catalog.MoneyRoundTrip | app.py:196-197 | `int()` of `money(n)` without its "$" gives back `n` |
| Catalog.AddonsLabelNone | app.py:292 | the add-ons column reads "None" iff nothing was ticked, as long as no add-on is called "None" |
| Catalog.ShippedAddonsNotNone | app.py:35-41 | no shipped add-on is called "None" |
| Catalog.ShippedCatalogValid | app.py:27-59 | every shipped service price, add-on price and travel fee is non-negative |
| Store.Taken | app.py:137-142 | `slot_taken`: the count of rows with that date and time whose status is not "cancelled" is positive |
| Store.BookingTable.SlotTaken | app.py:137-142 | `slot_taken(conn, d, t)` over the table's current rows |
| Store.Total | app.py:339 | the admin view's total column: service price plus add-ons price plus travel fee |
| Store.TakenIff | app.py:137-142 | `slot_taken(d, t)` holds iff some row has that date and time and is not cancelled |
| Store.SetStatus | app.py:191-193 | the UPDATE changes the status of the rows with that id and leaves every other field and row as it was |
| Store.SetStatusAbsent | app.py:191-193 | updating an id no row has is a no-op |
| Store.CancelFrees | app.py:191-193 | after cancelling booking `id`, a slot is taken iff a row with another id occupies it |
| Store.InsertKeepsNoDoubleBooking | app.py:276-301 | inserting into a slot that is not taken keeps all live bookings on distinct slots |
| Store.SetStatusKeepsNoDoubleBooking | app.py:191-193 | cancelling, or moving a live booking between live statuses, keeps live bookings on distinct slots |
| Store.ReopenCanDoubleBook | app.py:191-193 | setting a cancelled booking back to "new" can put two live bookings on one slot |
| Store.BeforeAsymmetric | app.py:187 | the listing order never puts `a` before `b` and `b` before `a` |
| Store.NotBeforeTransitive | app.py:187 | the listing order by date, time and id is total and transitive |
| Store.InsertOrdered | app.py:187 | inserting a row into an ordered listing keeps it ordered and adds exactly that row |
| Store.SortRows | app.py:187 | the listing is ordered and is a permutation of the rows |
| Store.OrderedStrict | app.py:187 | in an ordered listing, rows with different ids are strictly ordered |
| Store.BookingTable.constructor | app.py:88-108 | a new table is empty, and the first id will be 1 |
| Store.BookingTable.InsertBooking | app.py:154-182 | `insert_booking` appends one row with the next id, which no existing row has, and leaves the other rows unchanged |
| Store.BookingTable.UpdateStatus | app.py:191-193 | `update_status` applies the UPDATE to the rows and leaves the id counter alone; an unknown id changes nothing |
| Store.BookingTable.FetchBookings | app.py:185-188 | `fetch_bookings` lists every row once, newest date and time first, ties broken by the larger id |
| Submission.BookingOf | app.py:283-300 | the `Booking` the handler builds: stripped name, suburb and address, normalised phone, catalog prices, add-ons label, notes stripped when given, status "new" |
| Submission.BookingOfQuote | app.py:283-300 | the stored booking is "new", has the normalised phone and the chosen date and time, and its admin total (line 339) equals the quoted total (line 229) |
| Submission.ErrorList | app.py:265-277 | each failed check adds its own message; the invalid-phone message needs a present phone; the list is empty iff every check passes |
| Submission.CheckForm | app.py:264-277 | the handler's messages appear iff the name is blank, the phone is empty, the phone is invalid, the suburb is blank, consent is missing, or the slot is taken |
| Submission.SubmitBooking | app.py:264-301 | the booking is inserted iff every check passes; otherwise the table is unchanged; a non-empty time keeps live bookings on distinct slots |

## Left out

- The Streamlit page is not modelled: widgets, tabs, messages, `st.rerun`
  and the admin password check (app.py:201-372, except the parts named
  above). This is presentation.
- `os.getenv` for the admin password (app.py:21) is environment I/O.
- The SQLite connection, SQL text and `commit` (app.py:86-111, 137-193) are
  foreign calls. They are replaced by the in-memory `BookingTable`. Row ids
  are unbounded, so SQLite's 2^63 limit is not modelled.
- pandas is not modelled: DataFrames, the status and date-range filters of
  the admin view, CSV export and the column sums (app.py:314-368). These are
  library calls. Only the total column (app.py:339) is modelled, as
  `Store.Total`.
- `datetime.now()` and `date.today()` become parameters: `now` in
  microseconds, and the day as an ordinal. Weekday and date arithmetic come
  from the ordinal.
- `lead_time_ok` reads `datetime.now()` afresh for every slot (app.py:151).
  `Availability.FreeSlots` uses one `now` for the whole list, so the clock
  moving on while the list is built is not modelled.
- `created_at`'s `isoformat` text is a string parameter.
- `booking_date` is stored as the date's ordinal, not its `isoformat` text.
  The text is one-to-one and sorts as the dates do for years 1 to 9999, so
  equality and ordering are unaffected.
- The `date_input` bounds of today to today + MAX_DAYS_AHEAD (app.py:235-237)
  are widget configuration, so the day is unconstrained.
- The race between the availability check and the insert when two sessions
  submit at once (app.py:276 vs app.py:301) is a concurrency matter. The model
  has a single sequential caller.
- `str.isspace`, `str.isdigit` and `int()` are modelled on ASCII only. The
  Unicode whitespace and digits, and `int()`'s 4300-digit limit, are out.
  On ASCII text, `int()` skips only tab, line feed, vertical tab, form feed,
  carriage return and the space, while `str.strip()` also removes 0x1c..0x1f.
  The model follows both.
- The `booking_time is None` case is not modelled. The submit button is
  disabled then, so the handler only runs with a selected slot. The time is a
  string, and `if booking_time` is "not empty".
- Phone.NormalizeIdempotent: proved only for input whose only whitespace is
  the plain space. With tabs or other ASCII whitespace,
  `normalize_phone` is not idempotent (Phone.NormalizeNotIdempotent).
- Schedule.ShippedSlots: stated for any settings whose fields have the
  shipped values (`Settings.IsShipped`). `Schedule.ShippedSettings` proves
  that `SETTINGS` is such settings.
- Settings with SLOT_MINUTES <= 0 are excluded (`Settings.Valid`). With a
  zero step on a work day where DAY_START <= DAY_END, the loop of
  `generate_slots` never ends. With a negative step it runs until `datetime`
  raises OverflowError. Both have no result to model. The cases where such
  settings still give `[]` (a day off, or DAY_START + SLOT_MINUTES > DAY_END)
  are not modelled either.
