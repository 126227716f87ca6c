# Dental appointment booking widget — Dafny model

This project models the logic of a single-page dental booking widget. A patient picks a
day on a month calendar, a dentist from a drop-down, and a time slot offered by a
scheduling server. They then fill in a name, email and phone form, and the page books the
appointment and shows a confirmation.

The model has one module per source file:

- `Dates` (`date_utils.dfy`): dates as (year, month, day) on the proleptic Gregorian
  calendar, a day count since 0001-01-01 with weekdays derived from it, day arithmetic,
  the week and month day lists, the "yyyy-MM-dd" text (the full-date of section 5.6 of
  RFC 3339) with its read-back, and the 24-hour to 12-hour time display.
- `MonthView` (`month_view.dfy`): the fixed 42-cell grid that starts on a Sunday, and the
  per-cell "current month", "selected" and "today" flags.
- `CalendarHeader` (`calendar_header.dfy`): previous/next month stepping on (year, month),
  and which callback each button invokes.
- `AppointmentForm` (`appointment_form.dfy`): the phone pattern
  `^\+?[0-9\s\-()]{7,15}$` (with JavaScript's exact `\s` set), the two-character name rule,
  and the Patient record the form submits.
- `DentistSelector` (`dentist_selector.dfy`): the null-to-"all" encoding of the picker,
  its decoding, and the order of its entries.
- `Api` (`api.dfy`): the requests the client sends, the availability URL, and the
  fail-soft mapping from an HTTP outcome to a result. The outcome is a value:
  `Response(status, body)` or `Thrown`.
- `IndexPage` (`index_page.dfy`): the booking page as a class `BookingSession` whose
  fields are the page's eleven state variables. The handlers are methods. Each of the three
  effects is a method, and an asynchronous effect is split into a Begin method and a
  Complete method. Begin does the work before the `await` and returns what the effect's
  closure captured. Complete applies the HTTP outcome. Each method's `modifies` clause names
  only the fields it writes, so every other field is unchanged.
- `Wrappers` (`wrappers.dfy`): `Option` for nullable values. `Present` is JavaScript
  truthiness of a nullable string.

"Now" is a parameter wherever the source reads the clock. The current time of day, time
zones and the network are not modelled.

## Model

| member | source | states |
|---|---|---|
| Dates.WeekdayAnchors | src/utils/dateUtils.ts:22-25 | The day count agrees with the calendar: 0001-01-01 is a Monday, 1970-01-01 a Thursday, 2000-02-29 a Tuesday |
| Dates.PrevDay | src/utils/dateUtils.ts:22-25 | The day before any valid date is a valid date, and the next day after it is the original date |
| Dates.AddDays | src/utils/dateUtils.ts:24 | date-fns addDays: adding any number of days, forward or back, to a real calendar day gives a real calendar day (its day count is Dates.AddDaysNumber) |
| Dates.PrevOfNext | src/utils/dateUtils.ts:22-25 | Stepping forward one day and then back one day returns the original date |
| Dates.YearLength | src/utils/dateUtils.ts:22-25 | A year adds 366 days to the day count when it is a leap year and 365 otherwise |
| Dates.NextDayNumber | src/utils/dateUtils.ts:22-25 | The next day has day count one greater, across month and year ends and 29 February |
| Dates.AddDaysNumber | src/utils/dateUtils.ts:22-25 | Adding n days (n may be negative) moves the day count by exactly n |
| Dates.AddDaysAdd | src/utils/dateUtils.ts:22-25 | Adding a days and then b days is the same as adding a + b days |
| Dates.DayNumberInjective | src/utils/dateUtils.ts:35-37 | Two valid dates with the same day count are the same date |
| Dates.DayOfWeekAfter | src/utils/dateUtils.ts:22-25 | n days later the weekday has advanced by n modulo 7 |
| Dates.StartOfWeek | src/utils/dateUtils.ts:23 | The week start is a Sunday, lies 0..6 days before the date, and adding the date's weekday to it gives the date back |
| Dates.DayRun | src/utils/dateUtils.ts:24 | The `Array.from` over addDays: n days, the i-th being i days after the start |
| Dates.WeekDays | src/utils/dateUtils.ts:22-25 | getWeekDays: seven consecutive days, Sunday through Saturday, starting at the week start, with the input at its weekday's index |
| Dates.MonthDays | src/utils/dateUtils.ts:27-33 | getMonthDays: as many days as the Gregorian month has, starting on the 1st, all in the input's month, consecutive, and every day of that month at index day − 1 |
| Dates.AddDaysWithinMonth | src/utils/dateUtils.ts:27-33 | Within a month, k days after the 1st is day k + 1 |
| Dates.IsSameDay | src/components/Calendar/MonthView.tsx:46 | isSameDay on (year, month, day) holds exactly when the two dates are the same date |
| Dates.IsSameMonthDate | src/utils/dateUtils.ts:39-41 | isSameMonthDate holds exactly when the two dates share the first day of their month |
| Dates.IsToday | src/utils/dateUtils.ts:35-37 | isToday, with now passed in, holds exactly when the date is now |
| Dates.SameDayIffSameDayNumber | src/utils/dateUtils.ts:35-37 | Two dates are the same calendar day exactly when their day counts are equal |
| Dates.IsTodayByDayNumber | src/utils/dateUtils.ts:35-37 | isToday holds exactly when the date and now have the same day count |
| Dates.SameMonthFacts | src/utils/dateUtils.ts:39-41 | isSameMonthDate is reflexive, symmetric and transitive, and the same day implies the same month |
| Dates.DecimalTextValue | src/utils/dateUtils.ts:4-6 | The decimal text of a number reads back as that number |
| Dates.DecimalTextLength | src/utils/dateUtils.ts:4-6 | A number's decimal text has at most k digits exactly when the number is below 10^k |
| Dates.PadLeftFacts | src/utils/dateUtils.ts:4-6 | Zero-padding digits keeps them digits and keeps their value, and gives width w unless the text was already wider |
| Dates.YearTextFacts | src/utils/dateUtils.ts:4-6 | The "yyyy" field is all digits and at least 4 long, reads back as a positive year, and is exactly 4 long for years 1..9999 |
| Dates.TwoDigitsFacts | src/utils/dateUtils.ts:4-6 | The "MM" and "dd" fields are two digits that read back as the month or day |
| Dates.FormatDate | src/utils/dateUtils.ts:4-6 | formatDate with "yyyy-MM-dd": the year field, '-', the two-digit month, '-', the two-digit day; what this text promises is stated by the lemmas that follow |
| Dates.FormatDateParts | src/utils/dateUtils.ts:4-6 | formatDate's text is the year field, '-', the two-digit month, '-', the two-digit day |
| Dates.FormatDateRoundTrip | src/utils/dateUtils.ts:4-6 | For years 1..9999 formatDate writes a 10-character RFC 3339 full-date whose fields read back as the year, month and day |
| Dates.FormatParsedFullDate | src/utils/dateUtils.ts:4-6 | Any well-formed full-date naming a real day is exactly what formatDate writes for that day |
| Dates.FormatDateCharacters | src/utils/dateUtils.ts:4-6 | formatDate writes only digits and '-', for every year |
| Dates.DigitsDetermine | src/utils/dateUtils.ts:4-6 | Two digit strings of equal length and equal value are equal |
| Dates.SlotHour | src/utils/dateUtils.ts:14-15 | The hour parsed from an "H:MM" or "HH:MM" slot is 0..23 |
| Dates.FormatDisplayTime | src/utils/dateUtils.ts:12-19 | The result ends in "PM" exactly when the hour is at least 12 (else "AM"); the minutes are copied verbatim between ':' and ' '; the hour has no leading zero, is 1..12 and equals the hour modulo 12 |
| Dates.DisplayTimeRoundTrip | src/utils/dateUtils.ts:12-19 | The displayed hour and the AM/PM suffix give back the 24-hour hour |
| Dates.DisplayTimeMidnight | src/utils/dateUtils.ts:12-19 | "00:00" shows as "12:00 AM" |
| Dates.DisplayTimeNoon | src/utils/dateUtils.ts:12-19 | "12:30" shows as "12:30 PM" |
| Dates.DisplayTimeEvening | src/utils/dateUtils.ts:12-19 | "23:15" shows as "11:15 PM" |
| Dates.DisplayTimeMorning | src/utils/dateUtils.ts:12-19 | "09:05" shows as "9:05 AM": the hour's leading zero is dropped and the minutes are kept |
| CalendarHeader.PreviousMonth | src/components/Calendar/CalendarHeader.tsx:18-20 | The previous month is a valid month one step back in the month count; January steps back to December of the year before |
| CalendarHeader.NextMonth | src/components/Calendar/CalendarHeader.tsx:22-24 | The next month is a valid month one step forward in the month count; December steps to January of the year after |
| CalendarHeader.MonthIndexInjective | src/components/Calendar/CalendarHeader.tsx:18-24 | Two valid months with the same month count are the same (year, month) |
| CalendarHeader.NextPreviousInverse | src/components/Calendar/CalendarHeader.tsx:18-24 | Next then previous, and previous then next, restore the visible (year, month) |
| CalendarHeader.Press | src/components/Calendar/CalendarHeader.tsx:18-33 | The Today button invokes only onTodayClick; previous and next invoke only onDateChange, with a month one step back or forward |
| MonthView.GridStart | src/components/Calendar/MonthView.tsx:18-19 | The grid starts on the Sunday on or before the 1st of the visible month |
| MonthView.CalendarDays | src/components/Calendar/MonthView.tsx:22-24 | The grid always has exactly 42 days |
| MonthView.CalendarDaysFacts | src/components/Calendar/MonthView.tsx:18-24 | The grid starts at the grid start, at most 6 days before the 1st; every cell is a real day, one day after the previous cell |
| MonthView.EveryDayOfMonthOnce | src/components/Calendar/MonthView.tsx:18-24 | Every day of the visible month appears in the grid at index (weekday of the 1st) + day − 1, and at no other index |
| MonthView.CellOf | src/components/Calendar/MonthView.tsx:45-47 | A cell is current-month exactly when its (year, month) is the visible month's, selected exactly when it is the selected day, today exactly when it is now's day |
| MonthView.Cells | src/components/Calendar/MonthView.tsx:44-47 | Each cell carries its grid day; it is current-month exactly when its (year, month) is the visible month's, selected exactly when it is the selected day, today exactly when it is now's day |
| MonthView.AtMostOneSelected | src/components/Calendar/MonthView.tsx:46 | No two cells are both marked selected |
| MonthView.SelectionInMonthIsMarked | src/components/Calendar/MonthView.tsx:45-46 | A selected day inside the visible month is marked selected and current-month in its own cell |
| AppointmentForm.PhoneMatches | src/components/AppointmentForm.tsx:20 | The anchored pattern: a match has at least seven characters, and every character after the first is a digit, JavaScript whitespace, '-', '(' or ')' |
| AppointmentForm.MatchesRepeatIff | src/components/AppointmentForm.tsx:20 | The repeated class matches exactly the strings whose length is within the bounds and whose characters are all in the class |
| AppointmentForm.PhoneAcceptedIff | src/components/AppointmentForm.tsx:20 | A phone is accepted exactly when it is an optional leading '+' followed by 7..15 characters, each a digit, JavaScript whitespace, '-', '(' or ')' |
| AppointmentForm.AcceptedPhoneShape | src/components/AppointmentForm.tsx:20 | Every accepted phone is 7..16 characters long and holds '+' at most at position 0 |
| AppointmentForm.ShortPhoneRejected | src/components/AppointmentForm.tsx:20 | "123456" is rejected |
| AppointmentForm.LongPhoneRejected | src/components/AppointmentForm.tsx:20 | A 16-digit phone without "+" is rejected |
| AppointmentForm.PlaceholderPhoneAccepted | src/components/AppointmentForm.tsx:113 | The placeholder "+1 234 567 8901" is accepted by the pattern |
| AppointmentForm.NameAccepted | src/components/AppointmentForm.tsx:23 | z.string().min(2): the name is accepted exactly when it has a first and a second character, whatever they are |
| AppointmentForm.BlankNameAccepted | src/components/AppointmentForm.tsx:23 | The name rule counts characters without trimming: two blanks pass, one blank fails |
| AppointmentForm.Submit | src/components/AppointmentForm.tsx:52-58 | A Patient is submitted exactly when the name, email and phone rules all pass, and it carries the three field values unchanged |
| DentistSelector.SelectValue | src/components/DentistSelector.tsx:28 | The picker shows "all" exactly when the selection is null, empty or itself "all"; otherwise it shows the selected id |
| DentistSelector.HandleChange | src/components/DentistSelector.tsx:17-23 | Choosing "all" reports null; any other value is reported unchanged |
| DentistSelector.SelectRoundTrip | src/components/DentistSelector.tsx:17-28 | Decoding the shown value gives back the selection, for null and for every non-empty id other than "all" |
| DentistSelector.ChangeRoundTrip | src/components/DentistSelector.tsx:17-28 | Encoding what a non-empty choice reports shows that choice again |
| DentistSelector.Items | src/components/DentistSelector.tsx:34-41 | "All Dentists" first, then one entry per dentist in list order, with the dentist's id as value and "name - specialty" as text |
| DentistSelector.ChoosingItem | src/components/DentistSelector.tsx:17-41 | Choosing the first entry, or a dentist whose id is "all", reports null; choosing any other dentist reports its id |
| Api.DentistsRequest | src/services/api.ts:38 | fetchDentists sends a GET of the base URL followed by "/dentists", with no header and no body |
| Api.AvailabilityUrl | src/services/api.ts:57-61 | The URL is the base, "/availability?date=", the date, and then "&dentistId=" and the id only when the id is present and non-empty, without escaping |
| Api.AvailabilityRequest | src/services/api.ts:57-63 | fetchAvailability sends a GET with no header and no body to the base URL, "/availability?date=" and the date |
| Api.AvailabilityUrlRoundTrip | src/services/api.ts:57-61 | For a date without '&', the query reads back as the date and, only when an id was present, "dentistId=" and the id |
| Api.UntilAmpersandPrefix | src/services/api.ts:57-61 | A prefix free of '&' that ends the text or is followed by '&' is what reading up to the first '&' returns |
| Api.BookingRequest | src/services/api.ts:81-87 | bookAppointment sends a POST to the base URL followed by "/appointments", with Content-Type application/json and the appointment itself as the body |
| Api.FetchDentists | src/services/api.ts:36-50 | fetchDentists: the body on an ok (2xx) response, [] on any other status or a thrown failure |
| Api.FetchAvailability | src/services/api.ts:52-75 | fetchAvailability: the body on an ok response, otherwise the date and dentist id it was given with no slots |
| Api.BookAppointment | src/services/api.ts:77-99 | bookAppointment: a confirmation exactly on an ok response, the response body; null otherwise |
| Api.ErrorStatusLikeThrown | src/services/api.ts:36-99 | A non-2xx status yields the same result as a thrown failure in all three functions, so no error escapes |
| IndexPage.FindDentist | src/pages/Index.tsx:69-76 | No dentist exactly when no entry has the id; a dentist found is in the list and has that id |
| IndexPage.FindDentistIsFirst | src/pages/Index.tsx:71 | The dentist found is the entry at the first index holding the id |
| IndexPage.AvailabilityRequestReadsBack | src/pages/Index.tsx:58-59 | The availability request for the selected day reads back as that day's formatted date and the dentist id |
| IndexPage.BookingSession.constructor | src/pages/Index.tsx:19-33 | The page starts on now's month with now selected, no dentists, no selection, no slots, no time, both flags off, no response and no patient |
| IndexPage.BookingSession.BeginLoadDentists | src/pages/Index.tsx:36-47 | Starting the dentist load changes nothing, captures the current selection and sends GET /dentists |
| IndexPage.BookingSession.CompleteLoadDentists | src/pages/Index.tsx:38-43 | The list becomes the fetched list; the first dentist is selected only when the list is non-empty and the captured selection was empty; nothing else changes |
| IndexPage.BookingSession.BeginLoadAvailability | src/pages/Index.tsx:50-59 | Without a dentist nothing changes and nothing is sent; with one, loading is set, slots and time are cleared, and the request for the formatted selected date and that dentist goes out |
| IndexPage.BookingSession.CompleteLoadAvailability | src/pages/Index.tsx:59-62 | The slots become the response's slots (none on failure), loading is cleared and the time is left alone |
| IndexPage.BookingSession.ResolveSelectedDentist | src/pages/Index.tsx:69-76 | The resolved dentist is the first list entry with the selected id, or null when there is no id or no match |
| IndexPage.BookingSession.HandleDateChange | src/pages/Index.tsx:78-80 | Sets the visible month and nothing else |
| IndexPage.BookingSession.HandleDateSelect | src/pages/Index.tsx:82-84 | Sets the selected date to any day given and nothing else |
| IndexPage.BookingSession.HandleDentistChange | src/pages/Index.tsx:86-88 | Sets the selected dentist id (or null) and nothing else |
| IndexPage.BookingSession.HandleTimeSelect | src/pages/Index.tsx:90-92 | Sets the selected time, unchecked against the slots, and nothing else |
| IndexPage.BookingSession.PressHeaderButton | src/pages/Index.tsx:137-141 | Previous and next move the visible month one step and keep the selection; Today selects now and keeps the visible month |
| IndexPage.BookingSession.BeginAppointmentSubmit | src/pages/Index.tsx:94-108 | Without a dentist or a time nothing changes and nothing is sent; otherwise booking starts, the patient is recorded, the request is the dentist id, the formatted selected date, the time and the patient, and it is sent as bookAppointment's POST to /appointments |
| IndexPage.BookingSession.CompleteAppointmentSubmit | src/pages/Index.tsx:110-117 | Booking ends; an ok outcome stores the confirmation, any other outcome leaves the response as it was |
| IndexPage.BookingSession.HandleResetBooking | src/pages/Index.tsx:120-124 | Clears the time, the patient and the response, and nothing else |
| IndexPage.BookingSession.CurrentPanel | src/pages/Index.tsx:126-128 | The confirmation shows exactly when a response and a patient are held; otherwise the form shows exactly when a time is selected; otherwise the instructions |
| IndexPage.BookingSession.Grid | src/pages/Index.tsx:165-169 | The page's month grid has 42 cells |
| IndexPage.AllDentistsIsOverridden | src/pages/Index.tsx:36-47 | Choosing "All Dentists" re-runs the dentist load, which selects the first dentist again |
| IndexPage.ClickCell | src/components/Calendar/MonthView.tsx:58 | Clicking any grid cell selects that cell's day unchanged, keeps the visible month, and that cell is then marked selected |
| IndexPage.FailedBookingShowsForm | src/pages/Index.tsx:110-128 | A failed booking ends with booking off, no response, the time and patient still set, and the form shown |
| IndexPage.BookSucceeds | src/pages/Index.tsx:94-118 | A submission with a dentist and a time POSTs the appointment for that dentist, the formatted selected date and the patient; an ok response then leaves booking off, the confirmation and the patient stored, and the confirmation shown |
| IndexPage.BookThenReset | src/pages/Index.tsx:94-128 | After a successful booking, closing the confirmation shows the instructions with the time cleared and the date, dentist, dentist list and slots unchanged |
| IndexPage.ReloadSlotsForDate | src/pages/Index.tsx:50-66 | Selecting a date with a dentist chosen ends, once the response arrives, with the slots from the request for that date, loading off and the time cleared |

## Left out

- `formatDisplayDate` and the other "MMMM d, yyyy" or "MMMM yyyy" headings: they are English display text produced by date-fns, and nothing reads them back.
- `isValidDateString`: the grammar it accepts is that of date-fns `parseISO`, which is not part of this model.
- Email validation: the library's email pattern is not part of this model, so `Submit` takes its verdict as an input.
- The form library's field state and error messages: only the validation rules and the submitted record are modelled.
- The time of day, time zones and the clock inside JavaScript `Date`: dates are (year, month, day) and "now" is a parameter.
- Day-of-month clamping by `addMonths`/`subMonths` (31 January to 28 February): the visible month is kept as (year, month), the only part the page reads.
- Dates.FormatDisplayTime: requires an "H:MM" or "HH:MM" time with hour 0..23; the text the source produces for malformed times is not modelled.
- Dates.FormatDateRoundTrip: stated for years 1..9999 only; other years print with more digits or as era years, and `FormatDateCharacters` covers them.
- The real `fetch`, JSON encoding and decoding, `toast` notifications and `console` output: the HTTP outcome is an input value and the request body is the record itself.
- React's scheduling of effects and the interleaving of asynchronous completions: the environment calls Begin and Complete in any order.
- `AppointmentForm.NameAccepted`: counts Dafny characters (code points) where JavaScript counts UTF-16 units; the two agree outside the astral planes.
- Presentation-only components (time slot list, confirmation card, layout, header, footer, notification bar, about page) and the doctors' appointments page: they only render values or fetch with a timezone-dependent display.
