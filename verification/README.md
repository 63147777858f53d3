# Snooker-table booking engine: a Dafny model

This project models the availability and admission engine of a single-shop snooker-table
booking application. It covers five parts.

- **Reading and writing times of day.** `timeToMinutes` reads an `HH:MM` string as minutes
  since midnight; a malformed field gives JavaScript's `NaN`, modelled as `None`. The slot
  labels are written as zero-padded `HH:MM`, with the hour taken modulo 24.
- **The slot grid.** Half-hour slot starts run from opening time up to thirty minutes before
  closing. A close at or before the open means the shop closes after midnight. The booking
  form drops past slots when the chosen date is today. It also drops slots an existing
  booking covers, and it clears a selected start that is no longer offered.
- **The table list (`getTables`).** Today's bookings are grouped per table. Pending bookings
  more than the late threshold past their start are swept: each yields a `no_show` write and
  leaves its table's list. Each table then gets its free slots after now (a preview of four),
  the end of the confirmed booking in progress, and its hourly price. An `occupied` table
  with no booking in progress is released with an `available` write. The status writes are
  returned as data rather than fired at the store. A second read of the store after those
  writes land yields the same list and no further writes.
- **Admission.** `createBooking` strips dashes from the phone and allows at most five
  pending or confirmed bookings per phone and date. It rejects a request whose start and
  end, compared as raw minutes, overlap those of a pending or confirmed booking of the same
  table and date. This misses overlaps past midnight (see Findings), so the model also gives
  the check on windows whose end is pushed past midnight. The booking form's `handleSubmit`
  checks the name, the phone digits and the start, computes the end time and the price, and
  builds the request.
- **Reports.** The model covers revenue per date, usage per table sorted by revenue, and
  bookings per start hour. It also covers the summary counts of one day and the counts the
  dashboard shows.

Store replies, the clock and the fetched rows are inputs of the model.

## Modelling notes

In three places the design text and the code disagree. The model follows the code in each
of them, and in two of them it also gives the design's rule:

- **Malformed times.** A malformed time is not an error. It reads as `NaN`, and every
  comparison with it is false.
- **Overlap check in `createBooking`.** The code compares raw minutes. The design says windows
  are compared after the end is pushed past midnight. `Admission.Admit`,
  `Admission.CreateBooking` and `Admission.AnyOverlap` take the rule as a parameter:
  `RawMinutes` is the code as written and `Normalised` is the corrected rule. The store
  invariant `Admission.AdmitKeepsNoDoubleBooking` holds for the corrected rule only (see
  Findings).
- **Usage report lengths.** The code takes end minus start as written. The design uses the
  normalised length. `Reports.TableUsageStats` takes the rule as a parameter.

Usage hours are kept as whole minutes; the report's hours are those minutes over 60.

## Model

| member | source | states |
|---|---|---|
| TimeOfDay.Pad2 | src/services/bookingService.ts:119 | `padStart(2, '0')` of a value below 100 gives two digits that read back as that value |
| TimeOfDay.ParseLabel | src/services/bookingService.ts:266-269 | a label of two two-digit fields reads as hours * 60 + minutes |
| TimeOfDay.MinuteSplit | src/services/bookingService.ts:117-118 | the label's hour `floor(t/60) mod 24` and minute `t mod 60` together are `t` modulo one day |
| TimeOfDay.FormatThenParse | src/services/bookingService.ts:117-119 | the label of any grid minute reads back as that minute modulo 1440, even past midnight |
| TimeOfDay.ParseThenFormat | src/services/bookingService.ts:266-269 | a well-formed `HH:MM` reads as `HH*60+MM`, and formatting that minute gives back the same string |
| SlotGrid.GridFromShape | src/pages/customer/BookingPage.tsx:56-71 | the loop produces `(end-30-open)/30 + 1` points (or none); point i is `open + 30*i`, and none is past `end - 30` |
| SlotGrid.GridProperties | src/pages/customer/BookingPage.tsx:52-70 | grid points lie between open and the overnight-adjusted close minus 30, 30 apart, strictly ascending; a minute is a point iff it is in that range on the 30-minute lattice |
| SlotGrid.OvernightGridExample | src/pages/customer/BookingPage.tsx:51-56 | opening 10:00 and closing 02:00 yields 32 points, from minute 600 to minute 1530 |
| SlotGrid.OvernightLabelsExample | src/pages/customer/BookingPage.tsx:57-59 | the first and last of those points are labelled "10:00" and "01:30" |
| SlotGrid.After | src/pages/customer/BookingPage.tsx:62-64 | the kept points are exactly the grid points strictly after now, in grid order |
| SlotGrid.Labels | src/pages/customer/BookingPage.tsx:57-59 | one label per point, each the point's `HH:MM` |
| SlotGrid.GenerateTimeSlots | src/pages/customer/BookingPage.tsx:40-73 | the slots are the labels of the grid, restricted to points after now when the date is today |
| SlotGrid.GridLoop | src/pages/customer/BookingPage.tsx:56-71 | the `while` loop emits exactly the labels of the grid points it keeps, in order |
| SlotGrid.FreeSlots | src/pages/customer/BookingPage.tsx:90-109 | a slot stays iff no existing booking covers it; the order is kept |
| SlotGrid.LabelTaken | src/pages/customer/BookingPage.tsx:90-106 | a slot label is taken iff some booking's window, end pushed past midnight, contains its minute of day |
| SlotGrid.KeptSelection | src/pages/customer/BookingPage.tsx:113-116 | the selection is kept exactly when it is offered, and is otherwise cleared |
| SlotGrid.LoadFormSlots | src/pages/customer/BookingPage.tsx:84-116 | offered labels are exactly the grid labels (after now, if today) that no booking takes, in grid order; the selection survives iff it is offered |
| Reconcile.ForTable | src/services/bookingService.ts:72-76 | a table's list holds exactly the fetched bookings of that table |
| Reconcile.TableFree | src/services/bookingService.ts:116-138 | the free points are exactly the grid points after now that no remaining booking covers, in grid order |
| Reconcile.Ongoing | src/services/bookingService.ts:144-151 | a booking is found iff some confirmed booking covers now; the one found is the first such booking in the list |
| Reconcile.Views | src/services/bookingService.ts:99-170 | one view per table row |
| Reconcile.GroupByTable | src/services/bookingService.ts:72-76 | the `reduce` maps every table id to its bookings in fetch order |
| Reconcile.SweepNoShows | src/services/bookingService.ts:84-97 | after the loop every table's list is its bookings with the late pending ones removed, and the writes are one `no_show` per late booking, in fetch order |
| Reconcile.TableSlotLoop | src/services/bookingService.ts:115-138 | the slot loop emits the labels of the free grid points |
| Reconcile.TableSlots | src/services/bookingService.ts:103-138 | today's slots of a table are the labels of its free grid points |
| Reconcile.ViewTable | src/services/bookingService.ts:99-169 | one table's view and release write equal the specification of the `map` callback |
| Reconcile.ViewTables | src/services/bookingService.ts:99-170 | the `map` pass yields the specified views and the release writes in table order |
| Reconcile.GetTables | src/services/bookingService.ts:46-171 | `getTables` returns the specified views and writes, the no-show writes first |
| Reconcile.UnsweptMembers | src/services/bookingService.ts:93-95 | a booking survives the sweep iff it is in the list and its key was not swept |
| Reconcile.SweptBookings | src/services/bookingService.ts:84-97 | every remaining booking belongs to the table and is not late; no late booking remains; with unique ids every non-late booking of the table remains |
| Reconcile.NoShowWritesMembers | src/services/bookingService.ts:85-91 | the sweep writes only `no_show`, and writes it for an id iff some fetched booking with that id is late |
| Reconcile.ReleaseWritesMembers | src/services/bookingService.ts:157-162 | the release writes only `available`, and writes it for a table iff that table is released |
| Reconcile.GridAscending | src/services/bookingService.ts:111-138 | the table-list grid is strictly ascending |
| Reconcile.PreviewProperties | src/services/bookingService.ts:116-167 | the preview is the labels of the first at most four free points, which ascend; the free points are exactly the grid points after now that are not covered |
| Reconcile.OccupancyIndicator | src/services/bookingService.ts:142-155 | `occupiedUntil` is present iff a remaining confirmed booking covers now, and it is then the end time of the first such booking in the table's list |
| Reconcile.ViewStatusAndPrice | src/services/bookingService.ts:157-168 | an occupied table with no covering booking is shown available; any other table keeps its status; a table shown occupied has a covering booking; the price is the rate of its type, 0 if unset |
| Reconcile.NoSettingsTables | src/services/bookingService.ts:62 | without settings each table keeps its status, at price 0, with no slots and no indicator, and nothing is written |
| Reconcile.ThresholdDefault | src/services/bookingService.ts:82 | the late threshold is the setting when it is present and non-zero, otherwise 10 |
| Reconcile.NoShowExample | src/services/bookingService.ts:84-97 | a pending 09:00 booking with threshold 10 is swept at 09:11 and kept at 09:09 |
| Reconcile.SingleSweep | src/services/bookingService.ts:86-96 | a single booking is written `no_show` and removed exactly when it is late |
| Reconcile.PreviewStartsAtEarliest | src/services/bookingService.ts:116-167 | the preview starts at the earliest free grid point after now |
| Reconcile.PreviewLabelsAfterNow | src/services/bookingService.ts:116-122 | for a shop closing before midnight, every previewed label reads as a minute after now |
| Reconcile.OngoingBookingExample | src/services/bookingService.ts:99-169 | a confirmed 14:00-15:00 booking seen at 14:30 shows `occupiedUntil` 15:00 and keeps the table occupied; the first slot is 15:00 and neither 14:00 nor 14:30 is offered |
| SweepIdempotence.TodayQuery | src/services/bookingService.ts:65-70 | the query fetches exactly today's pending, confirmed and completed bookings |
| SweepIdempotence.ApplyNoShows | src/services/bookingService.ts:91 | applying `no_show` writes marks exactly the written ids |
| SweepIdempotence.ApplyReleases | src/services/bookingService.ts:160 | applying `available` writes releases exactly the written tables |
| SweepIdempotence.QueryAfterMark | src/services/bookingService.ts:65-70 | re-running the query after marking ids `no_show` returns the earlier result without those ids |
| SweepIdempotence.NoLateNoWrites | src/services/bookingService.ts:86-89 | with no late booking the sweep writes nothing |
| SweepIdempotence.NoReleasedNoWrites | src/services/bookingService.ts:158 | with no table to release nothing is written |
| SweepIdempotence.SecondRead | src/services/bookingService.ts:84-97 | the second read holds no late booking and leaves every table's remaining list unchanged |
| SweepIdempotence.ReleasedTables | src/services/bookingService.ts:157-162 | after the releases land exactly the released tables are available, the rest unchanged |
| SweepIdempotence.WritesLand | src/services/bookingService.ts:84-162 | the returned writes, applied to the store, mark every late fetched booking `no_show` and every released table `available`, and nothing else |
| SweepIdempotence.SweepIdempotent | src/services/bookingService.ts:46-171 | once the writes land, a second `getTables` at the same instant writes nothing and returns the same views |
| Admission.StripDashes | src/services/bookingService.ts:203 | the result has no dash and keeps every other character in order, with its count |
| Admission.ForPhone | src/services/bookingService.ts:206-211 | the count sees exactly the pending or confirmed bookings with that phone and date |
| Admission.ForSlot | src/services/bookingService.ts:220-225 | the check sees exactly the pending or confirmed bookings of that table and date |
| Admission.OverlapProperties | src/services/bookingService.ts:241 | overlap is symmetric, and windows that only touch do not overlap |
| Admission.AnyOverlap | src/services/bookingService.ts:236-244 | the loop finds a clash iff some fetched booking clashes with the new one under the rule; with `RawMinutes` that is `newStart < existEnd && newEnd > existStart` on the minutes as read |
| Admission.CreateBooking | src/services/bookingService.ts:201-263 | `createBooking` under either rule returns the specified outcome, with the checks in source order |
| Admission.AdmitOutcome | src/services/bookingService.ts:201-263 | under either rule: success iff under the rate limit (or the count failed), the check read succeeded, nothing clashes and the insert succeeded; the row is the request with the phone dash-free; a conflict is reported iff it is the first check to fail |
| Admission.AdmittedStartIsFree | src/services/bookingService.ts:236-244 | under the corrected rule, an admitted booking's start is not covered by any held booking of that table and date |
| Admission.AdmitKeepsNoDoubleBooking | src/services/bookingService.ts:219-244 | a store with no overlapping held bookings per table and date keeps that property after any call |
| Admission.AdmitKeepsRateLimit | src/services/bookingService.ts:205-217 | when the count succeeds no phone passes five held bookings on a date |
| Admission.CountFailureSkipsLimit | src/services/bookingService.ts:213-215 | a failed count never yields the rate-limit rejection |
| Admission.RateLimitExample | src/services/bookingService.ts:205-217 | five held bookings reject a sixth that day but not on another date |
| Admission.StripDashesIdempotent | src/services/bookingService.ts:203-209 | stripping twice is stripping once, so a stored phone matches its own lookup |
| Admission.RawCheckAdmitsDoubleBooking | src/services/bookingService.ts:236-244 | the raw-minute check admits 23:30-00:30 next to a held 23:00-01:00 that covers its start, making an overlapping pair; the normalised check rejects it |
| Admission.Trim | src/pages/customer/BookingPage.tsx:129 | the trimmed name is the slice of the name between its leading and trailing ECMAScript white space and line terminators; it has no such character at either end and is empty iff the name is all of them |
| Admission.DigitsOf | src/pages/customer/BookingPage.tsx:134 | the result is the digits of the phone, in order, each with its count |
| Admission.EndTime | src/pages/customer/BookingPage.tsx:147-153 | the end label reads as start plus duration hours, modulo one day |
| Admission.SubmitChecks | src/pages/customer/BookingPage.tsx:128-143 | each check rejects iff the earlier ones passed and it fails; only a form passing all three reaches `createBooking` |
| Admission.SubmitRequest | src/pages/customer/BookingPage.tsx:161-171 | the request is pending, for the routed table or "1", priced rate times hours, with the form's fields and the computed end |
| Admission.WindowSpansDuration | src/pages/customer/BookingPage.tsx:147-153 | for 1 to 23 hours the booked window, normalised, is exactly the duration long |
| Admission.EndTimeExample | src/pages/customer/BookingPage.tsx:148-153 | a 23:00 start for two hours ends at "01:00" |
| TableDetail.TableById | src/services/bookingService.ts:378-396 | a table is returned iff exactly one row has the id; the price is the rate of its type, 0 without settings or rate |
| TableDetail.DetailAgreesWithList | src/services/bookingService.ts:392-395 | for a unique id the detail's row and price agree with the table list's |
| Grouping.KeysInOrder | src/services/reportService.ts:41-58 | the grouped keys are distinct |
| Grouping.KeysMembers | src/services/reportService.ts:41-58 | every row's key is a group key, and every group key is some row's |
| Grouping.BucketsPartition | src/services/reportService.ts:41-58 | over distinct keys covering every row, the bucket sums add up to the sum over all rows |
| Grouping.GroupsPartition | src/services/reportService.ts:41-58 | the groups account for every row exactly once, by weight and by count |
| Grouping.KeysFollowRows | src/services/reportService.ts:33-58 | rows ordered by key give groups in that order |
| Reports.RevenueStats | src/services/reportService.ts:23-59 | the report is the per-date revenue entries in first-appearance order |
| Reports.GroupRevenue | src/services/reportService.ts:41-56 | the loop's record holds an entry for exactly the dates seen, each the revenue and count of that date |
| Reports.RevenueDates | src/services/reportService.ts:58 | the entries follow the dates in first-appearance order |
| Reports.RevenueCoversRows | src/services/reportService.ts:41-58 | every fetched row's date has an entry |
| Reports.RevenueOnlyRows | src/services/reportService.ts:41-58 | every entry's date is some row's date |
| Reports.RevenueEntries | src/services/reportService.ts:43-56 | dates are distinct; each entry's revenue and count are those of its date's rows |
| Reports.RevenueConserved | src/services/reportService.ts:41-58 | the counts add up to the number of rows and the revenues to the total price |
| Reports.RevenueDatesAscend | src/services/reportService.ts:33-58 | rows ordered by date give entries in strictly ascending date order |
| Reports.InsertByRevenue | src/services/reportService.ts:116 | inserting into a list ordered by revenue, descending, keeps it ordered and adds only the new entry |
| Reports.InsertPermutes | src/services/reportService.ts:116 | insertion adds exactly one copy of the entry |
| Reports.SortByRevenue | src/services/reportService.ts:116 | the sorted list is ordered by revenue, descending, and is a permutation of the input |
| Reports.TableUsageStats | src/services/reportService.ts:62-117 | the report is the per-table usage entries sorted by revenue |
| Reports.GroupUsage | src/services/reportService.ts:87-114 | the loop's record holds the tables in first-appearance order, each with its specified usage |
| Reports.MinutesForMeaning | src/services/reportService.ts:106-111 | a table's minutes are NaN iff one of its bookings has an unreadable time; otherwise they are the sum of its bookings' minutes |
| Reports.TableUsageCoversRows | src/services/reportService.ts:87-114 | every fetched row's table has an entry |
| Reports.TableUsageOnlyRows | src/services/reportService.ts:87-114 | every entry's table is some row's table |
| Reports.TableUsageEntries | src/services/reportService.ts:87-114 | table ids are distinct, and each entry is the usage of its table's rows |
| Reports.TableUsageConserved | src/services/reportService.ts:87-114 | the counts add up to the number of rows and the revenues to the total price |
| Reports.OvernightUsage | src/services/reportService.ts:107-111 | a 23:00-01:00 booking counts -1320 minutes as written, and 120 when its end is normalised |
| Reports.OvernightAwareMinutes | src/services/reportService.ts:107-111 | with the normalised end a booking adds between 1 and 1440 minutes, exactly 60 per hour booked |
| Reports.LeadingDigits | src/services/reportService.ts:143 | the digits `parseInt` reads are the longest all-digit prefix |
| Reports.TopHour | src/services/reportService.ts:137-145 | the largest hour key is at least 23 and at least every start hour seen |
| Reports.PeakHours | src/services/reportService.ts:120-151 | the report is the specified hour entries |
| Reports.CountStartHours | src/services/reportService.ts:137-145 | the counting loops leave every hour of the day and every start hour seen, each with its count, plus the NaN count and the largest key |
| Reports.DayHours | src/services/reportService.ts:137-140 | the first loop sets exactly hours 0 to 23, each to 0 |
| Reports.PeakCountsSum | src/services/reportService.ts:142-150 | the entry counts add up to the number of rows |
| Reports.PeakHoursOfDay | src/services/reportService.ts:137-150 | the first 24 entries are hours 0 to 23 with their counts; when every start hour is in the day there are exactly 24 |
| Reports.NoNaNHours | src/services/reportService.ts:143-144 | when every start parses no NaN entry is counted |
| Reports.StartHourOfLabel | src/services/reportService.ts:143 | a well-formed start's hour key is its minute of day over 60, below 24 |
| Reports.SummaryStatsOf | src/services/reportService.ts:165-187 | the loop returns the specified summary of the day's rows |
| Reports.SummaryBuckets | src/services/reportService.ts:165-187 | the total is the row count; the confirmed, pending and cancelled counts are non-negative and add up to it; with no confirmed or completed row the revenue is 0 |
| Reports.DashboardBookingCounts | src/services/bookingService.ts:419-422 | waiting, arrived and no-show plus the completed bookings make up the total |
| Reports.DashboardTableCounts | src/services/bookingService.ts:424-449 | the occupied figure counts the occupied and the maintenance tables; available is between 0 and the total |
| Reports.SummaryMatchesDashboard | src/services/reportService.ts:173-185 | the summary's pending and cancelled counts equal the dashboard's waiting and no-show; confirmed is arrived plus completed |

## Left out

- Store I/O. Each query result is an input of the model: the fetched rows, the settings
  row, or a failure flag with the new id in `Admission.StoreReplies`. A failed
  `getTables` table query, which returns an empty list, is not modelled. A failed bookings
  read is the empty input.
- The status writes are returned as data. Their fire-and-forget promises and their possible
  failure are not modelled.
- The clock is an input. The two clock reads in `getTables` are taken as the same minute,
  and `today` is a parameter.
- Concurrency is not modelled. Two `createBooking` calls racing between the check and the
  insert can still double-book. `Admission.AdmitKeepsNoDoubleBooking` is about one call at
  a time.
- The recent-bookings list of `getDashboardStats` is not modelled, because it is a store
  query ordered by creation time.
- Floating-point hours are not modelled. `Reports.TableUsageStats` keeps whole minutes; the
  source divides them by 60.
- `Number(field)` and `parseInt`: the model reads only fields of ASCII digits. A sign,
  surrounding whitespace, a decimal point or an exponent is read as malformed.
  `parseInt`'s leading whitespace and sign are not modelled.
- Reports.TableUsageStats: assumes table ids are not array-index-like strings. `Object.values`
  lists such keys ascending before the others; the model always uses first-appearance order.
- Reports.PeakHours: assumes start hours below 2^32 - 1, the range `Object.entries` lists as
  ascending integer keys.
- Reports.SortByRevenue: stability of the sort for equal revenues is not stated.
- `total_price || 0`: a missing price is not representable; `totalPrice` is always an integer.
- Status strings outside the five known statuses are not representable, so the summary's
  three counts always add up to the total.
- TableDetail.TableById: a query error and a missing row both give `None`. The settings row
  is an `Option` input, as in the table list.
- The slip upload, alerts, modals and the rest of the page are not modelled. The form's
  `table.pricePerHour` is an input.
- Admission.AdmittedStartIsFree: holds for the corrected rule only. Under the raw rule of the
  code an admitted start can be covered, as `Admission.RawCheckAdmitsDoubleBooking` shows.
- Admission.Trim: the name's length counts Unicode code points. JavaScript's `.length`
  counts UTF-16 code units, so a name of one character outside the Basic Multilingual Plane
  passes the two-character check in the source and fails it here.

## Findings

| source | as written | input that shows it | evidently intended | confidence | as-written member | corrected member |
|---|---|---|---|---|---|---|
| src/services/bookingService.ts:236-244 | the overlap test compares raw minutes, so an end past midnight reads as early in the day | a pending 23:00-01:00 booking, then a 23:30-00:30 request (or a 22:00 start for two hours, 22:00-00:00) for the same table and date: it is admitted and the two overlap | push an end at or before the start a day ahead before comparing, as `getTables` does at line 129 | medium, not executed | Admission.RawCheckAdmitsDoubleBooking | Admission.AdmitKeepsNoDoubleBooking |
| src/services/reportService.ts:107-111 | booking hours are end minus start, negative for a booking past midnight | a 23:00-01:00 booking counts -22 hours | push the end a day ahead when it is not after the start, giving 2 hours | medium, not executed | Reports.OvernightUsage | Reports.OvernightAwareMinutes |
