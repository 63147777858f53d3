/** The report roll-ups of src/services/reportService.ts and the dashboard counts of
    `getDashboardStats` (src/services/bookingService.ts). Each report is given the rows its
    query returned; the loops that fold them into per-date, per-table, per-hour and per-status
    records are methods proved against specification functions. */
module Reports {
  import opened Types
  import opened TimeOfDay
  import opened Grouping

  function DateOf(b: Booking): string
  {
    b.date
  }

  function PriceOf(b: Booking): int
  {
    b.totalPrice
  }

  /** Lexicographic order on date strings, which is date order on `YYYY-MM-DD`. */
  predicate DateLe(a: string, b: string)
    decreases |a|
  {
    a == [] || (b != [] && (a[0] < b[0] || (a[0] == b[0] && DateLe(a[1..], b[1..]))))
  }

  // ---------------------------------------------------------------------------------------
  // getRevenueStats

  datatype RevenueStat = RevenueStat(date: string, revenue: int, bookingCount: int)

  /** The entry of one date: the sum of its prices and the number of its rows. */
  function RevenueOn(rows: seq<Booking>, d: string): RevenueStat
  {
    RevenueStat(d, SumWhere(rows, DateOf, d, PriceOf), SumWhere(rows, DateOf, d, One))
  }

  /** The entries of the dates `ds`, in that order. */
  function RevenueFor(rows: seq<Booking>, ds: seq<string>): (r: seq<RevenueStat>)
    ensures |r| == |ds|
    ensures forall i :: 0 <= i < |ds| ==> r[i] == RevenueOn(rows, ds[i])
  {
    if ds == [] then [] else RevenueFor(rows, ds[..|ds| - 1]) + [RevenueOn(rows, ds[|ds| - 1])]
  }

  /** What `getRevenueStats` returns for the rows its query fetched: one entry per distinct
      date, in the order the dates first appear. */
  function RevenueByDate(rows: seq<Booking>): seq<RevenueStat>
  {
    RevenueFor(rows, KeysInOrder(rows, DateOf))
  }

  /** The grouping loop of `getRevenueStats`: a record per date created on first sight and
      updated in place, then listed by `Object.values`. */
  method RevenueStats(rows: seq<Booking>) returns (stats: seq<RevenueStat>)
    ensures stats == RevenueByDate(rows)
  {
    var dates, grouped := GroupRevenue(rows);
    stats := [];
    for j := 0 to |dates|
      invariant stats == RevenueFor(rows, dates[..j])
    {
      assert dates[..j + 1][..j] == dates[..j];
      stats := stats + [grouped[dates[j]]];
    }
    assert dates[..|dates|] == dates;
  }

  /** The record-building loop: one record per date, keyed by date. */
  method GroupRevenue(rows: seq<Booking>) returns (dates: seq<string>, grouped: map<string, RevenueStat>)
    ensures dates == KeysInOrder(rows, DateOf)
    ensures forall d :: d in grouped <==> d in dates
    ensures forall d :: d in grouped ==> grouped[d] == RevenueOn(rows, d)
  {
    dates := [];
    grouped := map[];
    for i := 0 to |rows|
      invariant dates == KeysInOrder(rows[..i], DateOf)
      invariant forall d :: d in grouped <==> d in dates
      invariant forall d :: d in grouped ==> grouped[d] == RevenueOn(rows[..i], d)
    {
      var b := rows[i];
      assert rows[..i + 1] == rows[..i] + [b];
      RevenueStep(rows[..i], b);
      if b.date !in grouped {
        grouped := grouped[b.date := RevenueStat(b.date, 0, 0)];
        dates := dates + [b.date];
      }
      var g := grouped[b.date];
      grouped := grouped[b.date := g.(revenue := g.revenue + b.totalPrice, bookingCount := g.bookingCount + 1)];
    }
    assert rows[..|rows|] == rows;
  }

  /** How one more row changes the date list and each date's entry. */
  lemma RevenueStep(rows: seq<Booking>, b: Booking)
    ensures KeysInOrder(rows + [b], DateOf)
         == if b.date in KeysInOrder(rows, DateOf) then KeysInOrder(rows, DateOf) else KeysInOrder(rows, DateOf) + [b.date]
    ensures forall d :: d != b.date ==> RevenueOn(rows + [b], d) == RevenueOn(rows, d)
    ensures var e := RevenueOn(rows, b.date);
      RevenueOn(rows + [b], b.date)
        == if b.date in KeysInOrder(rows, DateOf) then e.(revenue := e.revenue + b.totalPrice, bookingCount := e.bookingCount + 1)
           else RevenueStat(b.date, b.totalPrice, 1)
  {
    KeysSnoc(rows, b, DateOf);
    SumWhereSnoc(rows, b, DateOf, PriceOf);
    SumWhereSnoc(rows, b, DateOf, One);
    if b.date !in KeysInOrder(rows, DateOf) {
      AbsentKeySumsZero(rows, DateOf, b.date, PriceOf);
      AbsentKeySumsZero(rows, DateOf, b.date, One);
    }
  }

  function TotalRevenue(r: seq<RevenueStat>): int
  {
    if r == [] then 0 else TotalRevenue(r[..|r| - 1]) + r[|r| - 1].revenue
  }

  function TotalBookings(r: seq<RevenueStat>): int
  {
    if r == [] then 0 else TotalBookings(r[..|r| - 1]) + r[|r| - 1].bookingCount
  }

  lemma {:induction false} RevenueForSums(rows: seq<Booking>, ds: seq<string>)
    ensures TotalRevenue(RevenueFor(rows, ds)) == SumByKeys(rows, DateOf, ds, PriceOf)
    ensures TotalBookings(RevenueFor(rows, ds)) == SumByKeys(rows, DateOf, ds, One)
  {
    if ds != [] {
      RevenueForSums(rows, ds[..|ds| - 1]);
      var r := RevenueFor(rows, ds);
      assert r[..|r| - 1] == RevenueFor(rows, ds[..|ds| - 1]);
    }
  }

  /** The entries carry the dates in order of first appearance. */
  lemma RevenueDates(rows: seq<Booking>)
    ensures var r, ds := RevenueByDate(rows), KeysInOrder(rows, DateOf);
      |r| == |ds| && forall i :: 0 <= i < |r| ==> r[i].date == ds[i]
  {
  }

  /** Every date that has rows has an entry. */
  lemma RevenueCoversRows(rows: seq<Booking>)
    ensures var r := RevenueByDate(rows);
      forall j :: 0 <= j < |rows| ==> exists i :: 0 <= i < |r| && r[i].date == rows[j].date
  {
    var ds := KeysInOrder(rows, DateOf);
    var r := RevenueByDate(rows);
    RevenueDates(rows);
    KeysMembers(rows, DateOf);
    forall j | 0 <= j < |rows|
      ensures exists i :: 0 <= i < |r| && r[i].date == rows[j].date
    {
      assert DateOf(rows[j]) in ds;
      var i :| 0 <= i < |ds| && ds[i] == rows[j].date;
      assert r[i].date == rows[j].date;
    }
  }

  /** Every entry is of a date that has rows. */
  lemma RevenueOnlyRows(rows: seq<Booking>)
    ensures var r := RevenueByDate(rows);
      forall i :: 0 <= i < |r| ==> exists j :: 0 <= j < |rows| && rows[j].date == r[i].date
  {
    var ds := KeysInOrder(rows, DateOf);
    var r := RevenueByDate(rows);
    RevenueDates(rows);
    KeysMembers(rows, DateOf);
    forall i | 0 <= i < |r|
      ensures exists j :: 0 <= j < |rows| && rows[j].date == r[i].date
    {
      assert ds[i] in ds;
      var j :| 0 <= j < |rows| && DateOf(rows[j]) == ds[i];
    }
  }

  /** Each date has one entry, holding the sum of that date's prices and its number of rows. */
  lemma RevenueEntries(rows: seq<Booking>)
    ensures var r := RevenueByDate(rows);
      && (forall i, j :: 0 <= i < j < |r| ==> r[i].date != r[j].date)
      && (forall i :: 0 <= i < |r| ==> r[i] == RevenueStat(r[i].date, SumWhere(rows, DateOf, r[i].date, PriceOf), SumWhere(rows, DateOf, r[i].date, One)))
  {
    RevenueDates(rows);
  }

  /** No row is lost or counted twice: the entry counts add up to the number of rows and the
      revenues to the sum of all prices. */
  lemma RevenueConserved(rows: seq<Booking>)
    ensures TotalBookings(RevenueByDate(rows)) == |rows|
    ensures TotalRevenue(RevenueByDate(rows)) == Total(rows, PriceOf)
  {
    RevenueForSums(rows, KeysInOrder(rows, DateOf));
    GroupsPartition(rows, DateOf, PriceOf);
  }

  /** The query orders the rows by date, so the entries come out in ascending date order. */
  lemma RevenueDatesAscend(rows: seq<Booking>)
    requires forall i, j :: 0 <= i < j < |rows| ==> DateLe(rows[i].date, rows[j].date)
    ensures var r := RevenueByDate(rows);
      forall i, j :: 0 <= i < j < |r| ==> DateLe(r[i].date, r[j].date) && r[i].date != r[j].date
  {
    assert forall i, j :: 0 <= i < j < |rows| ==> DateLe(DateOf(rows[i]), DateOf(rows[j]));
    KeysFollowRows(rows, DateOf, DateLe);
  }

  // ---------------------------------------------------------------------------------------
  // getTableUsageStats

  /** A fetched row of the usage query: the booking and the name of its joined table row. */
  datatype UsageRow = UsageRow(booking: Booking, tableName: Option<string>)

  /** Per table: the name, the booked minutes (none once a malformed time made the sum NaN),
      the revenue and the number of bookings. The report's hours are the minutes over 60. */
  datatype TableUsage = TableUsage(tableId: string, tableName: string, totalMinutes: Option<int>, totalRevenue: int, bookingCount: int)

  /** How a booking's length is measured: end minus start as written, or with the end pushed
      past midnight when it is not after the start. */
  datatype DurationRule = RawDifference | OvernightAware

  function TableOf(u: UsageRow): string
  {
    u.booking.tableId
  }

  function UsagePrice(u: UsageRow): int
  {
    u.booking.totalPrice
  }

  /** The joined name, or "Unknown" when the join is empty or the name is empty. */
  function DisplayName(u: UsageRow): string
  {
    if u.tableName.None? || u.tableName.value == "" then "Unknown" else u.tableName.value
  }

  /** The minutes one booking adds; none (NaN) when either time is malformed. */
  function BookedMinutes(b: Booking, rule: DurationRule): Option<int>
  {
    match (TimeToMinutes(b.startTime), TimeToMinutes(b.endTime))
    case (Some(s), Some(e)) => Some(if rule == RawDifference then e - s else NormalizeEnd(s, e) - s)
    case _ => None
  }

  /** NaN-propagating addition. */
  function AddMinutes(a: Option<int>, b: Option<int>): Option<int>
  {
    if a.Some? && b.Some? then Some(a.value + b.value) else None
  }

  /** The minutes of one table's bookings, added in row order. */
  function MinutesFor(rows: seq<UsageRow>, tid: string, rule: DurationRule): Option<int>
  {
    if rows == [] then Some(0)
    else
      var last := rows[|rows| - 1];
      AddMinutes(MinutesFor(rows[..|rows| - 1], tid, rule), if last.booking.tableId == tid then BookedMinutes(last.booking, rule) else Some(0))
  }

  /** The name of the first row of a table: the record is created with it and not renamed. */
  function NameFor(rows: seq<UsageRow>, tid: string): string
  {
    if rows == [] then "Unknown"
    else
      var init, last := rows[..|rows| - 1], rows[|rows| - 1];
      if tid in KeysInOrder(init, TableOf) || TableOf(last) != tid then NameFor(init, tid) else DisplayName(last)
  }

  function UsageOf(rows: seq<UsageRow>, tid: string, rule: DurationRule): TableUsage
  {
    TableUsage(tid, NameFor(rows, tid), MinutesFor(rows, tid, rule), SumWhere(rows, TableOf, tid, UsagePrice), SumWhere(rows, TableOf, tid, One))
  }

  function UsageFor(rows: seq<UsageRow>, ts: seq<string>, rule: DurationRule): (r: seq<TableUsage>)
    ensures |r| == |ts|
    ensures forall i :: 0 <= i < |ts| ==> r[i] == UsageOf(rows, ts[i], rule)
  {
    if ts == [] then [] else UsageFor(rows, ts[..|ts| - 1], rule) + [UsageOf(rows, ts[|ts| - 1], rule)]
  }

  /** The per-table records before sorting, in the order the tables first appear. */
  function UsageGroups(rows: seq<UsageRow>, rule: DurationRule): seq<TableUsage>
  {
    UsageFor(rows, KeysInOrder(rows, TableOf), rule)
  }

  predicate NonIncreasing(s: seq<TableUsage>)
  {
    forall i, j :: 0 <= i < j < |s| ==> s[i].totalRevenue >= s[j].totalRevenue
  }

  /** Inserts `x` after every record whose revenue is at least its own. */
  function InsertByRevenue(x: TableUsage, s: seq<TableUsage>): (r: seq<TableUsage>)
    requires NonIncreasing(s)
    ensures NonIncreasing(r)
    ensures forall y :: y in r ==> y == x || y in s
  {
    if s == [] then [x]
    else if s[0].totalRevenue >= x.totalRevenue then
      var rest := InsertByRevenue(x, s[1..]);
      assert s == [s[0]] + s[1..];
      assert forall y :: y in s[1..] ==> s[0].totalRevenue >= y.totalRevenue;
      [s[0]] + rest
    else
      [x] + s
  }

  /** Inserting adds `x` and loses nothing. */
  lemma {:induction false} InsertPermutes(x: TableUsage, s: seq<TableUsage>)
    requires NonIncreasing(s)
    ensures multiset(InsertByRevenue(x, s)) == multiset(s) + multiset{x}
  {
    if s != [] && s[0].totalRevenue >= x.totalRevenue {
      assert s == [s[0]] + s[1..];
      InsertPermutes(x, s[1..]);
    }
  }

  /** `sort((a, b) => b.totalRevenue - a.totalRevenue)`: a stable sort by revenue, highest
      first. */
  function SortByRevenue(s: seq<TableUsage>): (r: seq<TableUsage>)
    ensures NonIncreasing(r)
    ensures multiset(r) == multiset(s)
  {
    if s == [] then []
    else
      var init := s[..|s| - 1];
      assert s == init + [s[|s| - 1]];
      InsertPermutes(s[|s| - 1], SortByRevenue(init));
      InsertByRevenue(s[|s| - 1], SortByRevenue(init))
  }

  /** What `getTableUsageStats` returns for the rows its query fetched. */
  function TableUsageReport(rows: seq<UsageRow>, rule: DurationRule): seq<TableUsage>
  {
    SortByRevenue(UsageGroups(rows, rule))
  }

  /** The grouping loop of `getTableUsageStats`, then the sort. */
  method TableUsageStats(rows: seq<UsageRow>, rule: DurationRule) returns (stats: seq<TableUsage>)
    ensures stats == TableUsageReport(rows, rule)
  {
    var tables, grouped := GroupUsage(rows, rule);
    var values: seq<TableUsage> := [];
    for j := 0 to |tables|
      invariant values == UsageFor(rows, tables[..j], rule)
    {
      assert tables[..j + 1][..j] == tables[..j];
      values := values + [grouped[tables[j]]];
    }
    assert tables[..|tables|] == tables;
    stats := SortByRevenue(values);
  }

  /** The record-building loop: one record per table, keyed by table id. */
  method GroupUsage(rows: seq<UsageRow>, rule: DurationRule) returns (tables: seq<string>, grouped: map<string, TableUsage>)
    ensures UsageGrouped(rows, rule, tables, grouped)
  {
    tables := [];
    grouped := map[];
    for i := 0 to |rows|
      invariant UsageGrouped(rows[..i], rule, tables, grouped)
    {
      var u := rows[i];
      var tid := u.booking.tableId;
      assert rows[..i + 1] == rows[..i] + [u];
      UsageGroupedStep(rows[..i], u, rule, tables, grouped);
      if tid !in grouped {
        grouped := grouped[tid := TableUsage(tid, DisplayName(u), Some(0), 0, 0)];
        tables := tables + [tid];
      }
      var g := grouped[tid];
      grouped := grouped[tid := Tally(g, u.booking, rule)];
    }
    assert rows[..|rows|] == rows;
  }

  /** A table's record after one more of its bookings. */
  function Tally(g: TableUsage, b: Booking, rule: DurationRule): TableUsage
  {
    g.(totalMinutes := AddMinutes(g.totalMinutes, BookedMinutes(b, rule)),
       totalRevenue := g.totalRevenue + b.totalPrice,
       bookingCount := g.bookingCount + 1)
  }

  /** The grouping state after `rows`: the tables in order of first appearance, and for each
      its record. */
  ghost predicate UsageGrouped(rows: seq<UsageRow>, rule: DurationRule, tables: seq<string>, grouped: map<string, TableUsage>)
  {
    && tables == KeysInOrder(rows, TableOf)
    && (forall t :: t in grouped <==> t in tables)
    && (forall t :: t in grouped ==> grouped[t] == UsageOf(rows, t, rule))
  }

  /** Creating the record of a new table, then tallying the row into it, keeps the state
      grouped. */
  lemma UsageGroupedStep(rows: seq<UsageRow>, u: UsageRow, rule: DurationRule, tables: seq<string>, grouped: map<string, TableUsage>)
    requires UsageGrouped(rows, rule, tables, grouped)
    ensures var tid := u.booking.tableId;
      var grouped' := if tid in grouped then grouped else grouped[tid := TableUsage(tid, DisplayName(u), Some(0), 0, 0)];
      var tables' := if tid in grouped then tables else tables + [tid];
      UsageGrouped(rows + [u], rule, tables', grouped'[tid := Tally(grouped'[tid], u.booking, rule)])
  {
    UsageStep(rows, u, rule);
    KeysSnoc(rows, u, TableOf);
  }

  /** How one more row changes each table's record. */
  lemma UsageStep(rows: seq<UsageRow>, u: UsageRow, rule: DurationRule)
    ensures forall t :: t != u.booking.tableId ==> UsageOf(rows + [u], t, rule) == UsageOf(rows, t, rule)
    ensures var t := u.booking.tableId;
      UsageOf(rows + [u], t, rule)
        == if t in KeysInOrder(rows, TableOf) then Tally(UsageOf(rows, t, rule), u.booking, rule)
           else TableUsage(t, DisplayName(u), BookedMinutes(u.booking, rule), u.booking.totalPrice, 1)
  {
    var rows' := rows + [u];
    assert rows'[..|rows|] == rows;
    var t := u.booking.tableId;
    SumWhereSnoc(rows, u, TableOf, UsagePrice);
    SumWhereSnoc(rows, u, TableOf, One);
    if t !in KeysInOrder(rows, TableOf) {
      AbsentKeySumsZero(rows, TableOf, t, UsagePrice);
      AbsentKeySumsZero(rows, TableOf, t, One);
      AbsentKeyMinutes(rows, t, rule);
    }
  }

  lemma {:induction false} AbsentKeyMinutes(rows: seq<UsageRow>, tid: string, rule: DurationRule)
    requires tid !in KeysInOrder(rows, TableOf)
    ensures MinutesFor(rows, tid, rule) == Some(0)
  {
    if rows != [] {
      var init := rows[..|rows| - 1];
      assert forall i :: 0 <= i < |init| ==> init[i] == rows[i];
      AbsentKeyMinutes(init, tid, rule);
    }
  }

  function MinutesOrZero(rule: DurationRule): UsageRow -> int
  {
    (u: UsageRow) => var m := BookedMinutes(u.booking, rule); if m.Some? then m.value else 0
  }

  /** A table's minutes are NaN exactly when one of its bookings has a malformed time, and
      otherwise the sum of its bookings' minutes. */
  lemma {:induction false} MinutesForMeaning(rows: seq<UsageRow>, tid: string, rule: DurationRule)
    ensures MinutesFor(rows, tid, rule).None?
      <==> exists i :: 0 <= i < |rows| && rows[i].booking.tableId == tid && BookedMinutes(rows[i].booking, rule).None?
    ensures MinutesFor(rows, tid, rule).Some? ==>
      MinutesFor(rows, tid, rule).value == SumWhere(rows, TableOf, tid, MinutesOrZero(rule))
  {
    if rows != [] {
      var init, last := rows[..|rows| - 1], rows[|rows| - 1];
      assert forall i :: 0 <= i < |init| ==> init[i] == rows[i];
      MinutesForMeaning(init, tid, rule);
    }
  }

  /** Every table that has rows has a record. */
  lemma TableUsageCoversRows(rows: seq<UsageRow>, rule: DurationRule)
    ensures var g := UsageGroups(rows, rule);
      forall j :: 0 <= j < |rows| ==> exists i :: 0 <= i < |g| && g[i].tableId == rows[j].booking.tableId
  {
    var ts := KeysInOrder(rows, TableOf);
    var g := UsageGroups(rows, rule);
    UsageIds(rows, rule);
    KeysMembers(rows, TableOf);
    forall j | 0 <= j < |rows|
      ensures exists i :: 0 <= i < |g| && g[i].tableId == rows[j].booking.tableId
    {
      assert TableOf(rows[j]) in ts;
      var i :| 0 <= i < |ts| && ts[i] == rows[j].booking.tableId;
      assert g[i].tableId == rows[j].booking.tableId;
    }
  }

  /** Every record is of a table that has rows. */
  lemma TableUsageOnlyRows(rows: seq<UsageRow>, rule: DurationRule)
    ensures var g := UsageGroups(rows, rule);
      forall i :: 0 <= i < |g| ==> exists j :: 0 <= j < |rows| && rows[j].booking.tableId == g[i].tableId
  {
    var ts := KeysInOrder(rows, TableOf);
    var g := UsageGroups(rows, rule);
    UsageIds(rows, rule);
    KeysMembers(rows, TableOf);
    forall i | 0 <= i < |g|
      ensures exists j :: 0 <= j < |rows| && rows[j].booking.tableId == g[i].tableId
    {
      assert ts[i] in ts;
      var j :| 0 <= j < |rows| && TableOf(rows[j]) == ts[i];
    }
  }

  /** The records carry the tables in order of first appearance. */
  lemma UsageIds(rows: seq<UsageRow>, rule: DurationRule)
    ensures var g, ts := UsageGroups(rows, rule), KeysInOrder(rows, TableOf);
      |g| == |ts| && forall i :: 0 <= i < |g| ==> g[i].tableId == ts[i]
  {
  }

  /** Each table has one record, holding its first row's name, its minutes, the sum of its
      prices and its number of rows. */
  lemma TableUsageEntries(rows: seq<UsageRow>, rule: DurationRule)
    ensures var g := UsageGroups(rows, rule);
      && (forall i, j :: 0 <= i < j < |g| ==> g[i].tableId != g[j].tableId)
      && (forall i :: 0 <= i < |g| ==> g[i] == UsageOf(rows, g[i].tableId, rule))
  {
    UsageIds(rows, rule);
  }

  /** No row is lost or counted twice: the record counts add up to the number of rows and the
      revenues to the sum of all prices. */
  lemma TableUsageConserved(rows: seq<UsageRow>, rule: DurationRule)
    ensures TotalUsageBookings(UsageGroups(rows, rule)) == |rows|
    ensures TotalUsageRevenue(UsageGroups(rows, rule)) == Total(rows, UsagePrice)
  {
    UsageForSums(rows, KeysInOrder(rows, TableOf), rule);
    GroupsPartition(rows, TableOf, UsagePrice);
  }

  function TotalUsageRevenue(r: seq<TableUsage>): int
  {
    if r == [] then 0 else TotalUsageRevenue(r[..|r| - 1]) + r[|r| - 1].totalRevenue
  }

  function TotalUsageBookings(r: seq<TableUsage>): int
  {
    if r == [] then 0 else TotalUsageBookings(r[..|r| - 1]) + r[|r| - 1].bookingCount
  }

  lemma {:induction false} UsageForSums(rows: seq<UsageRow>, ts: seq<string>, rule: DurationRule)
    ensures TotalUsageRevenue(UsageFor(rows, ts, rule)) == SumByKeys(rows, TableOf, ts, UsagePrice)
    ensures TotalUsageBookings(UsageFor(rows, ts, rule)) == SumByKeys(rows, TableOf, ts, One)
  {
    if ts != [] {
      UsageForSums(rows, ts[..|ts| - 1], rule);
      var r := UsageFor(rows, ts, rule);
      assert r[..|r| - 1] == UsageFor(rows, ts[..|ts| - 1], rule);
    }
  }

  /** A booking from 23:00 to 01:00 counts as 22 hours less than nothing when the end is
      taken as written, and as the two hours it lasts when the end is pushed past midnight. */
  lemma OvernightUsage(b: Booking)
    requires TimeToMinutes(b.startTime) == Some(23 * 60) && TimeToMinutes(b.endTime) == Some(60)
    ensures BookedMinutes(b, RawDifference) == Some(-22 * 60)
    ensures BookedMinutes(b, OvernightAware) == Some(2 * 60)
  {
  }

  /** Measured overnight-aware, a booking between two clock times lasts more than nothing and
      at most a day, and a booking of `d` whole hours (1 to 23) made by the booking form lasts
      exactly `d` hours whatever its start. */
  lemma OvernightAwareMinutes(b: Booking, d: nat)
    requires TimeToMinutes(b.startTime).Some? && TimeToMinutes(b.startTime).value < MinutesPerDay
    requires TimeToMinutes(b.endTime).Some? && TimeToMinutes(b.endTime).value < MinutesPerDay
    ensures 0 < BookedMinutes(b, OvernightAware).value <= MinutesPerDay
    ensures 1 <= d < 24 && TimeToMinutes(b.endTime).value == (TimeToMinutes(b.startTime).value + 60 * d) % MinutesPerDay
      ==> BookedMinutes(b, OvernightAware) == Some(60 * d)
  {
    var s, e := TimeToMinutes(b.startTime).value, TimeToMinutes(b.endTime).value;
    if 1 <= d < 24 && e == (s + 60 * d) % MinutesPerDay {
      DayWrap(s + 60 * d);
    }
  }

  // ---------------------------------------------------------------------------------------
  // getPeakHours

  datatype PeakHourStat = PeakHourStat(hour: Option<nat>, bookingCount: int)

  /** The leading decimal digits of `s`. */
  function LeadingDigits(s: string): (r: string)
    ensures AllDigits(r) && |r| <= |s| && r == s[..|r|]
    ensures |r| < |s| ==> !IsDigit(s[|r|])
  {
    if s != [] && IsDigit(s[0]) then [s[0]] + LeadingDigits(s[1..]) else []
  }

  /** `parseInt(startTime.split(':')[0], 10)`: the number the leading digits of the first
      field spell; none (NaN) when the field does not start with a digit. */
  function StartHour(startTime: string): Option<nat>
  {
    var digits := LeadingDigits(startTime[..ColonIndex(startTime)]);
    if digits == [] then None else Some(Decimal(digits))
  }

  function HourKey(b: Booking): Option<nat>
  {
    StartHour(b.startTime)
  }

  function HourCount(rows: seq<Booking>, h: Option<nat>): int
  {
    SumWhere(rows, HourKey, h, One)
  }

  /** The largest hour key: 23 from the initial keys, or a larger start hour. */
  function TopHour(rows: seq<Booking>): (top: nat)
    ensures top >= 23
    ensures forall i :: 0 <= i < |rows| && HourKey(rows[i]).Some? ==> HourKey(rows[i]).value <= top
  {
    if rows == [] then 23
    else
      var init, last := rows[..|rows| - 1], rows[|rows| - 1];
      assert forall i :: 0 <= i < |init| ==> init[i] == rows[i];
      var t := TopHour(init);
      if HourKey(last).Some? && HourKey(last).value > t then HourKey(last).value else t
  }

  /** The entries for hours below `n`: every hour of the day, and any other hour with
      bookings, ascending. */
  function HourEntries(rows: seq<Booking>, n: nat): seq<PeakHourStat>
  {
    if n == 0 then []
    else
      var h := n - 1;
      HourEntries(rows, h) + if h < 24 || HourCount(rows, Some(h)) > 0 then [PeakHourStat(Some(h), HourCount(rows, Some(h)))] else []
  }

  /** What `getPeakHours` returns for the rows its query fetched: `Object.entries` lists the
      integer hour keys ascending and then the `NaN` key, if a start did not parse. */
  function PeakHoursReport(rows: seq<Booking>): seq<PeakHourStat>
  {
    HourEntries(rows, TopHour(rows) + 1)
      + if HourCount(rows, None) > 0 then [PeakHourStat(None, HourCount(rows, None))] else []
  }

  /** The counting loops of `getPeakHours`: every hour of the day set to 0, one increment per
      row at its start hour, then the entries. */
  method PeakHours(rows: seq<Booking>) returns (stats: seq<PeakHourStat>)
    ensures stats == PeakHoursReport(rows)
  {
    var hourCounts, nanCount, top := CountStartHours(rows);
    stats := [];
    for h := 0 to top + 1
      invariant stats == HourEntries(rows, h)
    {
      if h in hourCounts {
        stats := stats + [PeakHourStat(Some(h), hourCounts[h])];
      }
    }
    if nanCount > 0 {
      stats := stats + [PeakHourStat(None, nanCount)];
    }
  }

  /** The two counting loops: hours 0 to 23 set to 0, then one increment per row at its
      start hour (the `NaN` key counted apart), tracking the largest hour key. */
  method CountStartHours(rows: seq<Booking>) returns (hourCounts: map<nat, int>, nanCount: int, top: nat)
    ensures Counted(rows, hourCounts, nanCount, top)
  {
    hourCounts := DayHours();
    nanCount := 0;
    top := 23;
    for i := 0 to |rows|
      invariant Counted(rows[..i], hourCounts, nanCount, top)
    {
      var b := rows[i];
      assert rows[..i + 1] == rows[..i] + [b];
      CountedStep(rows[..i], b, hourCounts, nanCount, top);
      var key := HourKey(b);
      if key.Some? {
        var h := key.value;
        hourCounts := hourCounts[h := (if h in hourCounts then hourCounts[h] else 0) + 1];
        if h > top {
          top := h;
        }
      } else {
        nanCount := nanCount + 1;
      }
    }
    assert rows[..|rows|] == rows;
  }

  /** The counting state after `rows`: the hours of the day and every start hour seen, each
      with its number of rows, the rows whose start hour is `NaN`, and the largest hour key. */
  ghost predicate Counted(rows: seq<Booking>, hourCounts: map<nat, int>, nanCount: int, top: nat)
  {
    && (forall k: nat :: k in hourCounts <==> k < 24 || HourCount(rows, Some(k)) > 0)
    && (forall k :: k in hourCounts ==> hourCounts[k] == HourCount(rows, Some(k)))
    && nanCount == HourCount(rows, None)
    && top == TopHour(rows)
  }

  /** One increment at the row's start hour, or at the `NaN` count, keeps the state counted. */
  lemma CountedStep(rows: seq<Booking>, b: Booking, hourCounts: map<nat, int>, nanCount: int, top: nat)
    requires Counted(rows, hourCounts, nanCount, top)
    ensures var key := HourKey(b);
      if key.Some? then
        var h := key.value;
        Counted(rows + [b], hourCounts[h := (if h in hourCounts then hourCounts[h] else 0) + 1], nanCount, if h > top then h else top)
      else
        Counted(rows + [b], hourCounts, nanCount + 1, top)
  {
    HourStep(rows, b);
    var key := HourKey(b);
    if key.Some? {
      var h := key.value;
      var m := hourCounts[h := (if h in hourCounts then hourCounts[h] else 0) + 1];
      assert forall k :: k in m ==> m[k] == HourCount(rows + [b], Some(k));
    }
  }

  /** How one more row changes the hour counts and the largest hour key. */
  lemma HourStep(rows: seq<Booking>, b: Booking)
    ensures forall k :: HourCount(rows + [b], k) == HourCount(rows, k) + if HourKey(b) == k then 1 else 0
    ensures forall k :: HourCount(rows, k) >= 0
    ensures TopHour(rows + [b]) == if HourKey(b).Some? && HourKey(b).value > TopHour(rows) then HourKey(b).value else TopHour(rows)
  {
    assert (rows + [b])[..|rows|] == rows;
    SumWhereSnoc(rows, b, HourKey, One);
    CountNonNegative(rows, HourKey);
  }

  /** The first loop: every hour of the day with a count of 0. */
  method DayHours() returns (hourCounts: map<nat, int>)
    ensures forall k: nat :: k in hourCounts <==> k < 24
    ensures forall k :: k in hourCounts ==> hourCounts[k] == 0
  {
    hourCounts := map[];
    for h := 0 to 24
      invariant forall k: nat :: k in hourCounts <==> k < h
      invariant forall k :: k in hourCounts ==> hourCounts[k] == 0
    {
      hourCounts := hourCounts[h := 0];
    }
  }

  function TotalPeakCount(r: seq<PeakHourStat>): int
  {
    if r == [] then 0 else TotalPeakCount(r[..|r| - 1]) + r[|r| - 1].bookingCount
  }

  /** The hour keys below `n`, ascending. */
  function HourKeys(n: nat): (ks: seq<Option<nat>>)
    ensures |ks| == n && forall i :: 0 <= i < n ==> ks[i] == Some(i)
  {
    if n == 0 then [] else HourKeys(n - 1) + [Some(n - 1)]
  }

  lemma {:induction false} HourEntriesSum(rows: seq<Booking>, n: nat)
    ensures TotalPeakCount(HourEntries(rows, n)) == SumByKeys(rows, HourKey, HourKeys(n), One)
  {
    if n > 0 {
      var h := n - 1;
      HourEntriesSum(rows, h);
      var e := HourEntries(rows, h);
      var c := HourCount(rows, Some(h));
      assert 0 <= c by {
        CountNonNegative(rows, HourKey);
      }
      if h < 24 || c > 0 {
        TotalPeakSnoc(e, PeakHourStat(Some(h), c));
      } else {
        assert e + [] == e;
      }
      SumByKeysAppend(rows, HourKey, HourKeys(h), Some(h), One);
    }
  }

  lemma TotalPeakSnoc(e: seq<PeakHourStat>, x: PeakHourStat)
    ensures TotalPeakCount(e + [x]) == TotalPeakCount(e) + x.bookingCount
  {
    assert (e + [x])[..|e|] == e;
  }

  /** Every row is counted once: the counts of the entries add up to the number of rows. */
  lemma PeakCountsSum(rows: seq<Booking>)
    ensures TotalPeakCount(PeakHoursReport(rows)) == |rows|
  {
    var n := TopHour(rows) + 1;
    var ks := HourKeys(n) + [None];
    assert Distinct(ks);
    forall i | 0 <= i < |rows|
      ensures HourKey(rows[i]) in ks
    {
      if HourKey(rows[i]).Some? {
        assert ks[HourKey(rows[i]).value] == HourKey(rows[i]);
      }
    }
    BucketsPartition(rows, HourKey, ks, One);
    TotalOfOnes(rows);
    assert ks[..n] == HourKeys(n);
    HourEntriesSum(rows, n);
    CountNonNegative(rows, HourKey);
    var e := HourEntries(rows, n);
    SumByKeysAppend(rows, HourKey, HourKeys(n), None, One);
    assert ks == HourKeys(n) + [None];
    if HourCount(rows, None) > 0 {
      var x := PeakHourStat(None, HourCount(rows, None));
      assert PeakHoursReport(rows) == e + [x];
      assert (e + [x])[..|e|] == e;
    } else {
      assert PeakHoursReport(rows) == e;
    }
  }

  lemma {:induction false} HourEntriesDay(rows: seq<Booking>, n: nat)
    requires n <= 24
    ensures |HourEntries(rows, n)| == n
    ensures forall h :: 0 <= h < n ==> HourEntries(rows, n)[h] == PeakHourStat(Some(h), HourCount(rows, Some(h)))
  {
    if n > 0 {
      HourEntriesDay(rows, n - 1);
    }
  }

  lemma {:induction false} HourEntriesPrefix(rows: seq<Booking>, n: nat)
    requires n >= 24
    ensures |HourEntries(rows, n)| >= 24 && HourEntries(rows, n)[..24] == HourEntries(rows, 24)
  {
    HourEntriesDay(rows, 24);
    if n > 24 {
      HourEntriesPrefix(rows, n - 1);
      var e := HourEntries(rows, n - 1);
      assert HourEntries(rows, n)[..|e|] == e;
    }
  }

  /** The first 24 entries are hours 0 to 23 in order, each with its count (0 when nothing
      starts then); when every start hour is below 24 there are no other entries. */
  lemma PeakHoursOfDay(rows: seq<Booking>)
    ensures var r := PeakHoursReport(rows);
      && |r| >= 24
      && (forall h :: 0 <= h < 24 ==> r[h] == PeakHourStat(Some(h), HourCount(rows, Some(h))))
      && ((forall i :: 0 <= i < |rows| ==> HourKey(rows[i]).Some? && HourKey(rows[i]).value < 24) ==> |r| == 24)
  {
    var n := TopHour(rows) + 1;
    HourEntriesPrefix(rows, n);
    HourEntriesDay(rows, 24);
    var r := PeakHoursReport(rows);
    assert r[..|HourEntries(rows, n)|] == HourEntries(rows, n);
    if forall i :: 0 <= i < |rows| ==> HourKey(rows[i]).Some? && HourKey(rows[i]).value < 24 {
      TopHourOfDay(rows);
      NoNaNHours(rows);
    }
  }

  lemma {:induction false} TopHourOfDay(rows: seq<Booking>)
    requires forall i :: 0 <= i < |rows| ==> HourKey(rows[i]).Some? && HourKey(rows[i]).value < 24
    ensures TopHour(rows) == 23
  {
    if rows != [] {
      var init := rows[..|rows| - 1];
      assert forall i :: 0 <= i < |init| ==> init[i] == rows[i];
      TopHourOfDay(init);
    }
  }

  lemma {:induction false} NoNaNHours(rows: seq<Booking>)
    requires forall i :: 0 <= i < |rows| ==> HourKey(rows[i]).Some?
    ensures HourCount(rows, None) == 0
  {
    if rows != [] {
      var init := rows[..|rows| - 1];
      assert forall i :: 0 <= i < |init| ==> init[i] == rows[i];
      NoNaNHours(init);
    }
  }

  /** A start the booking form produces (two digits, ':', two digits) has the hour its
      minutes fall in, below 24. */
  lemma StartHourOfLabel(s: string)
    requires WellFormedTime(s)
    ensures StartHour(s) == Some(TimeToMinutes(s).value / 60)
    ensures StartHour(s).value < 24
  {
    ParseThenFormat(s);
    assert ColonIndex(s) == 2 by {
      assert s[0] != ':' && s[1] != ':' && s[2] == ':';
      assert ColonIndex(s[2..]) == 0;
      assert ColonIndex(s[1..]) == 1;
    }
    assert LeadingDigits(s[..2]) == s[..2] by {
      assert IsDigit(s[..2][0]) && IsDigit(s[..2][1]);
      assert s[..2][1..] == [s[1]] && s[..2][1..][1..] == [];
    }
  }

  // ---------------------------------------------------------------------------------------
  // getSummaryStats

  datatype SummaryStats = SummaryStats(totalBookings: int, confirmedBookings: int, pendingBookings: int, cancelledBookings: int, totalRevenue: int)

  /** The bucket a status falls in: confirmed and completed bookings earn, pending ones wait,
      cancelled and no-show ones are dropped. */
  datatype Bucket = Earning | Waiting | Dropped

  function BucketOf(b: Booking): Bucket
  {
    match b.status
    case Confirmed | Completed => Earning
    case Pending => Waiting
    case Cancelled | NoShow => Dropped
  }

  /** What `getSummaryStats` returns for the day's rows. */
  function Summary(rows: seq<Booking>): SummaryStats
  {
    SummaryStats(|rows|, SumWhere(rows, BucketOf, Earning, One), SumWhere(rows, BucketOf, Waiting, One),
                 SumWhere(rows, BucketOf, Dropped, One), SumWhere(rows, BucketOf, Earning, PriceOf))
  }

  /** The counting loop of `getSummaryStats`. */
  method SummaryStatsOf(rows: seq<Booking>) returns (stats: SummaryStats)
    ensures stats == Summary(rows)
  {
    stats := SummaryStats(|rows|, 0, 0, 0, 0);
    for i := 0 to |rows|
      invariant stats == Summary(rows[..i]).(totalBookings := |rows|)
    {
      var b := rows[i];
      assert rows[..i + 1] == rows[..i] + [b];
      if b.status == Confirmed || b.status == Completed {
        stats := stats.(confirmedBookings := stats.confirmedBookings + 1, totalRevenue := stats.totalRevenue + b.totalPrice);
      } else if b.status == Pending {
        stats := stats.(pendingBookings := stats.pendingBookings + 1);
      } else if b.status == Cancelled || b.status == NoShow {
        stats := stats.(cancelledBookings := stats.cancelledBookings + 1);
      }
    }
    assert rows[..|rows|] == rows;
  }

  /** Every row falls in exactly one bucket, so the three counts add up to the total; the
      revenue is that of the earning rows alone. */
  lemma SummaryBuckets(rows: seq<Booking>)
    ensures var s := Summary(rows);
      && s.totalBookings == |rows|
      && s.confirmedBookings + s.pendingBookings + s.cancelledBookings == s.totalBookings
      && 0 <= s.confirmedBookings && 0 <= s.pendingBookings && 0 <= s.cancelledBookings
      && ((forall i :: 0 <= i < |rows| ==> rows[i].status != Confirmed && rows[i].status != Completed) ==> s.totalRevenue == 0)
  {
    var ks := [Earning, Waiting, Dropped];
    forall i | 0 <= i < |rows| ensures BucketOf(rows[i]) in ks {
      var bk := BucketOf(rows[i]);
      assert bk == Earning || bk == Waiting || bk == Dropped;
    }
    BucketsPartition(rows, BucketOf, ks, One);
    TotalOfOnes(rows);
    SumByKeysAppend(rows, BucketOf, [], Earning, One);
    SumByKeysAppend(rows, BucketOf, [Earning], Waiting, One);
    SumByKeysAppend(rows, BucketOf, [Earning, Waiting], Dropped, One);
    assert [] + [Earning] == [Earning] && [Earning] + [Waiting] == [Earning, Waiting] && [Earning, Waiting] + [Dropped] == ks;
    CountNonNegative(rows, BucketOf);
    if forall i :: 0 <= i < |rows| ==> rows[i].status != Confirmed && rows[i].status != Completed {
      KeysMembers(rows, BucketOf);
      assert Earning !in KeysInOrder(rows, BucketOf);
      AbsentKeySumsZero(rows, BucketOf, Earning, PriceOf);
    }
  }

  // ---------------------------------------------------------------------------------------
  // getDashboardStats

  datatype DashboardCounts = DashboardCounts(
    total: int, waiting: int, arrived: int, noShow: int,
    availableTables: int, totalTables: int, occupiedTables: int)

  function StatusOf(b: Booking): BookingStatus
  {
    b.status
  }

  function TableStatusOf(t: TableRow): TableStatus
  {
    t.status
  }

  /** The counts `getDashboardStats` shows for the day's bookings and all tables: waiting are
      the pending ones, arrived the confirmed ones, no-show the no-show and cancelled ones;
      every table that is not available counts as occupied. */
  function Dashboard(bookings: seq<Booking>, tables: seq<TableRow>): DashboardCounts
  {
    var available := SumWhere(tables, TableStatusOf, Available, One);
    DashboardCounts(
      |bookings|,
      SumWhere(bookings, StatusOf, Pending, One),
      SumWhere(bookings, StatusOf, Confirmed, One),
      SumWhere(bookings, StatusOf, NoShow, One) + SumWhere(bookings, StatusOf, Cancelled, One),
      available, |tables|, |tables| - available)
  }

  /** Completed bookings fall in none of the three counts, so those and the completed ones add
      up to the total. */
  lemma DashboardBookingCounts(bookings: seq<Booking>, tables: seq<TableRow>)
    ensures var d := Dashboard(bookings, tables);
      d.waiting + d.arrived + d.noShow + SumWhere(bookings, StatusOf, Completed, One) == d.total
  {
    var ks := [Pending, Confirmed, Completed, Cancelled, NoShow];
    forall i | 0 <= i < |bookings| ensures StatusOf(bookings[i]) in ks {
      var st := bookings[i].status;
      assert st == Pending || st == Confirmed || st == Completed || st == Cancelled || st == NoShow;
    }
    BucketsPartition(bookings, StatusOf, ks, One);
    TotalOfOnes(bookings);
    SumByKeysAppend(bookings, StatusOf, [], Pending, One);
    SumByKeysAppend(bookings, StatusOf, [Pending], Confirmed, One);
    SumByKeysAppend(bookings, StatusOf, [Pending, Confirmed], Completed, One);
    SumByKeysAppend(bookings, StatusOf, [Pending, Confirmed, Completed], Cancelled, One);
    SumByKeysAppend(bookings, StatusOf, [Pending, Confirmed, Completed, Cancelled], NoShow, One);
    assert [] + [Pending] == [Pending];
    assert [Pending] + [Confirmed] == [Pending, Confirmed];
    assert [Pending, Confirmed] + [Completed] == [Pending, Confirmed, Completed];
    assert [Pending, Confirmed, Completed] + [Cancelled] == [Pending, Confirmed, Completed, Cancelled];
    assert [Pending, Confirmed, Completed, Cancelled] + [NoShow] == ks;
  }

  /** Occupied tables are the occupied ones and those under maintenance; the available ones
      are at most all of them. */
  lemma DashboardTableCounts(bookings: seq<Booking>, tables: seq<TableRow>)
    ensures var d := Dashboard(bookings, tables);
      && d.occupiedTables == SumWhere(tables, TableStatusOf, Occupied, One) + SumWhere(tables, TableStatusOf, Maintenance, One)
      && 0 <= d.availableTables <= d.totalTables
  {
    var ts := [Available, Occupied, Maintenance];
    forall i | 0 <= i < |tables| ensures TableStatusOf(tables[i]) in ts {
      var st := tables[i].status;
      assert st == Available || st == Occupied || st == Maintenance;
    }
    BucketsPartition(tables, TableStatusOf, ts, One);
    TotalOfOnes(tables);
    SumByKeysAppend(tables, TableStatusOf, [], Available, One);
    SumByKeysAppend(tables, TableStatusOf, [Available], Occupied, One);
    SumByKeysAppend(tables, TableStatusOf, [Available, Occupied], Maintenance, One);
    assert [] + [Available] == [Available];
    assert [Available] + [Occupied] == [Available, Occupied];
    assert [Available, Occupied] + [Maintenance] == ts;
    CountNonNegative(tables, TableStatusOf);
  }

  /** The summary report and the dashboard read the same rows the same way: the pending and
      the dropped counts agree, and the earning count is the arrived plus the completed. */
  lemma {:induction false} SummaryMatchesDashboard(bookings: seq<Booking>, tables: seq<TableRow>)
    ensures var s := Summary(bookings); var d := Dashboard(bookings, tables);
      && s.pendingBookings == d.waiting
      && s.cancelledBookings == d.noShow
      && s.confirmedBookings == d.arrived + SumWhere(bookings, StatusOf, Completed, One)
  {
    if bookings != [] {
      SummaryMatchesDashboard(bookings[..|bookings| - 1], tables);
    }
  }
}
