/** The table-list read of the booking service (`getTables` in src/services/bookingService.ts):
    group today's bookings by table, sweep late pending bookings to no-show, derive each table's
    bookable slots, its occupancy indicator and its price, and release tables marked occupied
    that no confirmed booking covers. The store writes the source fires without awaiting are
    returned as a list instead of being performed. */
module Reconcile {
  import opened Types
  import opened TimeOfDay
  import opened SlotGrid

  /** How many bookable slots the table list previews. */
  const PreviewSlots: nat := 4
  /** Late threshold used when the setting is missing or 0. */
  const DefaultLateThreshold: int := 10

  /** A table as the list shows it: the row plus the derived fields. */
  datatype TableView = TableView(
    id: string,
    name: string,
    tableType: TableType,
    status: TableStatus,
    pricePerHour: int,
    availableSlots: seq<string>,
    occupiedUntil: Option<string>)

  // ---------------------------------------------------------------------------------------
  // Specification functions

  /** `settings.late_threshold_minutes || 10` */
  function Threshold(s: ShopSettings): int
  {
    var t := OrZero(s.lateThreshold);
    if t == 0 then DefaultLateThreshold else t
  }

  /** The hourly rate of a table type: the VIP rate for VIP tables, otherwise the standard
      rate; 0 when there are no settings or the rate is missing. */
  function PricePerHour(kind: TableType, settings: Option<ShopSettings>): int
  {
    match settings
    case None => 0
    case Some(s) => if kind == Vip then OrZero(s.vipPrice) else OrZero(s.standardPrice)
  }

  /** A pending booking whose start is more than `threshold` minutes before `now`. */
  predicate IsLate(b: Booking, now: int, threshold: int)
  {
    && b.status == Pending
    && match TimeToMinutes(b.startTime)
       case Some(s) => now > s + threshold
       case None => false
  }

  /** The bookings of one table, in fetch order. */
  function ForTable(bs: seq<Booking>, tid: string): (r: seq<Booking>)
    ensures forall b :: b in r <==> b in bs && b.tableId == tid
  {
    if bs == [] then []
    else
      var init, last := bs[..|bs| - 1], bs[|bs| - 1];
      assert bs == init + [last];
      ForTable(init, tid) + if last.tableId == tid then [last] else []
  }

  /** The (table, booking id) pairs the no-show sweep removes from the booking map. */
  function LateKeys(bs: seq<Booking>, now: int, threshold: int): set<(string, string)>
  {
    set b | b in bs && IsLate(b, now, threshold) :: (b.tableId, b.id)
  }

  /** The bookings of `l` whose (table, id) pair has not been swept. */
  function Unswept(l: seq<Booking>, swept: set<(string, string)>): (r: seq<Booking>)
  {
    if l == [] then []
    else
      var init, last := l[..|l| - 1], l[|l| - 1];
      assert l == init + [last];
      Unswept(init, swept) + if (last.tableId, last.id) !in swept then [last] else []
  }

  /** A table's booking list after the sweep. */
  function Remaining(bs: seq<Booking>, tid: string, now: int, threshold: int): seq<Booking>
  {
    Unswept(ForTable(bs, tid), LateKeys(bs, now, threshold))
  }

  /** `bookingMap[id] || []` */
  function Lookup(m: map<string, seq<Booking>>, tid: string): seq<Booking>
  {
    if tid in m then m[tid] else []
  }

  /** `list.filter(bk => bk.id !== id)` */
  function RemoveId(l: seq<Booking>, id: string): (r: seq<Booking>)
  {
    if l == [] then []
    else
      var init, last := l[..|l| - 1], l[|l| - 1];
      assert l == init + [last];
      RemoveId(init, id) + if last.id != id then [last] else []
  }

  /** Some booking of `bs` occupies minute `t`. */
  predicate SlotOccupied(t: int, bs: seq<Booking>)
  {
    exists b :: b in bs && Covers(b, t)
  }

  /** The grid points of the table list: strictly after `now` and not occupied. */
  function TableFree(g: seq<nat>, bs: seq<Booking>, now: int): (r: seq<nat>)
    ensures forall x :: x in r <==> x in g && x > now && !SlotOccupied(x, bs)
    ensures IsSubsequence(r, g)
  {
    if g == [] then []
    else
      var init, last := g[..|g| - 1], g[|g| - 1];
      assert g == init + [last];
      if last > now && !SlotOccupied(last, bs) then TableFree(init, bs, now) + [last] else
        var r := TableFree(init, bs, now);
        assert r == [] || r[..|r| - 1] + [r[|r| - 1]] == r;
        r
  }

  /** Index `k` of `bs` holds a confirmed booking covering `now`, and no earlier one does. */
  predicate FirstInProgress(bs: seq<Booking>, now: int, k: int)
  {
    && 0 <= k < |bs| && bs[k].status == Confirmed && Covers(bs[k], now)
    && forall j :: 0 <= j < k ==> !(bs[j].status == Confirmed && Covers(bs[j], now))
  }

  /** When the head is not in progress, the first in-progress booking of the tail is the first
      of the whole list. */
  lemma FirstInProgressShift(bs: seq<Booking>, now: int, k: int)
    requires bs != [] && !(bs[0].status == Confirmed && Covers(bs[0], now))
    requires FirstInProgress(bs[1..], now, k)
    ensures FirstInProgress(bs, now, k + 1) && bs[k + 1] == bs[1..][k]
  {
    assert forall j :: 1 <= j <= k + 1 ==> bs[j] == bs[1..][j - 1];
  }

  /** `tableBookings.find(...)`: the first confirmed booking covering `now`. */
  function Ongoing(bs: seq<Booking>, now: int): (r: Option<Booking>)
    ensures r.Some? <==> exists b :: b in bs && b.status == Confirmed && Covers(b, now)
    ensures r.Some? ==> r.value in bs && r.value.status == Confirmed && Covers(r.value, now)
    ensures r.Some? ==> exists k :: FirstInProgress(bs, now, k) && bs[k] == r.value
  {
    if bs == [] then None
    else if Covers(bs[0], now) && bs[0].status == Confirmed then
      assert FirstInProgress(bs, now, 0);
      Some(bs[0])
    else
      var r := Ongoing(bs[1..], now);
      assert forall b :: b in bs ==> b == bs[0] || b in bs[1..];
      assert r.Some? ==> exists k :: FirstInProgress(bs, now, k) && bs[k] == r.value by {
        if r.Some? {
          var k :| FirstInProgress(bs[1..], now, k) && bs[1..][k] == r.value;
          FirstInProgressShift(bs, now, k);
        }
      }
      r
  }

  /** An occupied table with no ongoing confirmed booking is shown (and written) as available. */
  function ReleasedStatus(status: TableStatus, ongoing: Option<Booking>): TableStatus
  {
    if status == Occupied && ongoing.None? then Available else status
  }

  /** `slots.slice(0, n)` */
  function Take(s: seq<string>, n: nat): seq<string>
  {
    if |s| <= n then s else s[..n]
  }

  /** The view of one table, given its booking list after the sweep. */
  function ViewOf(t: TableRow, s: ShopSettings, bs: seq<Booking>, now: int): TableView
  {
    var ongoing := Ongoing(bs, now);
    TableView(
      t.id, t.name, t.tableType,
      ReleasedStatus(t.status, ongoing),
      PricePerHour(t.tableType, Some(s)),
      Take(Labels(TableFree(Grid(s.openTime, s.closeTime), bs, now)), PreviewSlots),
      if ongoing.Some? then Some(ongoing.value.endTime) else None)
  }

  /** The view when the settings row is missing: price 0, no slots, status as stored. */
  function NoSettingsView(t: TableRow): TableView
  {
    TableView(t.id, t.name, t.tableType, t.status, 0, [], None)
  }

  function ViewAt(t: TableRow, settings: Option<ShopSettings>, fetched: seq<Booking>, now: int): TableView
  {
    match settings
    case None => NoSettingsView(t)
    case Some(s) => ViewOf(t, s, Remaining(fetched, t.id, now, Threshold(s)), now)
  }

  /** The list `getTables` returns, one view per table row, in row order. */
  function Views(tables: seq<TableRow>, settings: Option<ShopSettings>, fetched: seq<Booking>, now: int): (r: seq<TableView>)
    ensures |r| == |tables|
  {
    seq(|tables|, i requires 0 <= i < |tables| => ViewAt(tables[i], settings, fetched, now))
  }

  /** One no-show write per late pending booking, in fetch order. */
  function NoShowWrites(bs: seq<Booking>, now: int, threshold: int): seq<Write>
  {
    if bs == [] then []
    else
      var last := bs[|bs| - 1];
      NoShowWrites(bs[..|bs| - 1], now, threshold)
        + if IsLate(last, now, threshold) then [BookingStatusWrite(last.id, NoShow)] else []
  }

  /** The table is stored as occupied but no confirmed booking of it covers `now`. */
  predicate Released(t: TableRow, s: ShopSettings, fetched: seq<Booking>, now: int)
  {
    t.status == Occupied && Ongoing(Remaining(fetched, t.id, now, Threshold(s)), now).None?
  }

  /** One release write per released table, in row order. */
  function ReleaseWrites(tables: seq<TableRow>, s: ShopSettings, fetched: seq<Booking>, now: int): seq<Write>
  {
    if tables == [] then []
    else
      var t := tables[|tables| - 1];
      ReleaseWrites(tables[..|tables| - 1], s, fetched, now)
        + if Released(t, s, fetched, now) then [TableStatusWrite(t.id, Available)] else []
  }

  /** All writes of one `getTables` call: the no-show sweep first, then the releases. */
  function Writes(tables: seq<TableRow>, settings: Option<ShopSettings>, fetched: seq<Booking>, now: int): seq<Write>
  {
    match settings
    case None => []
    case Some(s) => NoShowWrites(fetched, now, Threshold(s)) + ReleaseWrites(tables, s, fetched, now)
  }

  // ---------------------------------------------------------------------------------------
  // The imperative steps of getTables

  /** The `reduce` that builds `bookingMap`: each table id maps to its bookings in fetch order. */
  method GroupByTable(bookings: seq<Booking>) returns (m: map<string, seq<Booking>>)
    ensures forall tid :: Lookup(m, tid) == ForTable(bookings, tid)
  {
    m := map[];
    for i := 0 to |bookings|
      invariant forall tid :: Lookup(m, tid) == ForTable(bookings[..i], tid)
    {
      var b := bookings[i];
      assert bookings[..i + 1] == bookings[..i] + [b];
      GroupStep(m, bookings[..i], b);
      if b.tableId !in m {
        m := m[b.tableId := []];
      }
      m := m[b.tableId := m[b.tableId] + [b]];
    }
    assert bookings[..|bookings|] == bookings;
  }

  /** Appending a row to its table's list, created empty on first sight, keeps every list the
      table's rows in fetch order. */
  lemma GroupStep(m: map<string, seq<Booking>>, p: seq<Booking>, b: Booking)
    requires forall tid :: Lookup(m, tid) == ForTable(p, tid)
    ensures var m' := if b.tableId in m then m else m[b.tableId := []];
      forall tid :: Lookup(m'[b.tableId := m'[b.tableId] + [b]], tid) == ForTable(p + [b], tid)
  {
    assert (p + [b])[..|p|] == p;
  }

  lemma LateKeysSnoc(bs: seq<Booking>, i: nat, now: int, threshold: int)
    requires i < |bs|
    ensures IsLate(bs[i], now, threshold) ==>
      LateKeys(bs[..i + 1], now, threshold) == LateKeys(bs[..i], now, threshold) + {(bs[i].tableId, bs[i].id)}
    ensures !IsLate(bs[i], now, threshold) ==> LateKeys(bs[..i + 1], now, threshold) == LateKeys(bs[..i], now, threshold)
  {
    assert bs[..i + 1] == bs[..i] + [bs[i]];
  }

  lemma RemoveIdSnoc(l: seq<Booking>, b: Booking, id: string)
    ensures RemoveId(l + [b], id) == RemoveId(l, id) + if b.id != id then [b] else []
  {
    assert (l + [b])[..|l|] == l;
  }

  lemma UnsweptSnoc(l: seq<Booking>, b: Booking, swept: set<(string, string)>)
    ensures Unswept(l + [b], swept) == Unswept(l, swept) + if (b.tableId, b.id) !in swept then [b] else []
  {
    assert (l + [b])[..|l|] == l;
  }

  /** Sweeping one more key from a list removes exactly the bookings with that key. */
  lemma {:induction false} UnsweptAdd(l: seq<Booking>, swept: set<(string, string)>, tid: string, id: string)
    requires forall b :: b in l ==> b.tableId == tid
    ensures Unswept(l, swept + {(tid, id)}) == RemoveId(Unswept(l, swept), id)
  {
    if l != [] {
      var init, last := l[..|l| - 1], l[|l| - 1];
      assert l == init + [last];
      assert forall b :: b in init ==> b in l;
      assert last.tableId == tid;
      var added := swept + {(tid, id)};
      UnsweptAdd(init, swept, tid, id);
      var u := Unswept(init, swept);
      var a := Unswept(init, added);
      assert a == RemoveId(u, id);
      UnsweptSnoc(init, last, added);
      UnsweptSnoc(init, last, swept);
      if (last.tableId, last.id) in swept {
        assert Unswept(l, added) == a;
        assert Unswept(l, swept) == u;
      } else {
        RemoveIdSnoc(u, last, id);
        if last.id == id {
          assert Unswept(l, added) == a;
        } else {
          assert (last.tableId, last.id) !in added;
          assert Unswept(l, added) == a + [last];
        }
        assert Unswept(l, swept) == u + [last];
      }
    }
  }

  /** Sweeping a key of another table leaves a table's list alone. */
  lemma {:induction false} UnsweptOther(l: seq<Booking>, swept: set<(string, string)>, tid: string, key: (string, string))
    requires forall b :: b in l ==> b.tableId == tid
    requires key.0 != tid
    ensures Unswept(l, swept + {key}) == Unswept(l, swept)
  {
    if l != [] {
      var init, last := l[..|l| - 1], l[|l| - 1];
      assert l == init + [last];
      assert forall b :: b in init ==> b in l;
      UnsweptOther(init, swept, tid, key);
      UnsweptSnoc(init, last, swept + {key});
      UnsweptSnoc(init, last, swept);
    }
  }

  /** The map after the sweep has removed booking `b` from its table's list. */
  function SweepOne(m: map<string, seq<Booking>>, b: Booking): map<string, seq<Booking>>
  {
    if b.tableId in m then m[b.tableId := RemoveId(m[b.tableId], b.id)] else m
  }

  /** Removing a late booking from its table's list sweeps its key, and only its key. */
  lemma SweepOneStep(bookings: seq<Booking>, m: map<string, seq<Booking>>, swept: set<(string, string)>, b: Booking)
    requires forall tid :: Lookup(m, tid) == Unswept(ForTable(bookings, tid), swept)
    ensures forall tid :: Lookup(SweepOne(m, b), tid) == Unswept(ForTable(bookings, tid), swept + {(b.tableId, b.id)})
  {
    forall tid
      ensures Lookup(SweepOne(m, b), tid) == Unswept(ForTable(bookings, tid), swept + {(b.tableId, b.id)})
    {
      if tid == b.tableId {
        UnsweptAdd(ForTable(bookings, tid), swept, tid, b.id);
        assert Lookup(m, tid) == Unswept(ForTable(bookings, tid), swept);
      } else {
        UnsweptOther(ForTable(bookings, tid), swept, tid, (b.tableId, b.id));
        assert Lookup(m, tid) == Unswept(ForTable(bookings, tid), swept);
      }
    }
  }

  /** One iteration of the no-show loop keeps the map equal to the lists with the keys swept
      so far removed. */
  lemma SweepStep(bookings: seq<Booking>, i: nat, m: map<string, seq<Booking>>, now: int, threshold: int)
    requires i < |bookings|
    requires forall tid :: Lookup(m, tid) == Unswept(ForTable(bookings, tid), LateKeys(bookings[..i], now, threshold))
    ensures var m' := if IsLate(bookings[i], now, threshold) then SweepOne(m, bookings[i]) else m;
      forall tid :: Lookup(m', tid) == Unswept(ForTable(bookings, tid), LateKeys(bookings[..i + 1], now, threshold))
  {
    LateKeysSnoc(bookings, i, now, threshold);
    if IsLate(bookings[i], now, threshold) {
      SweepOneStep(bookings, m, LateKeys(bookings[..i], now, threshold), bookings[i]);
    }
  }

  lemma NoShowWritesSnoc(bookings: seq<Booking>, i: nat, now: int, threshold: int)
    requires i < |bookings|
    ensures NoShowWrites(bookings[..i + 1], now, threshold)
         == NoShowWrites(bookings[..i], now, threshold)
            + if IsLate(bookings[i], now, threshold) then [BookingStatusWrite(bookings[i].id, NoShow)] else []
  {
    assert bookings[..i + 1][..i] == bookings[..i];
  }

  /** The no-show `for` loop: each late pending booking yields a `no_show` write and is removed
      from its table's list. */
  method SweepNoShows(bookings: seq<Booking>, m0: map<string, seq<Booking>>, now: int, threshold: int)
    returns (m: map<string, seq<Booking>>, writes: seq<Write>)
    requires forall tid :: Lookup(m0, tid) == ForTable(bookings, tid)
    ensures forall tid :: Lookup(m, tid) == Remaining(bookings, tid, now, threshold)
    ensures writes == NoShowWrites(bookings, now, threshold)
  {
    m, writes := m0, [];
    forall tid ensures Unswept(ForTable(bookings, tid), {}) == ForTable(bookings, tid) {
      UnsweptNone(ForTable(bookings, tid));
    }
    assert LateKeys(bookings[..0], now, threshold) == {};
    for i := 0 to |bookings|
      invariant forall tid :: Lookup(m, tid) == Unswept(ForTable(bookings, tid), LateKeys(bookings[..i], now, threshold))
      invariant writes == NoShowWrites(bookings[..i], now, threshold)
    {
      var b := bookings[i];
      SweepStep(bookings, i, m, now, threshold);
      NoShowWritesSnoc(bookings, i, now, threshold);
      if b.status == Pending {
        var start := TimeToMinutes(b.startTime);
        if start.Some? && now > start.value + threshold {
          writes := writes + [BookingStatusWrite(b.id, NoShow)];
          if b.tableId in m {
            m := m[b.tableId := RemoveId(m[b.tableId], b.id)];
          }
        }
      }
    }
    assert bookings[..|bookings|] == bookings;
  }

  lemma {:induction false} UnsweptNone(l: seq<Booking>)
    ensures Unswept(l, {}) == l
  {
    if l != [] {
      UnsweptNone(l[..|l| - 1]);
      assert l == l[..|l| - 1] + [l[|l| - 1]];
    }
  }

  lemma TableFreeStep(p: seq<nat>, x: nat, bs: seq<Booking>, now: int)
    ensures Labels(TableFree(p + [x], bs, now))
         == Labels(TableFree(p, bs, now)) + (if x > now && !SlotOccupied(x, bs) then [FormatMinutes(x)] else [])
  {
    assert (p + [x])[..|p|] == p;
    var f := TableFree(p, bs, now);
    if x > now && !SlotOccupied(x, bs) {
      assert TableFree(p + [x], bs, now) == f + [x];
      assert (f + [x])[..|f|] == f;
    }
  }

  /** The slot `while` loop of `getTables` for one table. */
  method TableSlotLoop(open: nat, endTotal: int, tableBookings: seq<Booking>, now: int) returns (slots: seq<string>)
    ensures slots == Labels(TableFree(GridFrom(open, endTotal), tableBookings, now))
  {
    slots := [];
    var currentTotal := open;
    ghost var done: seq<nat> := [];
    while currentTotal <= endTotal - SlotMinutes
      invariant GridFrom(open, endTotal) == done + GridFrom(currentTotal, endTotal)
      invariant slots == Labels(TableFree(done, tableBookings, now))
      decreases endTotal - currentTotal
    {
      TableFreeStep(done, currentTotal, tableBookings, now);
      GridAdvance(done, currentTotal, endTotal);
      if currentTotal > now {
        var isOccupied := exists b :: b in tableBookings && Covers(b, currentTotal);
        if !isOccupied {
          slots := slots + [FormatMinutes(currentTotal)];
        }
      }
      done := done + [currentTotal];
      currentTotal := currentTotal + SlotMinutes;
    }
    GridAdvance(done, currentTotal, endTotal);
  }

  /** Today's bookable slots of one table (before the preview cut). */
  method TableSlots(open: string, close: string, tableBookings: seq<Booking>, now: int) returns (slots: seq<string>)
    ensures slots == Labels(TableFree(Grid(open, close), tableBookings, now))
  {
    var openMin, closeMin := TimeToMinutes(open), TimeToMinutes(close);
    if openMin.None? || closeMin.None? {
      return [];
    }
    var endTotal: int := closeMin.value;
    if endTotal <= openMin.value {
      endTotal := endTotal + MinutesPerDay;
    }
    assert Grid(open, close) == GridFrom(openMin.value, endTotal);
    slots := TableSlotLoop(openMin.value, endTotal, tableBookings, now);
  }

  /** The body of the `tableData.map` callback for one table: its slots, its ongoing booking,
      the release of a stale occupied status, and its price. */
  method ViewTable(t: TableRow, s: ShopSettings, tableBookings: seq<Booking>, now: int)
    returns (view: TableView, release: seq<Write>)
    ensures view == ViewOf(t, s, tableBookings, now)
    ensures release == if t.status == Occupied && Ongoing(tableBookings, now).None? then [TableStatusWrite(t.id, Available)] else []
  {
    var slots := TableSlots(s.openTime, s.closeTime, tableBookings, now);
    var ongoing := Ongoing(tableBookings, now);
    var occupiedUntil := if ongoing.Some? then Some(ongoing.value.endTime) else None;
    var status := t.status;
    release := [];
    if status == Occupied && ongoing.None? {
      release := [TableStatusWrite(t.id, Available)];
      status := Available;
    }
    var price := if t.tableType == Vip then OrZero(s.vipPrice) else OrZero(s.standardPrice);
    view := TableView(t.id, t.name, t.tableType, status, price, Take(slots, PreviewSlots), occupiedUntil);
  }

  /** `getTables`, with the fetched rows, the settings row and the clock as inputs. It returns
      the table views and the status writes the source fires at the store. */
  method GetTables(tables: seq<TableRow>, settings: Option<ShopSettings>, fetched: seq<Booking>, now: int)
    returns (views: seq<TableView>, writes: seq<Write>)
    ensures views == Views(tables, settings, fetched, now)
    ensures writes == Writes(tables, settings, fetched, now)
  {
    if settings.None? {
      views := [];
      for i := 0 to |tables|
        invariant |views| == i
        invariant forall j :: 0 <= j < i ==> views[j] == NoSettingsView(tables[j])
      {
        views := views + [NoSettingsView(tables[i])];
      }
      writes := [];
      return;
    }
    var s := settings.value;
    var bookingMap := GroupByTable(fetched);
    var threshold := Threshold(s);
    var noShows;
    bookingMap, noShows := SweepNoShows(fetched, bookingMap, now, threshold);

    var releases;
    views, releases := ViewTables(tables, s, fetched, bookingMap, now);
    writes := noShows + releases;
  }

  lemma ViewsSnoc(p: seq<TableRow>, t: TableRow, settings: Option<ShopSettings>, fetched: seq<Booking>, now: int)
    ensures Views(p + [t], settings, fetched, now) == Views(p, settings, fetched, now) + [ViewAt(t, settings, fetched, now)]
  {
    assert (p + [t])[|p|] == t;
    assert forall j :: 0 <= j < |p| ==> (p + [t])[j] == p[j];
  }

  /** The writes after one more table: its release, if any, follows the earlier ones. */
  lemma ReleaseStep(p: seq<TableRow>, t: TableRow, s: ShopSettings, fetched: seq<Booking>, now: int, releases: seq<Write>, release: seq<Write>)
    requires releases == ReleaseWrites(p, s, fetched, now)
    requires release == if t.status == Occupied && Ongoing(Remaining(fetched, t.id, now, Threshold(s)), now).None? then [TableStatusWrite(t.id, Available)] else []
    ensures releases + release == ReleaseWrites(p + [t], s, fetched, now)
  {
    assert (p + [t])[..|p|] == p;
  }

  /** The `tableData.map` pass over the swept per-table lists: one view per table and the
      release writes, in table order. */
  method ViewTables(tables: seq<TableRow>, s: ShopSettings, fetched: seq<Booking>, bookingMap: map<string, seq<Booking>>, now: int)
    returns (views: seq<TableView>, releases: seq<Write>)
    requires forall tid :: Lookup(bookingMap, tid) == Remaining(fetched, tid, now, Threshold(s))
    ensures views == Views(tables, Some(s), fetched, now)
    ensures releases == ReleaseWrites(tables, s, fetched, now)
  {
    views := [];
    releases := [];
    for i := 0 to |tables|
      invariant views == Views(tables[..i], Some(s), fetched, now)
      invariant releases == ReleaseWrites(tables[..i], s, fetched, now)
    {
      var t := tables[i];
      assert tables[..i + 1] == tables[..i] + [t];
      var bs := Lookup(bookingMap, t.id);
      assert bs == Remaining(fetched, t.id, now, Threshold(s));
      var view, release := ViewTable(t, s, bs, now);
      assert view == ViewAt(t, Some(s), fetched, now);
      ViewsSnoc(tables[..i], t, Some(s), fetched, now);
      ReleaseStep(tables[..i], t, s, fetched, now, releases, release);
      releases := releases + release;
      views := views + [view];
    }
    assert tables[..|tables|] == tables;
  }

  // ---------------------------------------------------------------------------------------
  // What the table list promises

  /** No two rows share an id (the store's primary key). */
  predicate UniqueIds(bs: seq<Booking>)
  {
    forall a, b :: a in bs && b in bs && a.id == b.id ==> a == b
  }

  lemma {:induction false} UnsweptMembers(l: seq<Booking>, swept: set<(string, string)>)
    ensures forall b :: b in Unswept(l, swept) <==> b in l && (b.tableId, b.id) !in swept
  {
    if l != [] {
      var init, last := l[..|l| - 1], l[|l| - 1];
      assert l == init + [last];
      UnsweptMembers(init, swept);
    }
  }

  /** After the sweep a table's list holds its fetched bookings that are not late; a late
      pending booking is gone from every list, so it blocks no slot and sets no indicator. */
  lemma SweptBookings(fetched: seq<Booking>, tid: string, now: int, threshold: int)
    ensures forall b :: b in Remaining(fetched, tid, now, threshold) ==>
      b in fetched && b.tableId == tid && !IsLate(b, now, threshold)
    ensures forall b :: b in fetched && IsLate(b, now, threshold) ==> b !in Remaining(fetched, tid, now, threshold)
    ensures UniqueIds(fetched) ==>
      forall b :: b in fetched && b.tableId == tid && !IsLate(b, now, threshold) ==> b in Remaining(fetched, tid, now, threshold)
  {
    UnsweptMembers(ForTable(fetched, tid), LateKeys(fetched, now, threshold));
    forall b | b in fetched && IsLate(b, now, threshold)
      ensures (b.tableId, b.id) in LateKeys(fetched, now, threshold)
    {
    }
    if UniqueIds(fetched) {
      forall b | b in fetched && b.tableId == tid && !IsLate(b, now, threshold)
        ensures (b.tableId, b.id) !in LateKeys(fetched, now, threshold)
      {
      }
    }
  }

  /** The no-show writes are exactly one `no_show` per late pending booking. */
  lemma {:induction false} NoShowWritesMembers(bs: seq<Booking>, now: int, threshold: int)
    ensures forall w :: w in NoShowWrites(bs, now, threshold) ==> w.BookingStatusWrite? && w.newStatus == NoShow
    ensures forall id :: BookingStatusWrite(id, NoShow) in NoShowWrites(bs, now, threshold) <==>
      exists b :: b in bs && IsLate(b, now, threshold) && b.id == id
  {
    if bs != [] {
      var init, last := bs[..|bs| - 1], bs[|bs| - 1];
      assert bs == init + [last];
      NoShowWritesMembers(init, now, threshold);
    }
  }

  /** The release writes are exactly one `available` per occupied table no confirmed booking
      covers. */
  lemma {:induction false} ReleaseWritesMembers(tables: seq<TableRow>, s: ShopSettings, fetched: seq<Booking>, now: int)
    ensures forall w :: w in ReleaseWrites(tables, s, fetched, now) ==> w.TableStatusWrite? && w.newTableStatus == Available
    ensures forall id :: TableStatusWrite(id, Available) in ReleaseWrites(tables, s, fetched, now) <==>
      exists t :: t in tables && Released(t, s, fetched, now) && t.id == id
  {
    if tables != [] {
      var init, last := tables[..|tables| - 1], tables[|tables| - 1];
      assert tables == init + [last];
      ReleaseWritesMembers(init, s, fetched, now);
    }
  }

  lemma GridAscending(open: string, close: string)
    ensures StrictlyAscending(Grid(open, close))
  {
    match (TimeToMinutes(open), TimeToMinutes(close))
    case (Some(o), Some(c)) =>
      GridProperties(o, c);
    case _ =>
  }

  /** The slot preview: the labels of the first (at most four) free grid points, which are the
      earliest ones; each is strictly after `now`, and no booking left after the sweep covers
      it; every free grid point is in the full list. */
  lemma PreviewProperties(t: TableRow, s: ShopSettings, fetched: seq<Booking>, now: int)
    ensures var bs := Remaining(fetched, t.id, now, Threshold(s));
      var free := TableFree(Grid(s.openTime, s.closeTime), bs, now);
      var v := ViewAt(t, Some(s), fetched, now);
      && StrictlyAscending(free)
      && v.availableSlots == Labels(free[..if |free| < PreviewSlots then |free| else PreviewSlots])
      && (forall x :: x in free <==> x in Grid(s.openTime, s.closeTime) && x > now && !SlotOccupied(x, bs))
  {
    var bs := Remaining(fetched, t.id, now, Threshold(s));
    var g := Grid(s.openTime, s.closeTime);
    var free := TableFree(g, bs, now);
    GridAscending(s.openTime, s.closeTime);
    SubsequenceAscending(free, g);
    TakeLabels(free, PreviewSlots);
    assert ViewAt(t, Some(s), fetched, now).availableSlots == Take(Labels(free), PreviewSlots);
  }

  lemma {:induction false} LabelsPrefix(f: seq<nat>, n: nat)
    requires n <= |f|
    ensures Labels(f[..n]) == Labels(f)[..n]
  {
    if n < |f| {
      var init := f[..|f| - 1];
      LabelsPrefix(init, n);
      assert init[..n] == f[..n];
    } else {
      assert f[..n] == f;
    }
  }

  lemma TakeLabels(f: seq<nat>, n: nat)
    ensures Take(Labels(f), n) == Labels(f[..if |f| < n then |f| else n])
  {
    if |f| >= n {
      LabelsPrefix(f, n);
    } else {
      assert f[..|f|] == f;
    }
  }

  /** The occupancy indicator: present exactly when a confirmed booking left after the sweep
      covers `now`, and then it is the end time of the first such booking in the list. */
  lemma OccupancyIndicator(t: TableRow, s: ShopSettings, fetched: seq<Booking>, now: int)
    ensures var bs := Remaining(fetched, t.id, now, Threshold(s));
      var v := ViewAt(t, Some(s), fetched, now);
      && (v.occupiedUntil.Some? <==> exists b :: b in bs && b.status == Confirmed && Covers(b, now))
      && (v.occupiedUntil.Some? ==>
            exists b :: b in bs && b.status == Confirmed && Covers(b, now) && b.endTime == v.occupiedUntil.value)
      && (v.occupiedUntil.Some? ==>
            exists k :: FirstInProgress(bs, now, k) && bs[k].endTime == v.occupiedUntil.value)
  {
  }

  /** Auto-release: an occupied table with no confirmed booking covering `now` is shown as
      available; every other table keeps its stored status. So a table the list shows as
      occupied always has such a booking. The price is the rate of its type. */
  lemma ViewStatusAndPrice(t: TableRow, s: ShopSettings, fetched: seq<Booking>, now: int)
    ensures var bs := Remaining(fetched, t.id, now, Threshold(s));
      var v := ViewAt(t, Some(s), fetched, now);
      var covered := exists b :: b in bs && b.status == Confirmed && Covers(b, now);
      && (t.status == Occupied && !covered ==> v.status == Available)
      && (t.status != Occupied || covered ==> v.status == t.status)
      && (v.status == Occupied ==> covered)
      && v.pricePerHour == (if t.tableType == Vip then OrZero(s.vipPrice) else OrZero(s.standardPrice))
      && (v.id, v.name, v.tableType) == (t.id, t.name, t.tableType)
  {
  }

  /** Without a settings row every table is listed as stored, at price 0 with no slots, and
      nothing is written. */
  lemma NoSettingsTables(tables: seq<TableRow>, fetched: seq<Booking>, now: int)
    ensures var vs := Views(tables, None, fetched, now);
      && (forall i :: 0 <= i < |tables| ==>
            vs[i].status == tables[i].status && vs[i].pricePerHour == 0 && vs[i].availableSlots == []
            && vs[i].occupiedUntil.None?)
      && Writes(tables, None, fetched, now) == []
  {
  }

  /** The late threshold: the setting when it is present and non-zero, otherwise 10. */
  lemma ThresholdDefault(s: ShopSettings)
    ensures s.lateThreshold.None? || s.lateThreshold.value == 0 ==> Threshold(s) == DefaultLateThreshold
    ensures s.lateThreshold.Some? && s.lateThreshold.value != 0 ==> Threshold(s) == s.lateThreshold.value
  {
  }

  /** A pending 09:00 booking with threshold 10 is swept at 09:11 and left alone at 09:09. */
  lemma NoShowExample()
    ensures var b := Booking("b1", "t1", "Somchai", "0812345678", "2024-01-01", "09:00", "10:00", Pending, 200, None);
      var s := ShopSettings("10:00", "22:00", Some(100), Some(200), Some(10));
      && NoShowWrites([b], 9 * 60 + 11, Threshold(s)) == [BookingStatusWrite("b1", NoShow)]
      && Remaining([b], "t1", 9 * 60 + 11, Threshold(s)) == []
      && NoShowWrites([b], 9 * 60 + 9, Threshold(s)) == []
      && Remaining([b], "t1", 9 * 60 + 9, Threshold(s)) == [b]
  {
    var b := Booking("b1", "t1", "Somchai", "0812345678", "2024-01-01", "09:00", "10:00", Pending, 200, None);
    ReadsAs("09:00", 9, 0);
    assert IsLate(b, 9 * 60 + 11, 10) && !IsLate(b, 9 * 60 + 9, 10);
    SingleSweep(b, 9 * 60 + 11, 10);
    SingleSweep(b, 9 * 60 + 9, 10);
  }

  lemma SingleSweep(b: Booking, now: int, threshold: int)
    ensures NoShowWrites([b], now, threshold) == if IsLate(b, now, threshold) then [BookingStatusWrite(b.id, NoShow)] else []
    ensures Remaining([b], b.tableId, now, threshold) == if IsLate(b, now, threshold) then [] else [b]
  {
    assert [b][..0] == [];
    assert ForTable([b], b.tableId) == [b];
    var keys := LateKeys([b], now, threshold);
    assert Unswept([b], keys) == Unswept([], keys) + if (b.tableId, b.id) !in keys then [b] else [];
    if IsLate(b, now, threshold) {
      assert (b.tableId, b.id) in keys;
    } else {
      assert (b.tableId, b.id) !in LateKeys([b], now, threshold);
    }
  }

  /** The preview starts at the earliest grid point after `now` that no remaining booking
      covers. */
  lemma PreviewStartsAtEarliest(t: TableRow, s: ShopSettings, fetched: seq<Booking>, now: int, x: nat)
    requires var bs := Remaining(fetched, t.id, now, Threshold(s));
      && x in Grid(s.openTime, s.closeTime) && x > now && !SlotOccupied(x, bs)
      && forall y :: y in Grid(s.openTime, s.closeTime) && now < y < x ==> SlotOccupied(y, bs)
    ensures var v := ViewAt(t, Some(s), fetched, now);
      |v.availableSlots| > 0 && v.availableSlots[0] == FormatMinutes(x)
  {
    var bs := Remaining(fetched, t.id, now, Threshold(s));
    var free := TableFree(Grid(s.openTime, s.closeTime), bs, now);
    PreviewProperties(t, s, fetched, now);
    assert x in free;
    var k :| 0 <= k < |free| && free[k] == x;
    assert free[0] in free;
    assert free[0] == x;
  }

  /** When the shop closes before midnight, every previewed label reads as a minute strictly
      after `now`. */
  lemma PreviewLabelsAfterNow(t: TableRow, s: ShopSettings, fetched: seq<Booking>, now: int)
    requires forall x :: x in Grid(s.openTime, s.closeTime) ==> x < MinutesPerDay
    ensures var v := ViewAt(t, Some(s), fetched, now);
      forall l :: l in v.availableSlots ==> TimeToMinutes(l).Some? && TimeToMinutes(l).value > now
  {
    var bs := Remaining(fetched, t.id, now, Threshold(s));
    var free := TableFree(Grid(s.openTime, s.closeTime), bs, now);
    PreviewProperties(t, s, fetched, now);
    LabelsReadBack(free, if |free| < PreviewSlots then |free| else PreviewSlots, now);
  }

  lemma LabelsReadBack(f: seq<nat>, m: nat, now: int)
    requires m <= |f|
    requires forall x :: x in f ==> now < x < MinutesPerDay
    ensures forall l :: l in Labels(f[..m]) ==> TimeToMinutes(l).Some? && TimeToMinutes(l).value > now
  {
    var ls := Labels(f[..m]);
    forall l | l in ls
      ensures TimeToMinutes(l).Some? && TimeToMinutes(l).value > now
    {
      var i :| 0 <= i < |ls| && ls[i] == l;
      var x := f[i];
      assert f[..m][i] == x && x in f;
      FormatThenParse(x);
      DayWrap(x);
    }
  }

  /** A table with one confirmed booking 14:00-15:00 today, seen at 14:30 in a shop open
      10:00-22:00: the indicator shows the booking's end, the table stays occupied, the first
      bookable slot is 15:00, and the 14:00 and 14:30 slots are not offered. */
  lemma OngoingBookingExample(b: Booking, t: TableRow, s: ShopSettings, now: int)
    requires b.tableId == t.id && b.status == Confirmed && t.status == Occupied
    requires TimeToMinutes(b.startTime) == Some(14 * 60) && TimeToMinutes(b.endTime) == Some(15 * 60)
    requires TimeToMinutes(s.openTime) == Some(10 * 60) && TimeToMinutes(s.closeTime) == Some(22 * 60)
    requires now == 14 * 60 + 30
    ensures var v := ViewAt(t, Some(s), [b], now);
      && v.occupiedUntil == Some(b.endTime)
      && v.status == Occupied
      && |v.availableSlots| > 0 && v.availableSlots[0] == "15:00"
      && "14:00" !in v.availableSlots && "14:30" !in v.availableSlots
  {
    assert Covers(b, now) && !IsLate(b, now, Threshold(s));
    SingleSweep(b, now, Threshold(s));
    var bs := Remaining([b], t.id, now, Threshold(s));
    assert bs == [b];
    assert Ongoing(bs, now) == Some(b);
    ExampleFirstSlot(b, t, s, now);
    ExampleNotOffered(t, s, [b], now);
  }

  lemma ExampleFirstSlot(b: Booking, t: TableRow, s: ShopSettings, now: int)
    requires b.tableId == t.id && b.status == Confirmed
    requires TimeToMinutes(b.startTime) == Some(14 * 60) && TimeToMinutes(b.endTime) == Some(15 * 60)
    requires TimeToMinutes(s.openTime) == Some(10 * 60) && TimeToMinutes(s.closeTime) == Some(22 * 60)
    requires now == 14 * 60 + 30
    ensures var v := ViewAt(t, Some(s), [b], now);
      |v.availableSlots| > 0 && v.availableSlots[0] == "15:00"
  {
    SingleSweep(b, now, Threshold(s));
    ExampleGrid(s, 600, 1320);
    ExampleOccupancy(b, Remaining([b], t.id, now, Threshold(s)), Grid(s.openTime, s.closeTime), now);
    PreviewStartsAtEarliest(t, s, [b], now, 900);
    Label1500();
  }

  /** With the one booking 14:00-15:00 left after the sweep, every slot after 14:30 and before
      15:00 is taken and 15:00 is free. */
  lemma ExampleOccupancy(b: Booking, bs: seq<Booking>, grid: seq<nat>, now: int)
    requires bs == [b] && b.status == Confirmed
    requires TimeToMinutes(b.startTime) == Some(14 * 60) && TimeToMinutes(b.endTime) == Some(15 * 60)
    requires now == 14 * 60 + 30
    ensures forall y :: y in grid && now < y < 900 ==> SlotOccupied(y, bs)
    ensures !SlotOccupied(900, bs)
  {
    forall y | y in grid && now < y < 900
      ensures SlotOccupied(y, bs)
    {
      assert b in bs && Covers(b, y);
    }
  }

  lemma ExampleNotOffered(t: TableRow, s: ShopSettings, fetched: seq<Booking>, now: int)
    requires TimeToMinutes(s.openTime) == Some(10 * 60) && TimeToMinutes(s.closeTime) == Some(22 * 60)
    requires now == 14 * 60 + 30
    ensures var v := ViewAt(t, Some(s), fetched, now);
      "14:00" !in v.availableSlots && "14:30" !in v.availableSlots
  {
    ExampleGrid(s, 600, 1320);
    PreviewLabelsAfterNow(t, s, fetched, now);
    ReadsAs("14:00", 14, 0);
    ReadsAs("14:30", 14, 30);
  }

  lemma Label1500()
    ensures FormatMinutes(900) == "15:00"
  {
    assert FormatMinutes(900) == Pad2(15) + ":" + Pad2(0);
  }

  lemma ExampleGrid(s: ShopSettings, o: nat, e: int)
    requires TimeToMinutes(s.openTime) == Some(o) && TimeToMinutes(s.closeTime) == Some(22 * 60)
    requires o == 600 && e == 1320
    ensures 900 in Grid(s.openTime, s.closeTime)
    ensures forall x :: x in Grid(s.openTime, s.closeTime) ==> 600 <= x <= 1290
  {
    assert Grid(s.openTime, s.closeTime) == GridFrom(o, e);
    GridFromShape(o, e);
    assert GridFrom(o, e)[10] == 900;
  }
}
