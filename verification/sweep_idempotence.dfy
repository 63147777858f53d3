/** The status writes of `getTables` against the store they are issued to: applying them and
    reading again gives the same table list and no further writes. The store is modelled as the
    booking table and the table list; the read is the same-day query of `getTables`. */
module SweepIdempotence {
  import opened Types
  import opened Reconcile

  /** The bookings `getTables` fetches: today's rows whose status is pending, confirmed or
      completed, in store order. */
  function TodayQuery(store: seq<Booking>, today: string): (r: seq<Booking>)
    ensures forall b :: b in r <==> b in store && Fetched(b, today)
  {
    if store == [] then []
    else
      var init, last := store[..|store| - 1], store[|store| - 1];
      assert store == init + [last];
      TodayQuery(init, today) + if Fetched(last, today) then [last] else []
  }

  predicate Fetched(b: Booking, today: string)
  {
    b.date == today && b.status in {Pending, Confirmed, Completed}
  }

  /** The store after `update bookings set status = st where id = id`. */
  function SetBookingStatus(store: seq<Booking>, id: string, st: BookingStatus): seq<Booking>
  {
    seq(|store|, k requires 0 <= k < |store| => if store[k].id == id then store[k].(status := st) else store[k])
  }

  /** The table list after `update tables set status = st where id = id`. */
  function SetTableStatus(tables: seq<TableRow>, id: string, st: TableStatus): seq<TableRow>
  {
    seq(|tables|, k requires 0 <= k < |tables| => if tables[k].id == id then tables[k].(status := st) else tables[k])
  }

  /** The booking table after the writes land, in order. */
  function ApplyToBookings(store: seq<Booking>, ws: seq<Write>): seq<Booking>
    decreases |ws|
  {
    if ws == [] then store
    else
      var next := match ws[0]
        case BookingStatusWrite(id, st) => SetBookingStatus(store, id, st)
        case TableStatusWrite(_, _) => store;
      ApplyToBookings(next, ws[1..])
  }

  /** The table list after the writes land, in order. */
  function ApplyToTables(tables: seq<TableRow>, ws: seq<Write>): seq<TableRow>
    decreases |ws|
  {
    if ws == [] then tables
    else
      var next := match ws[0]
        case TableStatusWrite(id, st) => SetTableStatus(tables, id, st)
        case BookingStatusWrite(_, _) => tables;
      ApplyToTables(next, ws[1..])
  }

  /** Every booking whose id is in `ids` marked no-show; the rest unchanged. */
  function MarkNoShow(store: seq<Booking>, ids: set<string>): seq<Booking>
  {
    seq(|store|, k requires 0 <= k < |store| => if store[k].id in ids then store[k].(status := NoShow) else store[k])
  }

  /** Every table whose id is in `ids` marked available; the rest unchanged. */
  function MarkAvailable(tables: seq<TableRow>, ids: set<string>): seq<TableRow>
  {
    seq(|tables|, k requires 0 <= k < |tables| => if tables[k].id in ids then tables[k].(status := Available) else tables[k])
  }

  function BookingIdsOf(ws: seq<Write>): set<string>
  {
    set w | w in ws && w.BookingStatusWrite? :: w.bookingId
  }

  function TableIdsOf(ws: seq<Write>): set<string>
  {
    set w | w in ws && w.TableStatusWrite? :: w.tableId
  }

  /** The bookings of `l` whose id is not in `ids`, in order. */
  function KeepIds(l: seq<Booking>, ids: set<string>): (r: seq<Booking>)
    ensures forall b :: b in r <==> b in l && b.id !in ids
  {
    if l == [] then []
    else
      var init, last := l[..|l| - 1], l[|l| - 1];
      assert l == init + [last];
      KeepIds(init, ids) + if last.id !in ids then [last] else []
  }

  predicate UniqueTableIds(tables: seq<TableRow>)
  {
    forall a, b :: a in tables && b in tables && a.id == b.id ==> a == b
  }

  // ---------------------------------------------------------------------------------------
  // Landing the writes

  /** Landing a list of `no_show` writes marks exactly the bookings they name. */
  lemma {:induction false} ApplyNoShows(store: seq<Booking>, ws: seq<Write>, marked: set<string>)
    requires forall w :: w in ws && w.BookingStatusWrite? ==> w.newStatus == NoShow
    ensures ApplyToBookings(MarkNoShow(store, marked), ws) == MarkNoShow(store, marked + BookingIdsOf(ws))
    decreases |ws|
  {
    if ws == [] {
      assert BookingIdsOf(ws) == {};
      assert marked + {} == marked;
    } else {
      var rest := ws[1..];
      assert forall w :: w in rest ==> w in ws;
      match ws[0]
      case BookingStatusWrite(id, st) =>
        assert SetBookingStatus(MarkNoShow(store, marked), id, st) == MarkNoShow(store, marked + {id});
        ApplyNoShows(store, rest, marked + {id});
        assert BookingIdsOf(ws) == {id} + BookingIdsOf(rest);
        assert marked + {id} + BookingIdsOf(rest) == marked + BookingIdsOf(ws);
      case TableStatusWrite(_, _) =>
        ApplyNoShows(store, rest, marked);
        assert BookingIdsOf(ws) == BookingIdsOf(rest);
    }
  }

  /** Landing a list of `available` writes marks exactly the tables they name. */
  lemma {:induction false} ApplyReleases(tables: seq<TableRow>, ws: seq<Write>, marked: set<string>)
    requires forall w :: w in ws && w.TableStatusWrite? ==> w.newTableStatus == Available
    ensures ApplyToTables(MarkAvailable(tables, marked), ws) == MarkAvailable(tables, marked + TableIdsOf(ws))
    decreases |ws|
  {
    if ws == [] {
      assert TableIdsOf(ws) == {};
      assert marked + {} == marked;
    } else {
      var rest := ws[1..];
      assert forall w :: w in rest ==> w in ws;
      match ws[0]
      case TableStatusWrite(id, st) =>
        assert SetTableStatus(MarkAvailable(tables, marked), id, st) == MarkAvailable(tables, marked + {id});
        ApplyReleases(tables, rest, marked + {id});
        assert TableIdsOf(ws) == {id} + TableIdsOf(rest);
        assert marked + {id} + TableIdsOf(rest) == marked + TableIdsOf(ws);
      case BookingStatusWrite(_, _) =>
        ApplyReleases(tables, rest, marked);
        assert TableIdsOf(ws) == TableIdsOf(rest);
    }
  }

  /** The same-day read after marking: the earlier read minus the marked bookings. */
  lemma {:induction false} QueryAfterMark(store: seq<Booking>, ids: set<string>, today: string)
    ensures TodayQuery(MarkNoShow(store, ids), today) == KeepIds(TodayQuery(store, today), ids)
  {
    if store != [] {
      var init, last := store[..|store| - 1], store[|store| - 1];
      var m := MarkNoShow(store, ids);
      var ml := m[|m| - 1];
      assert m[..|m| - 1] == MarkNoShow(init, ids);
      QueryAfterMark(init, ids, today);
      var q := TodayQuery(init, today);
      var k := KeepIds(q, ids);
      assert TodayQuery(m, today) == k + if Fetched(ml, today) then [ml] else [];
      if Fetched(last, today) {
        assert TodayQuery(store, today) == q + [last];
        KeepIdsSnoc(q, last, ids);
      } else {
        assert TodayQuery(store, today) == q;
      }
      if last.id in ids {
        assert !Fetched(ml, today);
        assert k + [] == k;
      } else {
        assert ml == last;
      }
    }
  }

  lemma KeepIdsSnoc(l: seq<Booking>, b: Booking, ids: set<string>)
    ensures KeepIds(l + [b], ids) == KeepIds(l, ids) + if b.id !in ids then [b] else []
  {
    assert (l + [b])[..|l|] == l;
  }

  // ---------------------------------------------------------------------------------------
  // The second read

  lemma {:induction false} ForTableSnoc(l: seq<Booking>, b: Booking, tid: string)
    ensures ForTable(l + [b], tid) == ForTable(l, tid) + if b.tableId == tid then [b] else []
  {
    assert (l + [b])[..|l|] == l;
  }

  /** Dropping the late bookings by id and then taking a table's list is the sweep of that
      table's list, as long as a key is swept exactly when its id is dropped. */
  lemma {:induction false} KeepIsSweep(l: seq<Booking>, ids: set<string>, swept: set<(string, string)>, tid: string)
    requires forall b :: b in l ==> ((b.tableId, b.id) in swept <==> b.id in ids)
    ensures ForTable(KeepIds(l, ids), tid) == Unswept(ForTable(l, tid), swept)
  {
    if l != [] {
      var init, last := l[..|l| - 1], l[|l| - 1];
      assert l == init + [last];
      assert forall b :: b in init ==> b in l;
      KeepIsSweep(init, ids, swept, tid);
      ForTableSnoc(init, last, tid);
      var k := KeepIds(init, ids);
      if last.id !in ids {
        assert KeepIds(l, ids) == k + [last];
        ForTableSnoc(k, last, tid);
      } else {
        assert KeepIds(l, ids) == k;
      }
      var f := ForTable(init, tid);
      if last.tableId == tid {
        UnsweptSnoc(f, last, swept);
      } else {
        assert ForTable(l, tid) == f + [];
        assert f + [] == f;
      }
    }
  }

  lemma {:induction false} NoLateNoWrites(bs: seq<Booking>, now: int, threshold: int)
    requires forall b :: b in bs ==> !IsLate(b, now, threshold)
    ensures NoShowWrites(bs, now, threshold) == []
  {
    if bs != [] {
      var init := bs[..|bs| - 1];
      assert forall b :: b in init ==> b in bs;
      NoLateNoWrites(init, now, threshold);
    }
  }

  lemma {:induction false} NoReleasedNoWrites(tables: seq<TableRow>, s: ShopSettings, fetched: seq<Booking>, now: int)
    requires forall t :: t in tables ==> !Released(t, s, fetched, now)
    ensures ReleaseWrites(tables, s, fetched, now) == []
  {
    if tables != [] {
      var init := tables[..|tables| - 1];
      assert forall t :: t in init ==> t in tables;
      NoReleasedNoWrites(init, s, fetched, now);
    }
  }

  /** Reading again after the no-show writes land gives every table the list the sweep left
      it, and finds nothing late. */
  lemma SecondRead(fetched: seq<Booking>, now: int, threshold: int)
    requires UniqueIds(fetched)
    ensures var late := set b | b in fetched && IsLate(b, now, threshold) :: b.id;
      var again := KeepIds(fetched, late);
      && (forall b :: b in again ==> !IsLate(b, now, threshold))
      && (forall tid :: Remaining(again, tid, now, threshold) == Remaining(fetched, tid, now, threshold))
  {
    var late := set b | b in fetched && IsLate(b, now, threshold) :: b.id;
    var again := KeepIds(fetched, late);
    var keys := LateKeys(fetched, now, threshold);
    forall b | b in fetched
      ensures (b.tableId, b.id) in keys <==> b.id in late
    {
      if b.id in late {
        var c :| c in fetched && IsLate(c, now, threshold) && c.id == b.id;
        assert c == b;
      }
      if (b.tableId, b.id) in keys {
        var c :| c in fetched && IsLate(c, now, threshold) && (c.tableId, c.id) == (b.tableId, b.id);
        assert c == b;
      }
    }
    assert LateKeys(again, now, threshold) == {};
    forall tid
      ensures Remaining(again, tid, now, threshold) == Remaining(fetched, tid, now, threshold)
    {
      KeepIsSweep(fetched, late, keys, tid);
      UnsweptNone(ForTable(again, tid));
    }
  }

  /** The table list after the release writes land: every table the first read released is
      stored as available, every other one keeps its stored status. */
  lemma ReleasedTables(tables: seq<TableRow>, s: ShopSettings, fetched: seq<Booking>, now: int)
    requires UniqueTableIds(tables)
    ensures var released := set t | t in tables && Released(t, s, fetched, now) :: t.id;
      forall i :: 0 <= i < |tables| ==>
        MarkAvailable(tables, released)[i]
          == if Released(tables[i], s, fetched, now) then tables[i].(status := Available) else tables[i]
  {
    var released := set t | t in tables && Released(t, s, fetched, now) :: t.id;
    forall i | 0 <= i < |tables|
      ensures tables[i].id in released <==> Released(tables[i], s, fetched, now)
    {
      if tables[i].id in released {
        var t :| t in tables && Released(t, s, fetched, now) && t.id == tables[i].id;
        assert t == tables[i];
      }
    }
  }

  // ---------------------------------------------------------------------------------------
  // Idempotence

  /** The bookings the writes of one `getTables` call name are the late pending ones. */
  lemma LateIdsWritten(tables: seq<TableRow>, s: ShopSettings, fetched: seq<Booking>, now: int)
    ensures BookingIdsOf(Writes(tables, Some(s), fetched, now))
            == set b | b in fetched && IsLate(b, now, Threshold(s)) :: b.id
  {
    var threshold := Threshold(s);
    var ws := Writes(tables, Some(s), fetched, now);
    NoShowWritesMembers(fetched, now, threshold);
    ReleaseWritesMembers(tables, s, fetched, now);
    var late := set b | b in fetched && IsLate(b, now, threshold) :: b.id;
    forall id ensures id in BookingIdsOf(ws) <==> id in late
    {
      if id in BookingIdsOf(ws) {
        var w :| w in ws && w.BookingStatusWrite? && w.bookingId == id;
        assert w in NoShowWrites(fetched, now, threshold);
        assert w == BookingStatusWrite(id, NoShow);
      }
      if id in late {
        assert BookingStatusWrite(id, NoShow) in ws;
      }
    }
  }

  /** The tables the writes of one `getTables` call name are the released ones. */
  lemma ReleasedIdsWritten(tables: seq<TableRow>, s: ShopSettings, fetched: seq<Booking>, now: int)
    ensures TableIdsOf(Writes(tables, Some(s), fetched, now))
            == set t | t in tables && Released(t, s, fetched, now) :: t.id
  {
    var threshold := Threshold(s);
    var ws := Writes(tables, Some(s), fetched, now);
    NoShowWritesMembers(fetched, now, threshold);
    ReleaseWritesMembers(tables, s, fetched, now);
    var released := set t | t in tables && Released(t, s, fetched, now) :: t.id;
    forall id ensures id in TableIdsOf(ws) <==> id in released
    {
      if id in TableIdsOf(ws) {
        var w :| w in ws && w.TableStatusWrite? && w.tableId == id;
        assert w in ReleaseWrites(tables, s, fetched, now);
        assert w == TableStatusWrite(id, Available);
      }
      if id in released {
        assert TableStatusWrite(id, Available) in ws;
      }
    }
  }

  /** The writes of one `getTables` call are exactly: `no_show` for each late pending booking
      of today's read, and `available` for each released table. */
  lemma WritesLand(store: seq<Booking>, tables: seq<TableRow>, s: ShopSettings, today: string, now: int)
    ensures var fetched := TodayQuery(store, today);
      var ws := Writes(tables, Some(s), fetched, now);
      && ApplyToBookings(store, ws)
         == MarkNoShow(store, set b | b in fetched && IsLate(b, now, Threshold(s)) :: b.id)
      && ApplyToTables(tables, ws)
         == MarkAvailable(tables, set t | t in tables && Released(t, s, fetched, now) :: t.id)
  {
    var fetched := TodayQuery(store, today);
    var ws := Writes(tables, Some(s), fetched, now);
    NoShowWritesMembers(fetched, now, Threshold(s));
    ReleaseWritesMembers(tables, s, fetched, now);
    assert MarkNoShow(store, {}) == store;
    assert MarkAvailable(tables, {}) == tables;
    ApplyNoShows(store, ws, {});
    ApplyReleases(tables, ws, {});
    LateIdsWritten(tables, s, fetched, now);
    ReleasedIdsWritten(tables, s, fetched, now);
    assert {} + BookingIdsOf(ws) == BookingIdsOf(ws);
    assert {} + TableIdsOf(ws) == TableIdsOf(ws);
  }

  /** Re-running `getTables` once its writes have landed issues no writes and returns the same
      table list: the reconciliation is idempotent. Booking ids and table ids are keys. */
  lemma SweepIdempotent(store: seq<Booking>, tables: seq<TableRow>, s: ShopSettings, today: string, now: int)
    requires UniqueIds(store) && UniqueTableIds(tables)
    ensures var fetched := TodayQuery(store, today);
      var ws := Writes(tables, Some(s), fetched, now);
      var store', tables' := ApplyToBookings(store, ws), ApplyToTables(tables, ws);
      && Writes(tables', Some(s), TodayQuery(store', today), now) == []
      && Views(tables', Some(s), TodayQuery(store', today), now) == Views(tables, Some(s), fetched, now)
  {
    var threshold := Threshold(s);
    var fetched := TodayQuery(store, today);
    var ws := Writes(tables, Some(s), fetched, now);
    var late := set b | b in fetched && IsLate(b, now, threshold) :: b.id;
    var released := set t | t in tables && Released(t, s, fetched, now) :: t.id;
    WritesLand(store, tables, s, today, now);
    var store', tables' := MarkNoShow(store, late), MarkAvailable(tables, released);
    QueryAfterMark(store, late, today);
    var again := TodayQuery(store', today);
    assert again == KeepIds(fetched, late);
    SecondRead(fetched, now, threshold);
    NoLateNoWrites(again, now, threshold);
    TablesAfterRelease(tables, s, fetched, again, now);
    assert Writes(tables', Some(s), again, now) == [] + [];
  }

  /** Once the release writes land, a read whose lists match the first one releases nothing
      more and gives every table the view it had. */
  lemma TablesAfterRelease(tables: seq<TableRow>, s: ShopSettings, fetched: seq<Booking>, again: seq<Booking>, now: int)
    requires UniqueTableIds(tables)
    requires forall tid :: Remaining(again, tid, now, Threshold(s)) == Remaining(fetched, tid, now, Threshold(s))
    ensures var tables' := MarkAvailable(tables, set t | t in tables && Released(t, s, fetched, now) :: t.id);
      && ReleaseWrites(tables', s, again, now) == []
      && Views(tables', Some(s), again, now) == Views(tables, Some(s), fetched, now)
  {
    var threshold := Threshold(s);
    var released := set t | t in tables && Released(t, s, fetched, now) :: t.id;
    var tables' := MarkAvailable(tables, released);
    ReleasedTables(tables, s, fetched, now);
    forall i | 0 <= i < |tables|
      ensures !Released(tables'[i], s, again, now)
      ensures ViewAt(tables'[i], Some(s), again, now) == ViewAt(tables[i], Some(s), fetched, now)
    {
      assert Remaining(again, tables[i].id, now, threshold) == Remaining(fetched, tables[i].id, now, threshold);
    }
    assert forall t :: t in tables' ==> !Released(t, s, again, now);
    NoReleasedNoWrites(tables', s, again, now);
  }
}
