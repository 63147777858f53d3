/** `getTableById` (src/services/bookingService.ts): one table row looked up by id, with the
    hourly rate of its type attached. */
module TableDetail {
  import opened Types
  import opened Reconcile

  /** The rows the `.eq('id', id)` query returns, in order. */
  function RowsWithId(tables: seq<TableRow>, id: string): (r: seq<TableRow>)
    ensures forall t :: t in r <==> t in tables && t.id == id
  {
    if tables == [] then []
    else
      var init, last := tables[..|tables| - 1], tables[|tables| - 1];
      assert tables == init + [last];
      RowsWithId(init, id) + if last.id == id then [last] else []
  }

  /** `getTableById`: the one row with that id and its hourly rate; nothing when no row or
      more than one row has it, since `.single()` fails then. */
  function TableById(tables: seq<TableRow>, id: string, settings: Option<ShopSettings>): (r: Option<(TableRow, int)>)
    ensures r.Some? <==> |RowsWithId(tables, id)| == 1
    ensures r.Some? ==> r.value.0 in tables && r.value.0.id == id
    ensures r.Some? && settings.None? ==> r.value.1 == 0
    ensures r.Some? && settings.Some? ==>
      r.value.1 == OrZero(if r.value.0.tableType == Vip then settings.value.vipPrice else settings.value.standardPrice)
  {
    var rows := RowsWithId(tables, id);
    if |rows| == 1 then
      assert rows[0] in rows;
      Some((rows[0], PricePerHour(rows[0].tableType, settings)))
    else None
  }

  lemma {:induction false} RowsWithIdUnique(tables: seq<TableRow>, i: int)
    requires 0 <= i < |tables|
    requires forall j :: 0 <= j < |tables| && j != i ==> tables[j].id != tables[i].id
    ensures RowsWithId(tables, tables[i].id) == [tables[i]]
  {
    var init, last := tables[..|tables| - 1], tables[|tables| - 1];
    if i == |tables| - 1 {
      NoRowsWithId(init, last.id);
    } else {
      RowsWithIdUnique(init, i);
    }
  }

  lemma {:induction false} NoRowsWithId(tables: seq<TableRow>, id: string)
    requires forall j :: 0 <= j < |tables| ==> tables[j].id != id
    ensures RowsWithId(tables, id) == []
  {
    if tables != [] {
      NoRowsWithId(tables[..|tables| - 1], id);
    }
  }

  /** A table whose id no other row shares is found, and the detail page quotes the same
      hourly rate as the table list. */
  lemma DetailAgreesWithList(tables: seq<TableRow>, i: int, settings: Option<ShopSettings>, fetched: seq<Booking>, now: int)
    requires 0 <= i < |tables|
    requires forall j :: 0 <= j < |tables| && j != i ==> tables[j].id != tables[i].id
    ensures TableById(tables, tables[i].id, settings) == Some((tables[i], Views(tables, settings, fetched, now)[i].pricePerHour))
  {
    RowsWithIdUnique(tables, i);
  }
}
