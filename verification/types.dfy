/** The records the booking engine reads and writes (src/types/index.ts and the row shapes of
    the booking service), as values. Strings stand for the store's text columns. */
module Types {

  datatype Option<T> = None | Some(value: T)

  datatype Result<T, E> = Ok(value: T) | Err(error: E)

  datatype BookingStatus = Pending | Confirmed | Completed | Cancelled | NoShow

  datatype TableType = Standard | Vip

  datatype TableStatus = Available | Occupied | Maintenance

  /** A booking row. `createdAt` is assigned by the store and plays no part in any rule. */
  datatype Booking = Booking(
    id: string,
    tableId: string,
    customerName: string,
    customerPhone: string,
    date: string,
    startTime: string,
    endTime: string,
    status: BookingStatus,
    totalPrice: int,
    slipUrl: Option<string>)

  /** A table row as stored: price and availability are derived, never stored. */
  datatype TableRow = TableRow(id: string, name: string, tableType: TableType, status: TableStatus)

  /** The singleton settings row. A missing numeric column is `None`. */
  datatype ShopSettings = ShopSettings(
    openTime: string,
    closeTime: string,
    standardPrice: Option<int>,
    vipPrice: Option<int>,
    lateThreshold: Option<int>)

  /** A status write the booking service issues against the store. */
  datatype Write =
    | BookingStatusWrite(bookingId: string, newStatus: BookingStatus)
    | TableStatusWrite(tableId: string, newTableStatus: TableStatus)

  /** `x || 0` on a numeric column: a missing value (or 0) reads as 0. */
  function OrZero(x: Option<int>): int
  {
    match x
    case None => 0
    case Some(v) => v
  }

  /** `a` is obtained from `b` by deleting elements, keeping the order of the rest. */
  predicate IsSubsequence<T(==)>(a: seq<T>, b: seq<T>)
    decreases |b|
  {
    if a == [] then true
    else if b == [] then false
    else if a[|a| - 1] == b[|b| - 1] && IsSubsequence(a[..|a| - 1], b[..|b| - 1]) then true
    else IsSubsequence(a, b[..|b| - 1])
  }

  /** Appending the same element to both sides, or only to the longer one, keeps a
      subsequence a subsequence. */
  lemma SubsequenceSnoc<T>(a: seq<T>, b: seq<T>, x: T)
    requires IsSubsequence(a, b)
    ensures IsSubsequence(a + [x], b + [x])
    ensures IsSubsequence(a, b + [x])
  {
    assert (a + [x])[..|a|] == a;
    assert (b + [x])[..|b|] == b;
  }

  /** Strictly increasing. */
  predicate StrictlyAscending(s: seq<nat>)
  {
    forall i, j :: 0 <= i < j < |s| ==> s[i] < s[j]
  }

  /** Deleting elements keeps only elements that were there. */
  lemma {:induction false} SubsequenceMembers<T>(a: seq<T>, b: seq<T>)
    requires IsSubsequence(a, b)
    ensures forall x :: x in a ==> x in b
    decreases |b|
  {
    if a != [] {
      var b' := b[..|b| - 1];
      assert forall x :: x in b' ==> x in b;
      if a[|a| - 1] == b[|b| - 1] && IsSubsequence(a[..|a| - 1], b') {
        SubsequenceMembers(a[..|a| - 1], b');
        assert a == a[..|a| - 1] + [a[|a| - 1]];
      } else {
        SubsequenceMembers(a, b');
      }
    }
  }

  /** Deleting elements from a strictly increasing list leaves it strictly increasing. */
  lemma {:induction false} SubsequenceAscending(a: seq<nat>, b: seq<nat>)
    requires IsSubsequence(a, b) && StrictlyAscending(b)
    ensures StrictlyAscending(a)
    decreases |b|
  {
    if a != [] {
      var a', b' := a[..|a| - 1], b[..|b| - 1];
      if a[|a| - 1] == b[|b| - 1] && IsSubsequence(a', b') {
        SubsequenceAscending(a', b');
        SubsequenceMembers(a', b');
        forall i | 0 <= i < |a'| ensures a[i] < a[|a| - 1]
        {
          assert a[i] == a'[i] && a'[i] in b';
          var k :| 0 <= k < |b'| && b'[k] == a'[i];
          assert b[k] == a[i];
        }
      } else {
        SubsequenceAscending(a, b');
      }
    }
  }
}
