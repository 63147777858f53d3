/** Booking admission: the checks `handleSubmit` (src/pages/customer/BookingPage.tsx) runs on
    the form before it calls `createBooking`, the request it builds, and the rate limit and
    overlap checks `createBooking` (src/services/bookingService.ts) runs before it inserts. The
    store is a sequence of booking rows; the outcomes of the store calls (a failed count, a
    failed read, a failed insert, the id the store assigns) are inputs. */
module Admission {
  import opened Types
  import opened TimeOfDay
  import opened SlotGrid

  /** At most this many pending or confirmed bookings per phone number and date. */
  const MaxBookingsPerDay: nat := 5

  /** What `createBooking` is given: a booking without its id. */
  datatype BookingRequest = BookingRequest(
    tableId: string,
    customerName: string,
    customerPhone: string,
    date: string,
    startTime: string,
    endTime: string,
    status: BookingStatus,
    totalPrice: int,
    slipUrl: Option<string>)

  /** The outcomes of the store calls `createBooking` makes. */
  datatype StoreReplies = StoreReplies(countFailed: bool, checkFailed: bool, insertFailed: bool, newId: string)

  datatype AdmitError = RateLimitExceeded | CheckUnavailable | SlotConflict | InsertFailed

  /** The two overlap rules: on the raw minute values, or with each end pushed past midnight
      when it is not after its start. */
  datatype OverlapRule = RawMinutes | Normalised

  // ---------------------------------------------------------------------------------------
  // Phone normalisation and the store queries

  /** `phone.replace(/-/g, '')`: every dash removed, everything else kept in order. */
  function StripDashes(s: string): (r: string)
    ensures '-' !in r
    ensures IsSubsequence(r, s)
    ensures forall c :: c != '-' ==> multiset(r)[c] == multiset(s)[c]
  {
    if s == [] then []
    else
      var init, last := s[..|s| - 1], s[|s| - 1];
      assert s == init + [last];
      var r := StripDashes(init);
      SubsequenceSnoc(r, init, last);
      if last == '-' then r else r + [last]
  }

  /** A booking that holds its slot for the two checks: pending or confirmed. */
  predicate Holds(b: Booking)
  {
    b.status == Pending || b.status == Confirmed
  }

  /** The rows the rate-limit count sees. */
  function ForPhone(store: seq<Booking>, phone: string, date: string): (r: seq<Booking>)
    ensures forall b :: b in r <==> b in store && b.customerPhone == phone && b.date == date && Holds(b)
    ensures |r| <= |store|
  {
    if store == [] then []
    else
      var init, last := store[..|store| - 1], store[|store| - 1];
      assert store == init + [last];
      ForPhone(init, phone, date) + if last.customerPhone == phone && last.date == date && Holds(last) then [last] else []
  }

  /** The rows the overlap check sees. */
  function ForSlot(store: seq<Booking>, tableId: string, date: string): (r: seq<Booking>)
    ensures forall b :: b in r <==> b in store && b.tableId == tableId && b.date == date && Holds(b)
  {
    if store == [] then []
    else
      var init, last := store[..|store| - 1], store[|store| - 1];
      assert store == init + [last];
      ForSlot(init, tableId, date) + if last.tableId == tableId && last.date == date && Holds(last) then [last] else []
  }

  // ---------------------------------------------------------------------------------------
  // Overlap

  /** The half-open window `[start, end)` of a pair of times, the end pushed past midnight when
      it is not after the start; none when either time is malformed. */
  function Window(start: string, end: string): Option<(nat, int)>
  {
    match (TimeToMinutes(start), TimeToMinutes(end))
    case (Some(s), Some(e)) => Some((s, NormalizeEnd(s, e)))
    case _ => None
  }

  /** `newStart < existEnd && newEnd > existStart` on the raw minute values. A malformed time
      is NaN and every comparison with it is false. */
  predicate RawOverlap(newStart: string, newEnd: string, existStart: string, existEnd: string)
  {
    match (TimeToMinutes(newStart), TimeToMinutes(newEnd), TimeToMinutes(existStart), TimeToMinutes(existEnd))
    case (Some(ns), Some(ne), Some(es), Some(ee)) => ns < ee && ne > es
    case _ => false
  }

  /** The half-open windows of the two bookings intersect. */
  predicate Overlap(newStart: string, newEnd: string, existStart: string, existEnd: string)
  {
    match (Window(newStart, newEnd), Window(existStart, existEnd))
    case (Some(a), Some(b)) => a.0 < b.1 && a.1 > b.0
    case _ => false
  }

  predicate Clash(rule: OverlapRule, newStart: string, newEnd: string, existStart: string, existEnd: string)
  {
    match rule
    case RawMinutes => RawOverlap(newStart, newEnd, existStart, existEnd)
    case Normalised => Overlap(newStart, newEnd, existStart, existEnd)
  }

  /** The pair of minutes a rule compares: the start and the end as read, the end pushed past
      midnight under the normalised rule; none when either time is malformed. */
  function Span(rule: OverlapRule, start: string, end: string): Option<(nat, int)>
  {
    match (TimeToMinutes(start), TimeToMinutes(end))
    case (Some(s), Some(e)) => Some((s, if rule == RawMinutes then e else NormalizeEnd(s, e)))
    case _ => None
  }

  /** Under either rule, two bookings clash exactly when their spans intersect. */
  lemma SpanClash(rule: OverlapRule, newStart: string, newEnd: string, existStart: string, existEnd: string)
    ensures var a, b := Span(rule, newStart, newEnd), Span(rule, existStart, existEnd);
      Clash(rule, newStart, newEnd, existStart, existEnd) <==> a.Some? && b.Some? && a.value.0 < b.value.1 && a.value.1 > b.value.0
  {
  }

  /** Two windows that touch do not overlap, and overlap does not depend on which booking is
      the new one. */
  lemma OverlapProperties(s1: string, e1: string, s2: string, e2: string)
    ensures Overlap(s1, e1, s2, e2) <==> Overlap(s2, e2, s1, e1)
    ensures Window(s1, e1).Some? && Window(s2, e2).Some? && Window(s1, e1).value.1 == Window(s2, e2).value.0
            ==> !Overlap(s1, e1, s2, e2)
  {
  }

  // ---------------------------------------------------------------------------------------
  // createBooking

  /** The row `createBooking` inserts: the request with its phone stripped of dashes and the id
      the store assigns. */
  function NewRow(req: BookingRequest, id: string): Booking
  {
    Booking(id, req.tableId, req.customerName, StripDashes(req.customerPhone), req.date,
            req.startTime, req.endTime, req.status, req.totalPrice, req.slipUrl)
  }

  /** Some pending or confirmed booking of the same table and date clashes with the request. */
  predicate Conflicts(rule: OverlapRule, req: BookingRequest, store: seq<Booking>)
  {
    exists b :: b in ForSlot(store, req.tableId, req.date) && Clash(rule, req.startTime, req.endTime, b.startTime, b.endTime)
  }

  /** `createBooking` as a function of the store and the replies, under an overlap rule: the
      rate limit (skipped when the count fails), then the read for the overlap check, then the
      overlap check, then the insert. */
  function Admit(req: BookingRequest, store: seq<Booking>, replies: StoreReplies, rule: OverlapRule): Result<Booking, AdmitError>
  {
    var phone := StripDashes(req.customerPhone);
    if !replies.countFailed && |ForPhone(store, phone, req.date)| >= MaxBookingsPerDay then Err(RateLimitExceeded)
    else if replies.checkFailed then Err(CheckUnavailable)
    else if Conflicts(rule, req, store) then Err(SlotConflict)
    else if replies.insertFailed then Err(InsertFailed)
    else Ok(NewRow(req, replies.newId))
  }

  /** The store after the call: one more row on success, unchanged on any error. */
  function StoreAfter(store: seq<Booking>, outcome: Result<Booking, AdmitError>): seq<Booking>
  {
    if outcome.Ok? then store + [outcome.value] else store
  }

  /** `createBooking` under an overlap rule: `RawMinutes` is the comparison the code makes,
      `Normalised` the one that keeps the store free of double bookings. */
  method CreateBooking(req: BookingRequest, store: seq<Booking>, replies: StoreReplies, rule: OverlapRule)
    returns (outcome: Result<Booking, AdmitError>)
    ensures outcome == Admit(req, store, replies, rule)
  {
    var phone := StripDashes(req.customerPhone);
    var count := |ForPhone(store, phone, req.date)|;
    if !replies.countFailed && count >= MaxBookingsPerDay {
      return Err(RateLimitExceeded);
    }
    if replies.checkFailed {
      return Err(CheckUnavailable);
    }
    var existing := ForSlot(store, req.tableId, req.date);
    var clash := AnyOverlap(rule, req.startTime, req.endTime, existing);
    if clash {
      return Err(SlotConflict);
    }
    if replies.insertFailed {
      return Err(InsertFailed);
    }
    outcome := Ok(NewRow(req, replies.newId));
  }

  /** The overlap loop of `createBooking`: whether the new booking clashes, under the rule,
      with any of the fetched bookings; a booking whose times do not parse never clashes. */
  method AnyOverlap(rule: OverlapRule, start: string, end: string, existing: seq<Booking>) returns (clash: bool)
    ensures clash <==> exists b :: b in existing && Clash(rule, start, end, b.startTime, b.endTime)
  {
    var newSpan := Span(rule, start, end);
    for i := 0 to |existing|
      invariant forall j :: 0 <= j < i ==> !Clash(rule, start, end, existing[j].startTime, existing[j].endTime)
    {
      var existSpan := Span(rule, existing[i].startTime, existing[i].endTime);
      SpanClash(rule, start, end, existing[i].startTime, existing[i].endTime);
      if newSpan.Some? && existSpan.Some? {
        if newSpan.value.0 < existSpan.value.1 && newSpan.value.1 > existSpan.value.0 {
          assert existing[i] in existing;
          return true;
        }
      }
    }
    clash := false;
    forall b | b in existing
      ensures !Clash(rule, start, end, b.startTime, b.endTime)
    {
      var j :| 0 <= j < |existing| && existing[j] == b;
    }
  }

  /** What a successful call promises: no pending or confirmed booking of the table on that
      date clashes with the new one under the rule, the phone had fewer than five such bookings
      that day (unless the count failed), and the inserted row is the request with dashes
      stripped from the phone. Each error names the first check that failed. */
  lemma AdmitOutcome(req: BookingRequest, store: seq<Booking>, replies: StoreReplies, rule: OverlapRule)
    ensures var outcome := Admit(req, store, replies, rule);
      var phone := StripDashes(req.customerPhone);
      && (outcome.Ok? <==>
            && (replies.countFailed || |ForPhone(store, phone, req.date)| < MaxBookingsPerDay)
            && !replies.checkFailed
            && (forall b :: b in store && b.tableId == req.tableId && b.date == req.date && Holds(b)
                  ==> !Clash(rule, req.startTime, req.endTime, b.startTime, b.endTime))
            && !replies.insertFailed)
      && (outcome.Ok? ==>
            && outcome.value.id == replies.newId
            && outcome.value.customerPhone == phone
            && '-' !in outcome.value.customerPhone
            && (outcome.value.tableId, outcome.value.customerName, outcome.value.date) == (req.tableId, req.customerName, req.date)
            && (outcome.value.startTime, outcome.value.endTime) == (req.startTime, req.endTime)
            && (outcome.value.status, outcome.value.totalPrice, outcome.value.slipUrl) == (req.status, req.totalPrice, req.slipUrl))
      && (outcome == Err(SlotConflict) <==>
            && (replies.countFailed || |ForPhone(store, phone, req.date)| < MaxBookingsPerDay)
            && !replies.checkFailed
            && exists b :: b in store && b.tableId == req.tableId && b.date == req.date && Holds(b)
                  && Clash(rule, req.startTime, req.endTime, b.startTime, b.endTime))
  {
  }

  /** An admitted booking's start (a time of day, as every slot label is) is a minute no
      existing pending or confirmed booking of that table and date covers, so it is a slot the
      form's filter would still offer. */
  lemma AdmittedStartIsFree(req: BookingRequest, store: seq<Booking>, replies: StoreReplies, b: Booking)
    requires Admit(req, store, replies, Normalised).Ok?
    requires b in store && b.tableId == req.tableId && b.date == req.date && Holds(b)
    requires TimeToMinutes(req.startTime).Some? && TimeToMinutes(req.startTime).value < MinutesPerDay
    requires TimeToMinutes(req.endTime).Some?
    ensures !Covers(b, TimeToMinutes(req.startTime).value)
  {
    assert b in ForSlot(store, req.tableId, req.date);
    assert !Clash(Normalised, req.startTime, req.endTime, b.startTime, b.endTime);
    var ns, ne, bs, be := TimeToMinutes(req.startTime), TimeToMinutes(req.endTime), TimeToMinutes(b.startTime), TimeToMinutes(b.endTime);
    if bs.Some? && be.Some? {
      var a := (ns.value, NormalizeEnd(ns.value, ne.value));
      var w := (bs.value, NormalizeEnd(bs.value, be.value));
      assert Window(req.startTime, req.endTime) == Some(a);
      assert Window(b.startTime, b.endTime) == Some(w);
      assert !(a.0 < w.1 && a.1 > w.0);
      assert Covers(b, ns.value) <==> w.0 <= ns.value < w.1;
    }
  }

  // ---------------------------------------------------------------------------------------
  // Store invariants the checks keep

  /** No two pending or confirmed bookings of the same table and date overlap. */
  predicate NoDoubleBooking(store: seq<Booking>)
  {
    forall i, j :: 0 <= i < |store| && 0 <= j < |store| && i != j
      && store[i].tableId == store[j].tableId && store[i].date == store[j].date
      && Holds(store[i]) && Holds(store[j])
      ==> !Overlap(store[i].startTime, store[i].endTime, store[j].startTime, store[j].endTime)
  }

  /** Every successful `createBooking` keeps the store free of double bookings. */
  lemma AdmitKeepsNoDoubleBooking(req: BookingRequest, store: seq<Booking>, replies: StoreReplies)
    requires NoDoubleBooking(store)
    ensures NoDoubleBooking(StoreAfter(store, Admit(req, store, replies, Normalised)))
  {
    var outcome := Admit(req, store, replies, Normalised);
    if outcome.Ok? {
      var row := outcome.value;
      var s' := store + [row];
      forall i, j | 0 <= i < |s'| && 0 <= j < |s'| && i != j
        && s'[i].tableId == s'[j].tableId && s'[i].date == s'[j].date && Holds(s'[i]) && Holds(s'[j])
        ensures !Overlap(s'[i].startTime, s'[i].endTime, s'[j].startTime, s'[j].endTime)
      {
        if i == |store| {
          assert s'[j] in ForSlot(store, req.tableId, req.date);
        } else if j == |store| {
          assert s'[i] in ForSlot(store, req.tableId, req.date);
          OverlapProperties(s'[i].startTime, s'[i].endTime, s'[j].startTime, s'[j].endTime);
        } else {
          assert s'[i] == store[i] && s'[j] == store[j];
        }
      }
    }
  }

  /** At most five pending or confirmed bookings per phone and date. */
  predicate WithinRateLimit(store: seq<Booking>)
  {
    forall b :: b in store ==> |ForPhone(store, b.customerPhone, b.date)| <= MaxBookingsPerDay
  }

  lemma ForPhoneSnoc(store: seq<Booking>, b: Booking, phone: string, date: string)
    ensures ForPhone(store + [b], phone, date)
         == ForPhone(store, phone, date) + if b.customerPhone == phone && b.date == date && Holds(b) then [b] else []
  {
    assert (store + [b])[..|store|] == store;
  }

  /** When the count succeeds, `createBooking` never takes a phone past five bookings a day. */
  lemma AdmitKeepsRateLimit(req: BookingRequest, store: seq<Booking>, replies: StoreReplies, rule: OverlapRule)
    requires WithinRateLimit(store) && !replies.countFailed
    ensures WithinRateLimit(StoreAfter(store, Admit(req, store, replies, rule)))
  {
    var outcome := Admit(req, store, replies, rule);
    if outcome.Ok? {
      var s' := store + [outcome.value];
      var row := outcome.value;
      assert |ForPhone(store, row.customerPhone, row.date)| < MaxBookingsPerDay;
      forall b | b in s' ensures |ForPhone(s', b.customerPhone, b.date)| <= MaxBookingsPerDay
      {
        ForPhoneSnoc(store, row, b.customerPhone, b.date);
        if row.customerPhone != b.customerPhone || row.date != b.date {
          assert b in store;
        }
      }
    }
  }

  /** A failed count lets the call through whatever the count would have been. */
  lemma CountFailureSkipsLimit(req: BookingRequest, store: seq<Booking>, replies: StoreReplies, rule: OverlapRule)
    requires replies.countFailed
    ensures Admit(req, store, replies, rule) != Err(RateLimitExceeded)
  {
  }

  /** Five held bookings for a phone on a date reject a sixth that day; the same phone on
      another date is not limited by them. */
  lemma RateLimitExample(store: seq<Booking>, req: BookingRequest, other: string, replies: StoreReplies, rule: OverlapRule)
    requires |store| == 5 && other != req.date && !replies.countFailed
    requires forall b :: b in store ==> b.customerPhone == StripDashes(req.customerPhone) && b.date == req.date && Holds(b)
    ensures Admit(req, store, replies, rule) == Err(RateLimitExceeded)
    ensures Admit(req.(date := other), store, replies, rule) != Err(RateLimitExceeded)
  {
    var phone := StripDashes(req.customerPhone);
    ForPhoneAll(store, phone, req.date, other);
  }

  lemma {:induction false} ForPhoneAll(store: seq<Booking>, phone: string, date: string, other: string)
    requires other != date
    requires forall i :: 0 <= i < |store| ==> store[i].customerPhone == phone && store[i].date == date && Holds(store[i])
    ensures ForPhone(store, phone, date) == store
    ensures ForPhone(store, phone, other) == []
  {
    if store != [] {
      var init, last := store[..|store| - 1], store[|store| - 1];
      ForPhoneAll(init, phone, date, other);
      assert ForPhone(store, phone, date) == ForPhone(init, phone, date) + [last];
      assert store == init + [last];
    }
  }

  /** Dash-stripping is idempotent, so a stored phone is found again by its own normal form. */
  lemma {:induction false} StripDashesIdempotent(s: string)
    ensures StripDashes(StripDashes(s)) == StripDashes(s)
  {
    if s != [] {
      var init, last := s[..|s| - 1], s[|s| - 1];
      StripDashesIdempotent(init);
      var r := StripDashes(init);
      if last != '-' {
        assert (r + [last])[..|r|] == r;
      }
    }
  }

  // ---------------------------------------------------------------------------------------
  // The raw-minute check as written

  /** With the raw-minute check, a pending 23:00-01:00 booking does not stop a 23:30-00:30
      booking of the same table and date, although it covers the new start, and the store then
      holds two overlapping bookings; the normalised check rejects it. The times are given by
      the minutes they read as; `SlotGrid.ReadsAs` shows that "23:00", "01:00", "23:30" and
      "00:30" read so. */
  lemma RawCheckAdmitsDoubleBooking(store: seq<Booking>, req: BookingRequest, replies: StoreReplies)
    requires |store| == 1 && store[0].tableId == req.tableId && store[0].date == req.date && store[0].status == Pending
    requires TimeToMinutes(store[0].startTime) == Some(23 * 60) && TimeToMinutes(store[0].endTime) == Some(60)
    requires TimeToMinutes(req.startTime) == Some(23 * 60 + 30) && TimeToMinutes(req.endTime) == Some(30)
    requires req.status == Pending && store[0].customerPhone != StripDashes(req.customerPhone)
    requires !replies.countFailed && !replies.checkFailed && !replies.insertFailed
    ensures Admit(req, store, replies, RawMinutes).Ok?
    ensures Covers(store[0], TimeToMinutes(req.startTime).value)
    ensures NoDoubleBooking(store) && !NoDoubleBooking(StoreAfter(store, Admit(req, store, replies, RawMinutes)))
    ensures Admit(req, store, replies, Normalised) == Err(SlotConflict)
  {
    var e := store[0];
    var phone := StripDashes(req.customerPhone);
    assert store == [] + [e];
    assert ForPhone(store, phone, req.date) == [];
    assert ForSlot(store, req.tableId, req.date) == [e];
    assert !RawOverlap(req.startTime, req.endTime, e.startTime, e.endTime);
    assert !Conflicts(RawMinutes, req, store);
    assert Overlap(req.startTime, req.endTime, e.startTime, e.endTime);
    assert Conflicts(Normalised, req, store);
    var s' := StoreAfter(store, Admit(req, store, replies, RawMinutes));
    assert s'[0] == e && s'[1].startTime == req.startTime && s'[1].endTime == req.endTime;
    assert Overlap(s'[1].startTime, s'[1].endTime, s'[0].startTime, s'[0].endTime);
  }

  // ---------------------------------------------------------------------------------------
  // handleSubmit

  /** The booking form's fields. `duration` is the whole number of hours from the 1-5 select. */
  datatype Form = Form(name: string, phone: string, date: string, startTime: string, duration: nat)

  datatype FormError = NameTooShort | InvalidPhone | SlotNotSelected

  /** The characters `String.prototype.trim` removes: the white space characters (tab,
      vertical tab, form feed, the byte order mark and the space separators) and the line
      terminators of section 12.2 and 12.3 of ECMA-262. */
  predicate IsBlank(c: char)
  {
    || c == '\t' || c == '\U{B}' || c == '\U{C}' || c == '\U{FEFF}'
    || c == ' ' || c == '\U{A0}' || c == '\U{1680}' || '\U{2000}' <= c <= '\U{200A}'
    || c == '\U{202F}' || c == '\U{205F}' || c == '\U{3000}'
    || c == '\n' || c == '\r' || c == '\U{2028}' || c == '\U{2029}'
  }

  /** The number of blanks `s` starts with. */
  function LeadingBlanks(s: string): (k: nat)
    ensures k <= |s|
    ensures forall i :: 0 <= i < k ==> IsBlank(s[i])
    ensures k < |s| ==> !IsBlank(s[k])
  {
    if s != [] && IsBlank(s[0]) then
      var k := 1 + LeadingBlanks(s[1..]);
      assert forall i :: 1 <= i < k ==> s[i] == s[1..][i - 1];
      k
    else 0
  }

  /** The number of blanks `s` ends with. */
  function TrailingBlanks(s: string): (k: nat)
    ensures k <= |s|
    ensures forall i :: |s| - k <= i < |s| ==> IsBlank(s[i])
    ensures k < |s| ==> !IsBlank(s[|s| - 1 - k])
  {
    if s != [] && IsBlank(s[|s| - 1]) then
      var init := s[..|s| - 1];
      var k := 1 + TrailingBlanks(init);
      assert forall i :: 0 <= i < |init| ==> s[i] == init[i];
      k
    else 0
  }

  /** `s.trim()`: `s` without the blanks at either end; empty exactly when `s` is all blanks. */
  function Trim(s: string): (r: string)
    ensures |r| <= |s|
    ensures r == [] || (!IsBlank(r[0]) && !IsBlank(r[|r| - 1]))
    ensures r == [] <==> forall i :: 0 <= i < |s| ==> IsBlank(s[i])
    ensures exists i, j :: 0 <= i <= j <= |s| && r == s[i..j] && (forall k :: 0 <= k < i ==> IsBlank(s[k]))
                           && (forall k :: j <= k < |s| ==> IsBlank(s[k]))
  {
    var i := LeadingBlanks(s);
    var rest := s[i..];
    var j := TrailingBlanks(rest);
    TrimmedEnds(s, i, j);
    TrimmedSlice(s, i, j);
    rest[..|rest| - j]
  }

  /** What is left between the leading and the trailing blanks starts and ends with a
      non-blank, and is empty exactly when `s` is all blanks. */
  lemma TrimmedEnds(s: string, i: nat, j: nat)
    requires i == LeadingBlanks(s) && j == TrailingBlanks(s[i..])
    ensures var r := s[i..][..|s[i..]| - j];
      && (r == [] || (!IsBlank(r[0]) && !IsBlank(r[|r| - 1])))
      && (r == [] <==> forall k :: 0 <= k < |s| ==> IsBlank(s[k]))
  {
    var rest := s[i..];
    var r := rest[..|rest| - j];
    assert r != [] ==> r[0] == rest[0] && r[|r| - 1] == rest[|rest| - 1 - j];
    assert r != [] ==> !IsBlank(s[i]);
    assert forall k :: i <= k < |s| ==> s[k] == rest[k - i];
  }

  /** What is left between the leading and the trailing blanks is a slice of `s` with only
      blanks outside it. */
  lemma TrimmedSlice(s: string, i: nat, j: nat)
    requires i == LeadingBlanks(s) && j == TrailingBlanks(s[i..])
    ensures var r := s[i..][..|s[i..]| - j];
      exists i, j :: 0 <= i <= j <= |s| && r == s[i..j] && (forall k :: 0 <= k < i ==> IsBlank(s[k]))
                  && (forall k :: j <= k < |s| ==> IsBlank(s[k]))
  {
    var rest := s[i..];
    var e := |s| - j;
    assert rest[..|rest| - j] == s[i..e];
    forall k | e <= k < |s| ensures IsBlank(s[k]) {
      assert s[k] == rest[k - i];
    }
  }

  /** `s.replace(/\D/g, '')`: the ASCII digits of `s`, in order. */
  function DigitsOf(s: string): (r: string)
    ensures AllDigits(r)
    ensures IsSubsequence(r, s)
    ensures forall c :: IsDigit(c) ==> multiset(r)[c] == multiset(s)[c]
  {
    if s == [] then []
    else
      var init, last := s[..|s| - 1], s[|s| - 1];
      assert s == init + [last];
      var r := DigitsOf(init);
      SubsequenceSnoc(r, init, last);
      if IsDigit(last) then r + [last] else r
  }

  /** The end time `handleSubmit` computes: start plus the duration, the hour taken modulo 24;
      a malformed start gives the text JavaScript prints for NaN. */
  function EndTime(startTime: string, duration: nat): (r: string)
    ensures TimeToMinutes(startTime).Some? ==>
      TimeToMinutes(r) == Some((TimeToMinutes(startTime).value + 60 * duration) % MinutesPerDay)
  {
    match TimeToMinutes(startTime)
    case Some(m) =>
      FormatThenParse(m + 60 * duration);
      FormatMinutes(m + 60 * duration)
    case None => "NaN:NaN"
  }

  /** What the form hands to `createBooking`, or the message it shows instead. The table id
      comes from the route (`id || '1'`); `pricePerHour` is the loaded table's rate. */
  function Submit(form: Form, routeId: string, pricePerHour: int, slipUrl: Option<string>): Result<BookingRequest, FormError>
  {
    match FirstFormError(form)
    case Some(e) => Err(e)
    case None => Ok(RequestOf(form, routeId, pricePerHour, slipUrl))
  }

  /** The first of the form's three checks that fails, if any. */
  function FirstFormError(form: Form): Option<FormError>
  {
    if |Trim(form.name)| < 2 then Some(NameTooShort)
    else if |DigitsOf(form.phone)| < 9 || |DigitsOf(form.phone)| > 10 then Some(InvalidPhone)
    else if form.startTime == "" then Some(SlotNotSelected)
    else None
  }

  function RequestOf(form: Form, routeId: string, pricePerHour: int, slipUrl: Option<string>): BookingRequest
  {
    BookingRequest(
      if routeId == "" then "1" else routeId,
      form.name, form.phone, form.date, form.startTime,
      EndTime(form.startTime, form.duration),
      Pending, pricePerHour * form.duration, slipUrl)
  }

  /** The checks run in order and the first failure is the one reported; only a form that
      passes all three reaches `createBooking`. */
  lemma SubmitChecks(form: Form, routeId: string, pricePerHour: int, slipUrl: Option<string>)
    ensures var out := Submit(form, routeId, pricePerHour, slipUrl);
      var nameOk := |Trim(form.name)| >= 2;
      var phoneOk := 9 <= |DigitsOf(form.phone)| <= 10;
      && (out == Err(NameTooShort) <==> !nameOk)
      && (out == Err(InvalidPhone) <==> nameOk && !phoneOk)
      && (out == Err(SlotNotSelected) <==> nameOk && phoneOk && form.startTime == "")
      && (out.Ok? <==> nameOk && phoneOk && form.startTime != "")
  {
  }

  /** A form that passes becomes a pending booking for the routed table (table "1" without a
      route id), priced at the hourly rate times the hours, with the phone as typed, ending
      `duration` hours after it starts (`EndTime`). */
  lemma SubmitRequest(form: Form, routeId: string, pricePerHour: int, slipUrl: Option<string>)
    requires Submit(form, routeId, pricePerHour, slipUrl).Ok?
    ensures var req := Submit(form, routeId, pricePerHour, slipUrl).value;
      && req.status == Pending
      && req.totalPrice == pricePerHour * form.duration
      && req.tableId == (if routeId == "" then "1" else routeId)
      && (req.customerName, req.customerPhone, req.date, req.startTime) == (form.name, form.phone, form.date, form.startTime)
      && req.slipUrl == slipUrl
      && req.endTime == EndTime(form.startTime, form.duration)
  {
  }

  /** For a start on the clock face and a stay of 1 to 23 hours, the booked window (its end
      pushed past midnight when needed) is exactly the duration long. */
  lemma WindowSpansDuration(startTime: string, duration: nat)
    requires TimeToMinutes(startTime).Some? && TimeToMinutes(startTime).value < MinutesPerDay
    requires 1 <= duration < 24
    ensures Window(startTime, EndTime(startTime, duration)).Some?
    ensures var w := Window(startTime, EndTime(startTime, duration)).value;
      w.1 - w.0 == 60 * duration
  {
    var m := TimeToMinutes(startTime).value;
    var e := (m + 60 * duration) % MinutesPerDay;
    assert TimeToMinutes(EndTime(startTime, duration)) == Some(e);
    DayWrap(m + 60 * duration);
  }

  /** A 23:00 start for two hours ends at 01:00. */
  lemma EndTimeExample(start: string)
    requires TimeToMinutes(start) == Some(23 * 60)
    ensures EndTime(start, 2) == "01:00"
  {
    assert FormatMinutes(23 * 60 + 120) == Pad2(1) + ":" + Pad2(0);
  }
}
