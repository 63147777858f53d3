/** The 30-minute slot grid between opening and closing time, the "future only" filter of the
    booking form and its removal of slots that an existing booking occupies
    (src/pages/customer/BookingPage.tsx, `generateTimeSlots` and `loadData`). */
module SlotGrid {
  import opened Types
  import opened TimeOfDay

  const SlotMinutes: nat := 30

  /** Grid points `t, t + 30, ...` while the point is at most `endAdj - 30`. */
  function GridFrom(t: nat, endAdj: int): seq<nat>
    decreases endAdj - t
  {
    if t <= endAdj - SlotMinutes then [t] + GridFrom(t + SlotMinutes, endAdj) else []
  }

  /** The grid for the shop's hours, with the closing time pushed past midnight when it is not
      after the opening time. A malformed time is NaN and the loop never runs. */
  function Grid(open: string, close: string): seq<nat>
  {
    match (TimeToMinutes(open), TimeToMinutes(close))
    case (Some(o), Some(c)) => GridFrom(o, NormalizeEnd(o, c))
    case _ => []
  }

  /** The `i`-th grid point is `t + 30 * i`, never beyond `endAdj - 30`, and there are exactly
      as many points as fit. */
  lemma {:induction false} GridFromShape(t: nat, endAdj: int)
    ensures |GridFrom(t, endAdj)| == if t <= endAdj - SlotMinutes then (endAdj - SlotMinutes - t) / SlotMinutes + 1 else 0
    ensures forall i :: 0 <= i < |GridFrom(t, endAdj)| ==>
              GridFrom(t, endAdj)[i] == t + SlotMinutes * i && GridFrom(t, endAdj)[i] <= endAdj - SlotMinutes
    decreases endAdj - t
  {
    if t <= endAdj - SlotMinutes {
      GridFromShape(t + SlotMinutes, endAdj);
      var g := GridFrom(t, endAdj);
      var rest := GridFrom(t + SlotMinutes, endAdj);
      assert g == [t] + rest;
      forall i | 0 < i < |g|
        ensures g[i] == t + SlotMinutes * i && g[i] <= endAdj - SlotMinutes
      {
        assert g[i] == rest[i - 1];
      }
    }
  }

  /** Every grid slot lies in `[open, closeAdj - 30]`, consecutive slots are exactly 30 minutes
      apart (so the grid is strictly ascending), and a minute is on the grid exactly when it is
      in that range and a whole number of slots after opening. */
  lemma GridProperties(o: nat, c: nat)
    ensures var g := GridFrom(o, NormalizeEnd(o, c));
      && (forall i :: 0 <= i < |g| ==> o <= g[i] <= NormalizeEnd(o, c) - SlotMinutes)
      && (forall i :: 0 <= i < |g| - 1 ==> g[i + 1] == g[i] + SlotMinutes)
      && StrictlyAscending(g)
      && (forall x: nat :: x in g <==> o <= x <= NormalizeEnd(o, c) - SlotMinutes && (x - o) % SlotMinutes == 0)
  {
    var e := NormalizeEnd(o, c);
    var g := GridFrom(o, e);
    GridFromShape(o, e);
    forall x: nat | o <= x <= e - SlotMinutes && (x - o) % SlotMinutes == 0
      ensures x in g
    {
      var i := (x - o) / SlotMinutes;
      assert x == o + SlotMinutes * i;
      assert i < |g|;
      assert g[i] == x;
    }
  }

  /** The grid of well-formed hours is the grid between their minute values; a malformed time
      gives no grid at all. */
  lemma GridOfHours(open: string, close: string)
    ensures TimeToMinutes(open).Some? && TimeToMinutes(close).Some? ==>
      Grid(open, close) == GridFrom(TimeToMinutes(open).value, NormalizeEnd(TimeToMinutes(open).value, TimeToMinutes(close).value))
    ensures TimeToMinutes(open).None? || TimeToMinutes(close).None? ==> Grid(open, close) == []
  {
  }

  lemma ReadsAs(s: string, h: nat, m: nat)
    requires |s| == 5 && s[2] == ':' && h < 24 && m < 60
    requires s[0] == DigitChar(h / 10) && s[1] == DigitChar(h % 10)
    requires s[3] == DigitChar(m / 10) && s[4] == DigitChar(m % 10)
    ensures TimeToMinutes(s) == Some(h * 60 + m)
  {
    assert s == Pad2(h) + ":" + Pad2(m);
    ParseLabel(h, m);
  }

  /** With the shop open 10:00 to 02:00 the grid has 32 slots, 10:00 first and 01:30 last. */
  lemma OvernightGridExample()
    ensures |Grid("10:00", "02:00")| == 32
    ensures Grid("10:00", "02:00")[0] == 600 && Grid("10:00", "02:00")[31] == 1530
  {
    ReadsAs("10:00", 10, 0);
    ReadsAs("02:00", 2, 0);
    GridOfHours("10:00", "02:00");
    GridFromShape(600, 120 + MinutesPerDay);
  }

  lemma OvernightLabelsExample()
    ensures FormatMinutes(600) == "10:00" && FormatMinutes(1530) == "01:30"
  {
    assert FormatMinutes(600) == Pad2(10) + ":" + Pad2(0);
    assert FormatMinutes(1530) == Pad2(1) + ":" + Pad2(30);
  }

  /** The grid points strictly after `now`, in order. */
  function After(g: seq<nat>, now: int): (r: seq<nat>)
    ensures forall x :: x in r <==> x in g && x > now
    ensures IsSubsequence(r, g)
  {
    if g == [] then []
    else
      var init := g[..|g| - 1];
      var last := g[|g| - 1];
      assert g == init + [last];
      if last > now then After(init, now) + [last] else
        var r := After(init, now);
        assert r == [] || r[..|r| - 1] + [r[|r| - 1]] == r;
        r
  }

  /** `generateTimeSlots` keeps only future points when the selected date is today. */
  function TodayFilter(g: seq<nat>, isToday: bool, now: int): seq<nat>
  {
    if isToday then After(g, now) else g
  }

  /** The `HH:MM` labels of grid points, in order. */
  function Labels(ts: seq<nat>): (r: seq<string>)
    ensures |r| == |ts|
    ensures forall i :: 0 <= i < |ts| ==> r[i] == FormatMinutes(ts[i])
  {
    if ts == [] then [] else Labels(ts[..|ts| - 1]) + [FormatMinutes(ts[|ts| - 1])]
  }

  lemma GridStep(p: seq<nat>, x: nat, isToday: bool, now: int)
    ensures Labels(TodayFilter(p + [x], isToday, now))
         == Labels(TodayFilter(p, isToday, now)) + (if !isToday || x > now then [FormatMinutes(x)] else [])
  {
    assert (p + [x])[..|p|] == p;
    var f := TodayFilter(p, isToday, now);
    if !isToday || x > now {
      assert TodayFilter(p + [x], isToday, now) == f + [x];
      assert (f + [x])[..|f|] == f;
    }
  }

  /** One turn of a grid walk moves the current point from the rest of the grid to the part
      already walked; past the last point the rest is empty. */
  lemma GridAdvance(done: seq<nat>, t: nat, endAdj: int)
    ensures t <= endAdj - SlotMinutes ==>
      done + GridFrom(t, endAdj) == (done + [t]) + GridFrom(t + SlotMinutes, endAdj)
    ensures t > endAdj - SlotMinutes ==> done + GridFrom(t, endAdj) == done
  {
    if t <= endAdj - SlotMinutes {
      assert GridFrom(t, endAdj) == [t] + GridFrom(t + SlotMinutes, endAdj);
    } else {
      assert done + [] == done;
    }
  }

  /** `generateTimeSlots(open, close, selectedDate)`, with the clock read passed in as `today`
      and `nowMinutes`. */
  method GenerateTimeSlots(open: string, close: string, selectedDate: string, today: string, nowMinutes: int)
    returns (slots: seq<string>)
    ensures slots == Labels(TodayFilter(Grid(open, close), selectedDate == today, nowMinutes))
  {
    var isToday := selectedDate == today;
    var openMin, closeMin := TimeToMinutes(open), TimeToMinutes(close);
    if openMin.None? || closeMin.None? {
      return [];
    }
    var endTotal: int := closeMin.value;
    if endTotal <= openMin.value {
      endTotal := endTotal + MinutesPerDay;
    }
    assert Grid(open, close) == GridFrom(openMin.value, endTotal);
    slots := GridLoop(openMin.value, endTotal, isToday, nowMinutes);
  }

  /** The `while` loop of `generateTimeSlots`: walk the grid, pushing each label that passes
      the "today" filter. */
  method GridLoop(open: nat, endTotal: int, isToday: bool, nowMinutes: int) returns (slots: seq<string>)
    ensures slots == Labels(TodayFilter(GridFrom(open, endTotal), isToday, nowMinutes))
  {
    slots := [];
    var currentTotal := open;
    ghost var done: seq<nat> := [];
    while currentTotal <= endTotal - SlotMinutes
      invariant GridFrom(open, endTotal) == done + GridFrom(currentTotal, endTotal)
      invariant slots == Labels(TodayFilter(done, isToday, nowMinutes))
      decreases endTotal - currentTotal
    {
      GridStep(done, currentTotal, isToday, nowMinutes);
      GridAdvance(done, currentTotal, endTotal);
      if isToday {
        if currentTotal > nowMinutes {
          slots := slots + [FormatMinutes(currentTotal)];
        }
      } else {
        slots := slots + [FormatMinutes(currentTotal)];
      }
      done := done + [currentTotal];
      currentTotal := currentTotal + SlotMinutes;
    }
    GridAdvance(done, currentTotal, endTotal);
  }

  /** Booking `b` occupies minute `t`: `start <= t < end`, with `end` pushed past midnight when
      it is not after `start`. A malformed time (NaN) never occupies anything. */
  predicate Covers(b: Booking, t: int)
  {
    match (TimeToMinutes(b.startTime), TimeToMinutes(b.endTime))
    case (Some(s), Some(e)) => s <= t < NormalizeEnd(s, e)
    case _ => false
  }

  /** Some booking occupies the minute the slot label reads as. */
  predicate SlotTaken(slot: string, bookings: seq<Booking>)
  {
    match TimeToMinutes(slot)
    case Some(v) => exists b :: b in bookings && Covers(b, v)
    case None => false
  }

  /** The form's filter: the base slots no existing booking occupies, in order. */
  function FreeSlots(slots: seq<string>, bookings: seq<Booking>): (r: seq<string>)
    ensures forall s :: s in r <==> s in slots && !SlotTaken(s, bookings)
    ensures IsSubsequence(r, slots)
  {
    if slots == [] then []
    else
      var init := slots[..|slots| - 1];
      var last := slots[|slots| - 1];
      assert slots == init + [last];
      if !SlotTaken(last, bookings) then FreeSlots(init, bookings) + [last] else
        var r := FreeSlots(init, bookings);
        assert r == [] || r[..|r| - 1] + [r[|r| - 1]] == r;
        r
  }

  /** A grid label is taken exactly when a booking covers its minute reduced modulo one day:
      the form compares the wrapped label, not the grid minute. */
  lemma LabelTaken(t: nat, bookings: seq<Booking>)
    ensures SlotTaken(FormatMinutes(t), bookings) <==> exists b :: b in bookings && Covers(b, t % MinutesPerDay)
  {
    FormatThenParse(t);
  }

  /** A selected start time survives a reload only if it is still offered; otherwise it is
      cleared. */
  function KeptSelection(startTime: string, offered: seq<string>): (r: string)
    ensures r == "" || r in offered
    ensures r != "" ==> r == startTime
    ensures startTime in offered ==> r == startTime
  {
    if startTime != "" && startTime !in offered then "" else startTime
  }

  /** `loadData` for the booking form: the base grid, minus taken slots, and the selection
      reset. */
  method LoadFormSlots(open: string, close: string, selectedDate: string, today: string, nowMinutes: int,
                       existing: seq<Booking>, startTime: string)
    returns (offered: seq<string>, selection: string)
    ensures forall s :: s in offered <==>
      (exists t :: t in Grid(open, close) && (selectedDate == today ==> t > nowMinutes) && s == FormatMinutes(t))
      && !SlotTaken(s, existing)
    ensures IsSubsequence(offered, Labels(TodayFilter(Grid(open, close), selectedDate == today, nowMinutes)))
    ensures selection == "" || (selection == startTime && selection in offered)
    ensures startTime in offered ==> selection == startTime
  {
    var baseSlots := GenerateTimeSlots(open, close, selectedDate, today, nowMinutes);
    offered := FreeSlots(baseSlots, existing);
    selection := KeptSelection(startTime, offered);
    ghost var g := TodayFilter(Grid(open, close), selectedDate == today, nowMinutes);
    forall s
      ensures s in baseSlots <==>
        exists t :: t in Grid(open, close) && (selectedDate == today ==> t > nowMinutes) && s == FormatMinutes(t)
    {
      if s in baseSlots {
        var i :| 0 <= i < |baseSlots| && baseSlots[i] == s;
        assert g[i] in g;
      }
      if exists t :: t in Grid(open, close) && (selectedDate == today ==> t > nowMinutes) && s == FormatMinutes(t) {
        var t :| t in Grid(open, close) && (selectedDate == today ==> t > nowMinutes) && s == FormatMinutes(t);
        assert t in g;
        var i :| 0 <= i < |g| && g[i] == t;
        assert baseSlots[i] == s;
      }
    }
  }
}
