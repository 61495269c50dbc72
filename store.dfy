/** The `bookings` table and the queries the app runs on it: `insert_booking`,
    `update_status`, `slot_taken` and the ordering of `fetch_bookings`. */
module Store {
  import opened Text

  const NEW := "new"
  const CANCELLED := "cancelled"

  /** The `Booking` record: every column of the table except `id`. `bookingDate` is the
      date's ordinal; the app stores `date.isoformat()`, which is one-to-one and sorts
      as the dates do. */
  datatype Booking = Booking(
    createdAt: string, customerName: string, phone: string, suburb: string, address: string,
    bikeType: string, serviceName: string, servicePrice: int, addons: string, addonsPrice: int,
    travelZone: string, travelFee: int, bookingDate: int, bookingTime: string, notes: string,
    status: string)

  /** A stored row: the AUTOINCREMENT `id` and the booking. */
  datatype Row = Row(id: int, booking: Booking)

  /** The `total` column of the admin view: `service_price + addons_price + travel_fee`. */
  function Total(b: Booking): int {
    b.servicePrice + b.addonsPrice + b.travelFee
  }

  /** The WHERE clause of `slot_taken`: the row is for that date and time and is not cancelled. */
  predicate Occupies(r: Row, day: int, time: string) {
    r.booking.bookingDate == day && r.booking.bookingTime == time && r.booking.status != CANCELLED
  }

  /** `SELECT COUNT(*) FROM bookings WHERE booking_date=? AND booking_time=? AND status!='cancelled'`. */
  function CountOccupying(rows: seq<Row>, day: int, time: string): nat {
    if rows == [] then 0
    else (if Occupies(rows[0], day, time) then 1 else 0) + CountOccupying(rows[1..], day, time)
  }

  /** `slot_taken(d, t)`: the count is positive. */
  predicate Taken(rows: seq<Row>, day: int, time: string) {
    CountOccupying(rows, day, time) > 0
  }

  /** A slot is taken exactly when some row occupies it. */
  lemma {:induction false} TakenIff(rows: seq<Row>, day: int, time: string)
    ensures Taken(rows, day, time) <==> exists i :: 0 <= i < |rows| && Occupies(rows[i], day, time)
  {
    if rows != [] {
      TakenIff(rows[1..], day, time);
      if exists i :: 0 <= i < |rows[1..]| && Occupies(rows[1..][i], day, time) {
        var i :| 0 <= i < |rows[1..]| && Occupies(rows[1..][i], day, time);
        assert Occupies(rows[i + 1], day, time);
      }
      if exists i :: 0 <= i < |rows| && Occupies(rows[i], day, time) {
        var i :| 0 <= i < |rows| && Occupies(rows[i], day, time);
        if i > 0 {
          assert Occupies(rows[1..][i - 1], day, time);
        }
      }
    }
  }

  /** `UPDATE bookings SET status=? WHERE id=?`. */
  function SetStatus(rows: seq<Row>, id: int, status: string): (r: seq<Row>)
    ensures |r| == |rows|
    ensures forall i :: 0 <= i < |r| ==> r[i].id == rows[i].id
    ensures forall i :: 0 <= i < |r| && rows[i].id == id ==> r[i].booking == rows[i].booking.(status := status)
    ensures forall i :: 0 <= i < |r| && rows[i].id != id ==> r[i] == rows[i]
  {
    if rows == [] then []
    else
      var head := if rows[0].id == id then Row(id, rows[0].booking.(status := status)) else rows[0];
      [head] + SetStatus(rows[1..], id, status)
  }

  /** Updating an id that no row has changes nothing. */
  lemma SetStatusAbsent(rows: seq<Row>, id: int, status: string)
    requires forall i :: 0 <= i < |rows| ==> rows[i].id != id
    ensures SetStatus(rows, id, status) == rows
  {
  }

  /** After cancelling booking `id`, a slot is taken exactly when a row with another id
      occupies it: the cancelled booking frees its slot unless someone else holds it. */
  lemma CancelFrees(rows: seq<Row>, id: int, day: int, time: string)
    ensures Taken(SetStatus(rows, id, CANCELLED), day, time) <==>
      exists i :: 0 <= i < |rows| && rows[i].id != id && Occupies(rows[i], day, time)
  {
    var after := SetStatus(rows, id, CANCELLED);
    TakenIff(after, day, time);
    forall i | 0 <= i < |rows|
      ensures Occupies(after[i], day, time) <==> rows[i].id != id && Occupies(rows[i], day, time)
    {
    }
  }

  /** No two live (not cancelled) bookings share a date and a time. */
  predicate NoDoubleBooking(rows: seq<Row>) {
    forall i, j :: 0 <= i < j < |rows| && Occupies(rows[i], rows[j].booking.bookingDate, rows[j].booking.bookingTime) ==>
      rows[j].booking.status == CANCELLED
  }

  /** Adding a row for a slot that is not taken keeps the table free of double bookings. */
  lemma InsertKeepsNoDoubleBooking(rows: seq<Row>, r: Row)
    requires NoDoubleBooking(rows)
    requires !Taken(rows, r.booking.bookingDate, r.booking.bookingTime)
    ensures NoDoubleBooking(rows + [r])
  {
    TakenIff(rows, r.booking.bookingDate, r.booking.bookingTime);
    var all := rows + [r];
    forall i, j | 0 <= i < j < |all| && Occupies(all[i], all[j].booking.bookingDate, all[j].booking.bookingTime)
      ensures all[j].booking.status == CANCELLED
    {
      if j == |rows| {
        assert false;
      }
    }
  }

  /** Cancelling, or moving a live booking between live statuses, keeps the table free of
      double bookings. */
  lemma SetStatusKeepsNoDoubleBooking(rows: seq<Row>, id: int, status: string)
    requires NoDoubleBooking(rows)
    requires status == CANCELLED || forall i :: 0 <= i < |rows| && rows[i].id == id ==> rows[i].booking.status != CANCELLED
    ensures NoDoubleBooking(SetStatus(rows, id, status))
  {
    var after := SetStatus(rows, id, status);
    forall i, j | 0 <= i < j < |after| && Occupies(after[i], after[j].booking.bookingDate, after[j].booking.bookingTime)
      ensures after[j].booking.status == CANCELLED
    {
      assert Occupies(rows[i], rows[j].booking.bookingDate, rows[j].booking.bookingTime);
    }
  }

  /** A booking used to build small example tables. */
  function Sample(day: int, time: string, status: string): Booking {
    Booking("", "", "", "", "", "", "", 0, "None", 0, "", 0, day, time, "", status)
  }

  /** Reopening a cancelled booking is not checked against the slot: the admin can set a
      cancelled booking back to "new" after its slot was booked again. */
  lemma ReopenCanDoubleBook()
    ensures var rows := [Row(1, Sample(700000, "09:00", CANCELLED)), Row(2, Sample(700000, "09:00", NEW))];
      NoDoubleBooking(rows) && !NoDoubleBooking(SetStatus(rows, 1, NEW))
  {
    var rows := [Row(1, Sample(700000, "09:00", CANCELLED)), Row(2, Sample(700000, "09:00", NEW))];
    var after := SetStatus(rows, 1, NEW);
    assert Occupies(after[0], after[1].booking.bookingDate, after[1].booking.bookingTime);
  }

  /** `ORDER BY booking_date DESC, booking_time DESC, id DESC`: `a` is listed before `b`.
      TEXT is compared with SQLite's default BINARY collation. */
  predicate Before(a: Row, b: Row) {
    || a.booking.bookingDate > b.booking.bookingDate
    || (a.booking.bookingDate == b.booking.bookingDate && LexLess(b.booking.bookingTime, a.booking.bookingTime))
    || (a.booking.bookingDate == b.booking.bookingDate && a.booking.bookingTime == b.booking.bookingTime && a.id > b.id)
  }

  /** No row is listed after a row it should precede. */
  predicate Ordered(s: seq<Row>) {
    forall i, j :: 0 <= i < j < |s| ==> !Before(s[j], s[i])
  }

  lemma BeforeAsymmetric(a: Row, b: Row)
    requires Before(a, b)
    ensures !Before(b, a)
  {
    var x, y := a.booking.bookingTime, b.booking.bookingTime;
    if a.booking.bookingDate == b.booking.bookingDate && LexLess(y, x) && LexLess(x, y) {
      LexLessTransitive(x, y, x);
      LexLessIrreflexive(x);
    }
    if x == y {
      LexLessIrreflexive(x);
    }
  }

  /** "Not listed before" is transitive: the order by the three keys is total. */
  lemma NotBeforeTransitive(a: Row, b: Row, c: Row)
    requires !Before(b, a) && !Before(c, b)
    ensures !Before(c, a)
  {
    var ta, tb, tc := a.booking.bookingTime, b.booking.bookingTime, c.booking.bookingTime;
    if a.booking.bookingDate == b.booking.bookingDate == c.booking.bookingDate {
      if ta != tb {
        LexLessTotal(ta, tb);
      }
      if tb != tc {
        LexLessTotal(tb, tc);
      }
      if LexLess(tb, ta) && LexLess(tc, tb) {
        LexLessTransitive(tc, tb, ta);
      }
      if LexLess(tc, ta) {
        LexLessAsymmetric(tc, ta);
      } else {
        LexLessIrreflexive(ta);
      }
    }
  }

  /** Places `r` in front of the first row it should precede. */
  function InsertOrdered(r: Row, s: seq<Row>): (t: seq<Row>)
    requires Ordered(s)
    ensures Ordered(t)
    ensures multiset(t) == multiset(s) + multiset{r}
  {
    if s == [] then [r]
    else if Before(s[0], r) then
      var rest := InsertOrdered(r, s[1..]);
      ConsOrdered(s, r, rest);
      [s[0]] + rest
    else
      PrependOrdered(r, s);
      [r] + s
  }

  /** A row that precedes `r` stays in front of `r` inserted into the rows after it. */
  lemma ConsOrdered(s: seq<Row>, r: Row, rest: seq<Row>)
    requires s != [] && Ordered(s) && Before(s[0], r)
    requires Ordered(rest) && multiset(rest) == multiset(s[1..]) + multiset{r}
    ensures Ordered([s[0]] + rest)
    ensures multiset([s[0]] + rest) == multiset(s) + multiset{r}
  {
    assert s == [s[0]] + s[1..];
    forall k | 0 <= k < |rest| ensures !Before(rest[k], s[0]) {
      assert rest[k] in multiset(s[1..]) + multiset{r};
      if rest[k] == r {
        BeforeAsymmetric(s[0], r);
      } else {
        var m :| 0 <= m < |s[1..]| && s[1..][m] == rest[k];
        assert s[m + 1] == rest[k];
      }
    }
  }

  /** A row that no row of `s` should precede can go in front of `s`. */
  lemma PrependOrdered(r: Row, s: seq<Row>)
    requires Ordered(s) && (s == [] || !Before(s[0], r))
    ensures Ordered([r] + s)
  {
    forall j | 0 <= j < |s| ensures !Before(s[j], r) {
      if j > 0 {
        NotBeforeTransitive(r, s[0], s[j]);
      }
    }
  }

  /** The rows in `fetch_bookings` order. */
  function SortRows(s: seq<Row>): (t: seq<Row>)
    ensures Ordered(t)
    ensures multiset(t) == multiset(s)
  {
    if s == [] then []
    else
      assert s == [s[0]] + s[1..];
      InsertOrdered(s[0], SortRows(s[1..]))
  }

  /** Rows with different ids are strictly ordered. */
  lemma OrderedStrict(s: seq<Row>, i: nat, j: nat)
    requires Ordered(s) && i < j < |s| && s[i].id != s[j].id
    ensures Before(s[i], s[j])
  {
    var ti, tj := s[i].booking.bookingTime, s[j].booking.bookingTime;
    if ti != tj {
      LexLessTotal(ti, tj);
    }
  }

  /** The `bookings` table: its rows in insertion order and the next AUTOINCREMENT id. */
  class BookingTable {
    var rows: seq<Row>
    var nextId: int

    /** Ids are positive, increase along the table, and stay below the next id. */
    ghost predicate Valid()
      reads this
    {
      && nextId >= 1
      && (forall i :: 0 <= i < |rows| ==> 1 <= rows[i].id < nextId)
      && (forall i, j :: 0 <= i < j < |rows| ==> rows[i].id < rows[j].id)
    }

    /** `CREATE TABLE IF NOT EXISTS bookings`, on a new database file. */
    constructor()
      ensures Valid() && rows == [] && nextId == 1
    {
      rows := [];
      nextId := 1;
    }

    /** `insert_booking(conn, b)`: one new row with a fresh id; the rows already there
        are left as they were. */
    method InsertBooking(b: Booking)
      requires Valid()
      modifies this
      ensures Valid()
      ensures rows == old(rows) + [Row(old(nextId), b)] && nextId == old(nextId) + 1
      ensures forall i :: 0 <= i < |old(rows)| ==> old(rows)[i].id != old(nextId)
    {
      rows := rows + [Row(nextId, b)];
      nextId := nextId + 1;
    }

    /** `update_status(conn, booking_id, new_status)`: the status of the row with that id
        changes, nothing else does, and an unknown id changes nothing. */
    method UpdateStatus(id: int, status: string)
      requires Valid()
      modifies this
      ensures Valid()
      ensures rows == SetStatus(old(rows), id, status) && nextId == old(nextId)
      ensures (forall i :: 0 <= i < |old(rows)| ==> old(rows)[i].id != id) ==> rows == old(rows)
    {
      rows := SetStatus(rows, id, status);
    }

    /** `slot_taken(conn, d, t)`. */
    predicate SlotTaken(day: int, time: string)
      reads this
    {
      Taken(rows, day, time)
    }

    /** `fetch_bookings(conn)`: all rows, newest booking date and time first, ties broken
        by the larger id. */
    function FetchBookings(): (view: seq<Row>)
      reads this
      ensures Ordered(view)
      ensures multiset(view) == multiset(rows)
    {
      SortRows(rows)
    }
  }
}
