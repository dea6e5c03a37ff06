/**
 * The three tables of the backend's relational store (`config`, `news`,
 * `page_views`) as values, and the queries and row updates its route
 * handlers issue against them, as functions with their properties.
 */
module Tables {

  datatype Option<T> = None | Some(value: T) {
    function GetOr(default: T): T {
      match this
      case Some(v) => v
      case None => default
    }
  }

  /**
   * A DATETIME value: `date` is the calendar day (what DATE(...) extracts),
   * `time` the milliseconds into that day. Its time zone is the server's and
   * is not modelled.
   */
  datatype DateTime = DateTime(date: int, time: TimeOfDay)

  /** Milliseconds into a day: every instant has exactly one `DateTime`. */
  type TimeOfDay = t: int | 0 <= t < 86_400_000

  /** `a` is the same instant as `b` or a later one. */
  predicate AtOrAfter(a: DateTime, b: DateTime) {
    a.date > b.date || (a.date == b.date && a.time >= b.time)
  }

  // ---------------------------------------------------------------- config

  /** The three values a client sets with PUT /api/config. */
  datatype Settings = Settings(title: string, description: string, targetDate: string)

  /** A row of `config`; its id is the key of the table's map. */
  datatype ConfigRow = ConfigRow(settings: Settings, updatedAt: DateTime)

  /** The id of the singleton configuration row. */
  const ConfigId: int := 1

  /** What GET /api/config answers when the singleton row is absent. */
  const DefaultSettings: Settings :=
    Settings("হাদির হত্যার বিচারের দাবি",
             "শহীদ ওসমান হাদি হত্যার বিচারহীনতার সময়কাল",
             "2024-07-18T00:00:00")

  // ------------------------------------------------------------------ news

  /**
   * A row of `news`. `isActive` is the stored integer flag: the listing
   * selects `isActive = 1`, and the toggle applies SQL NOT to it.
   */
  datatype NewsRow = NewsRow(
    id: int,
    content: string,
    isActive: int,
    displayOrder: int,
    createdAt: DateTime,
    updatedAt: DateTime)

  /** `id` is the table's primary key. */
  predicate UniqueIds(rows: seq<NewsRow>) {
    forall i, j :: 0 <= i < j < |rows| ==> rows[i].id != rows[j].id
  }

  /** Every id is below the next value of the AUTO_INCREMENT counter. */
  predicate IdsBelow(rows: seq<NewsRow>, bound: int) {
    forall i :: 0 <= i < |rows| ==> rows[i].id < bound
  }

  /** The position of the row with key `id`, if there is one (the row `WHERE id = ?` matches). */
  function IndexOf(rows: seq<NewsRow>, id: int): (r: Option<nat>)
    ensures r.None? <==> forall k :: 0 <= k < |rows| ==> rows[k].id != id
    ensures r.Some? ==> r.value < |rows| && rows[r.value].id == id
  {
    if rows == [] then None
    else if rows[0].id == id then Some(0)
    else match IndexOf(rows[1..], id)
      case None => None
      case Some(k) => Some(k + 1)
  }

  /** With unique keys, the position of a row is determined by its key. */
  lemma IndexOfUnique(rows: seq<NewsRow>, k: nat)
    requires UniqueIds(rows) && k < |rows|
    ensures IndexOf(rows, rows[k].id) == Some(k)
  {
  }

  /**
   * Removing the row at position `i` removes exactly the rows with its key,
   * keeps every other row, and keeps the keys unique and below the counter.
   */
  lemma RemoveAtKey(rows: seq<NewsRow>, i: nat, bound: int)
    requires UniqueIds(rows) && IdsBelow(rows, bound) && i < |rows|
    ensures var rest := rows[..i] + rows[i + 1..];
      && UniqueIds(rest) && IdsBelow(rest, bound)
      && forall x :: x in rest <==> x in rows && x.id != rows[i].id
  {
    var rest := rows[..i] + rows[i + 1..];
    // position k of `rest` holds position k or k + 1 of `rows`
    assert forall k :: 0 <= k < |rest| ==> rest[k] == rows[if k < i then k else k + 1];
    forall x
      ensures x in rest <==> x in rows && x.id != rows[i].id
    {
      if x in rows && x.id != rows[i].id {
        var j :| 0 <= j < |rows| && rows[j] == x;
        assert rest[if j < i then j else j - 1] == x;
      }
    }
  }

  /** MySQL's NOT on an integer: 1 for 0, 0 for anything else. */
  function SqlNot(x: int): (r: int)
    ensures r == 0 || r == 1
    ensures r == 1 <==> x == 0
  {
    if x == 0 then 1 else 0
  }

  /** The row INSERT creates: the given values, both timestamps at their default, the time of the insert. */
  function NewRow(id: int, content: string, isActive: int, displayOrder: int, now: DateTime): NewsRow {
    NewsRow(id, content, isActive, displayOrder, now, now)
  }

  /** `SET content = ?, isActive = ?, displayOrder = ?, updatedAt = NOW()`. */
  function Updated(row: NewsRow, content: string, isActive: int, displayOrder: int, now: DateTime): NewsRow {
    row.(content := content, isActive := isActive, displayOrder := displayOrder, updatedAt := now)
  }

  /** `SET isActive = NOT isActive, updatedAt = NOW()`. */
  function Toggled(row: NewsRow, now: DateTime): NewsRow {
    row.(isActive := SqlNot(row.isActive), updatedAt := now)
  }

  /** The listing's filter: `WHERE isActive = 1`. */
  predicate Listed(row: NewsRow) {
    row.isActive == 1
  }

  /** A flag the way the frontend and the defaults write it: 1 or 0. */
  predicate BooleanFlag(row: NewsRow) {
    row.isActive == 0 || row.isActive == 1
  }

  /** Toggling changes the flag and the update time and no other column. */
  lemma ToggledKeepsColumns(row: NewsRow, now: DateTime)
    ensures var t := Toggled(row, now);
      t.id == row.id && t.content == row.content && t.displayOrder == row.displayOrder
      && t.createdAt == row.createdAt && t.updatedAt == now
    ensures BooleanFlag(Toggled(row, now))
  {
  }

  /** On a 1/0 flag one toggle takes the row out of the listing or puts it in. */
  lemma ToggleFlipsListing(row: NewsRow, now: DateTime)
    requires BooleanFlag(row)
    ensures Listed(Toggled(row, now)) <==> !Listed(row)
  {
  }

  /**
   * Toggling twice restores a 1/0 flag and every other column but the
   * update time; any other stored value comes back as 1.
   */
  lemma ToggleTwice(row: NewsRow, now1: DateTime, now2: DateTime)
    ensures BooleanFlag(row) ==> Toggled(Toggled(row, now1), now2) == row.(updatedAt := now2)
    ensures !BooleanFlag(row) ==> Toggled(Toggled(row, now1), now2) == row.(isActive := 1, updatedAt := now2)
  {
  }

  /** The rows `WHERE isActive = 1`, each as often as it is stored. */
  function ActiveRows(rows: seq<NewsRow>): (r: seq<NewsRow>)
    ensures |r| <= |rows|
    ensures forall x :: multiset(r)[x] == if Listed(x) then multiset(rows)[x] else 0
  {
    if rows == [] then []
    else
      var rest := ActiveRows(rows[1..]);
      assert rows == [rows[0]] + rows[1..];
      if Listed(rows[0]) then [rows[0]] + rest else rest
  }

  /** `ORDER BY displayOrder ASC, createdAt DESC`: `a` may come before `b`. */
  predicate Precedes(a: NewsRow, b: NewsRow) {
    a.displayOrder < b.displayOrder
    || (a.displayOrder == b.displayOrder && AtOrAfter(a.createdAt, b.createdAt))
  }

  predicate InListingOrder(rows: seq<NewsRow>) {
    forall i, j :: 0 <= i < j < |rows| ==> Precedes(rows[i], rows[j])
  }

  /** Places `x` into an ordered list, keeping it ordered. */
  function InsertInOrder(x: NewsRow, rows: seq<NewsRow>): (r: seq<NewsRow>)
    requires InListingOrder(rows)
    ensures InListingOrder(r)
    ensures multiset(r) == multiset(rows) + multiset{x}
  {
    if rows == [] then [x]
    else if Precedes(x, rows[0]) then [x] + rows
    else
      var rest := InsertInOrder(x, rows[1..]);
      assert rows == [rows[0]] + rows[1..];
      // every element of `rest` is `x` or a later element of `rows`
      assert forall k :: 0 <= k < |rest| ==> Precedes(rows[0], rest[k]) by {
        forall k | 0 <= k < |rest|
          ensures Precedes(rows[0], rest[k])
        {
          assert rest[k] in multiset(rest);
          if rest[k] != x {
            assert rest[k] in multiset(rows[1..]);
            var j :| 0 <= j < |rows[1..]| && rows[1..][j] == rest[k];
            assert rows[j + 1] == rest[k];
          }
        }
      }
      [rows[0]] + rest
  }

  /** The rows in the order the listing query returns them. */
  function SortForListing(rows: seq<NewsRow>): (r: seq<NewsRow>)
    ensures InListingOrder(r)
    ensures multiset(r) == multiset(rows)
  {
    if rows == [] then []
    else
      assert rows == [rows[0]] + rows[1..];
      InsertInOrder(rows[0], SortForListing(rows[1..]))
  }

  // ------------------------------------------------------------ page_views

  /** `COUNT(*) ... WHERE DATE(viewedAt) = day`. */
  function CountOnDay(views: seq<DateTime>, day: int): (n: nat)
    ensures n <= |views|
  {
    if views == [] then 0
    else CountOnDay(views[..|views| - 1], day) + (if views[|views| - 1].date == day then 1 else 0)
  }

  /** Recording one more view adds one to its own day's count and to no other. */
  lemma CountOnDayAppend(views: seq<DateTime>, v: DateTime, day: int)
    ensures CountOnDay(views + [v], day) == CountOnDay(views, day) + (if v.date == day then 1 else 0)
  {
    assert (views + [v])[..|views|] == views;
  }

  /** Every view is counted for the day exactly when every view falls on that day. */
  lemma {:induction false} CountOnDayAll(views: seq<DateTime>, day: int)
    ensures CountOnDay(views, day) == |views| <==> forall k :: 0 <= k < |views| ==> views[k].date == day
  {
    if views != [] {
      var init := views[..|views| - 1];
      CountOnDayAll(init, day);
      assert forall k :: 0 <= k < |init| ==> init[k] == views[k];
    }
  }

  /** No view is counted for the day exactly when no view falls on that day. */
  lemma {:induction false} CountOnDayNone(views: seq<DateTime>, day: int)
    ensures CountOnDay(views, day) == 0 <==> forall k :: 0 <= k < |views| ==> views[k].date != day
  {
    if views != [] {
      var init := views[..|views| - 1];
      CountOnDayNone(init, day);
      assert forall k :: 0 <= k < |init| ==> init[k] == views[k];
    }
  }
}
