# Countdown site: elapsed-time display and backend tables

This project models the two parts of the countdown/announcement site that hold logic, and proves properties about them.

- **The countdown's elapsed-time computation** (`countdown_timer.dfy`, module `CountdownTimer`). On every tick the component computes `now - targetDate` in milliseconds. When that difference is positive, it splits it into whole days, hours, minutes and seconds, and the result replaces the displayed `timeLeft` tuple as a whole. When it is not positive, the tuple stays as it was, and it starts as all zeros. The model keeps the direction the component uses: time elapsed *since* the target, not time left until it. Clock readings and the parsed target date are integer milliseconds passed in as parameters.
- **The backend's route handlers** (`tables.dfy`, module `Tables`, and `server.dfy`, module `Server`). A `Database` object holds the three tables in memory:
  - `config`: a map from id to row; the handlers only use id 1.
  - `news`: a sequence of rows with a unique key.
  - `page_views`: a sequence of timestamps.

  It also holds the `news` table's AUTO_INCREMENT counter: each insert receives a fresh id larger than every id given before, and the step between successive ids is left open, as AUTO_INCREMENT may skip values. Each handler is a method that runs its query or queries on those fields and answers `Ok` (200), `BadRequest` (400) or `NotFound` (404). `NOW()` and `CURDATE()` are parameters. A `DateTime` is a calendar day plus a time within the day, so `DATE(viewedAt)` is its `date` field.

The SQL `WHERE id = ?` scans, the filter and the `ORDER BY` of the listing are recursive functions in `Tables`. Their contracts state what the query guarantees:
- the matched row;
- exactly the active rows, each as often as it is stored;
- ordered by `displayOrder` ascending, then `createdAt` descending.

The order of rows that tie on both keys is left open, as in SQL.

Behaviour of the code worth noting:
- `isActive` is kept as the integer the client stored, not as a boolean. The listing selects `isActive = 1`, and the toggle applies MySQL's `NOT`, which maps 0 to 1 and any other value to 0. So toggling twice restores the flag, and the row's whole content except `updatedAt`, only when the flag was 0 or 1. A stored 2, for example, comes back as 1 (`Tables.ToggleTwice`).
- Once the target date has passed, a tick at a clock reading not past the target does not reset the display to zeros: it leaves the previous tuple in place. Any tick less than one second past the current target shows (0, 0, 0, 0), whatever was shown before, so a clock stepped back or a new target can bring the zeros back (`CountdownTimer.SubSecondShowsZeros`). Against one target date and with a clock that does not go backwards, the display is all zeros only until a tick falls at least one second after the target (`CountdownTimer.ZerosUntilFirstSecond`, `CountdownTimer.TicksFromMount`).

Assumptions about the schema, which is not part of this model:
- The `INSERT` statements leave `createdAt` and `updatedAt` to their column defaults. These are taken to be the time of the insert (`CURRENT_TIMESTAMP`).
- An `UPDATE` counts as affecting a row whenever a row matches, even when it changes no value (two identical requests within the same second of `NOW()`). That holds because the mysql2 client sets the CLIENT_FOUND_ROWS flag by default, so `affectedRows` reports matched rows.
- The `config` columns store `title`, `description` and `targetDate` verbatim as strings and return them unchanged.

## Model

| member | source | states |
|---|---|---|
| `CountdownTimer.Decompose` | src/components/CountdownTimer.jsx:24-27 | For a positive difference: days ≥ 0, hours in 0..23, minutes and seconds in 0..59, and d·86400000 + h·3600000 + m·60000 + s·1000 ≤ difference < that sum + 1000 |
| `CountdownTimer.CalculateTimeLeft` | src/components/CountdownTimer.jsx:19-31 | With difference = now − targetDate: if positive, the new tuple is the in-range whole-second reading of the difference, all four fields at once; otherwise the tuple is exactly the old one |
| `CountdownTimer.DecomposeUnique` | src/components/CountdownTimer.jsx:24-27 | Any in-range tuple within a second below the difference equals the decomposition, so the ranges and the reconstruction bound fully determine the result |
| `CountdownTimer.DecomposeMillis` | src/components/CountdownTimer.jsx:24-27 | Round trip: decomposing the milliseconds of an in-range tuple plus a leftover below one second gives back the tuple |
| `CountdownTimer.DecomposeExample` | src/components/CountdownTimer.jsx:24-27 | 90,061,001 ms reads as (1, 1, 1, 1): the leftover millisecond is floored away |
| `CountdownTimer.RepresentsMonotone` | src/components/CountdownTimer.jsx:24-27 | Readings of a larger difference never show less time or fewer days |
| `CountdownTimer.DecomposeMonotone` | src/components/CountdownTimer.jsx:21-27 | A larger difference never decomposes to less time or fewer days |
| `CountdownTimer.NotYetStaysInitial` | src/components/CountdownTimer.jsx:6-30 | From the initial state, a reading not past the target leaves the display at (0, 0, 0, 0) |
| `CountdownTimer.CalculateMonotone` | src/components/CountdownTimer.jsx:20-30 | From the initial state, a later `now` never shows less elapsed time, and the days never decrease |
| `CountdownTimer.ZerosUntilFirstSecond` | src/components/CountdownTimer.jsx:20-30 | A tick past the target leaves the display at (0, 0, 0, 0) exactly when it falls less than one second after the target |
| `CountdownTimer.SubSecondShowsZeros` | src/components/CountdownTimer.jsx:19-31 | From any displayed state, a tick less than one second past the target shows (0, 0, 0, 0) |
| `CountdownTimer.Ticks` | src/components/CountdownTimer.jsx:33-34 | Repeated calls against one target: readings never past the target leave the state unchanged; a last reading past the target alone decides the display |
| `CountdownTimer.TicksShowLastReading` | src/components/CountdownTimer.jsx:19-34 | Against one target date, with a clock that does not go backwards, a run of ticks ends in what a single tick at the last reading shows: no field is left over from an earlier tick |
| `CountdownTimer.TicksFromMount` | src/components/CountdownTimer.jsx:6-34 | Starting from the all-zero state at mount, the same holds for every run of ticks against one target date |
| `CountdownTimer.TargetChangeKeepsReading` | src/components/CountdownTimer.jsx:6-37 | When the target date changes, the state is not reset: while the new target is not passed, the reading taken against the old target stays on display |
| `Tables.IndexOf` | backend/server.js:152 | `WHERE id = ?`: no position exactly when no row has the key; otherwise a position whose row has the key |
| `Tables.IndexOfUnique` | backend/server.js:152 | With a unique key, the row at position k is the one its key finds |
| `Tables.RemoveAtKey` | backend/server.js:213 | Deleting the matched row removes exactly the rows with that key, keeps all others, and keeps the keys unique and below the counter |
| `Tables.SqlNot` | backend/server.js:230 | `NOT isActive` is 1 exactly when the flag was 0, and 0 otherwise |
| `Tables.ToggledKeepsColumns` | backend/server.js:229-231 | The toggle changes only the flag and `updatedAt`, and leaves the flag at 0 or 1 |
| `Tables.ToggleFlipsListing` | backend/server.js:229-231 | On a 0/1 flag, one toggle moves the row into or out of the active listing |
| `Tables.ToggleTwice` | backend/server.js:229-231 | Toggling twice restores a 0/1 flag and every column except `updatedAt`; any other stored value comes back as 1 |
| `Tables.ActiveRows` | backend/server.js:140 | `WHERE isActive = 1`: each row with flag 1 appears as often as it is stored, and no other row appears |
| `Tables.InsertInOrder` | backend/server.js:140 | Inserting into a list ordered by (displayOrder ASC, createdAt DESC) keeps it ordered and adds exactly that row |
| `Tables.SortForListing` | backend/server.js:140 | The result is ordered by displayOrder ascending, then createdAt descending, and is a permutation of the input |
| `Tables.CountOnDay` | backend/server.js:98-100 | The count of views dated on the given day is at most the total |
| `Tables.CountOnDayAppend` | backend/server.js:86 | Recording one view adds one to the count of its own day and nothing to any other day |
| `Tables.CountOnDayAll` | backend/server.js:97-105 | Today's count equals the total exactly when every view is dated today |
| `Tables.CountOnDayNone` | backend/server.js:98-100 | The day's count is zero exactly when no view is dated that day |
| `Server.Database.GetConfig` | backend/server.js:41-50 | Returns the id-1 row when it exists; otherwise the fixed default (title, description, '2024-07-18T00:00:00'); never not-found |
| `Server.Database.SetConfig` | backend/server.js:63-74 | UPDATE, then INSERT if no row was affected: afterwards the one id-1 row holds exactly the given settings; nothing else changes |
| `Server.Database.RecordView` | backend/server.js:86 | Appends exactly one view, stamped now; nothing else changes |
| `Server.Database.GetAnalytics` | backend/server.js:97-105 | totalViews is the number of views, todayViews the number dated today, and todayViews ≤ totalViews |
| `Server.Database.ListActiveNews` | backend/server.js:139-142 | Exactly the rows with flag 1, each as often as stored, none inactive, ordered by displayOrder ASC and then createdAt DESC |
| `Server.Database.GetNews` | backend/server.js:152-157 | 404 exactly when no row has the id; otherwise a stored row with that id; never 400 |
| `Server.Database.CreateNews` | backend/server.js:166-181 | Missing or empty content: 400 and no change. Otherwise appends one row with a fresh id, flag 1 and order 0 unless given, and returns that id; existing rows are unchanged and the counter moves past the new id |
| `Server.Database.UpdateNews` | backend/server.js:194-201 | An absent id gives 404 and no change; otherwise only the matched row gets the new content, flag, order and `updatedAt` |
| `Server.Database.DeleteNews` | backend/server.js:213-217 | An absent id gives 404 and no change; otherwise exactly the matched row is removed |
| `Server.Database.ToggleNews` | backend/server.js:229-236 | An absent id gives 404 and no change; otherwise only the matched row is toggled |
| `Server.ConfigRoundTrip` | backend/server.js:41-76 | PUT then GET /api/config returns exactly the settings that were put, from the stored id-1 row |
| `Server.CreateToggleToggle` | backend/server.js:137-243 | A created item is listed; after one toggle it is not; after a second toggle it is listed again, with its content unchanged and its flag 1 |
| `Server.ViewsOnFreshStore` | backend/server.js:84-105 | On a fresh store, the total equals the number of recorded views and today's count equals the number recorded today |

`Tables.NewRow`, `Tables.Updated` and `Tables.Toggled` are the rows that the INSERT (backend/server.js:174), the full UPDATE (backend/server.js:195) and the toggle UPDATE (backend/server.js:230) write. The rows for `CreateNews`, `UpdateNews` and `ToggleNews` state their effects in those terms.

## Left out

- Server bootstrapping: Express setup, CORS, dotenv, creating the MySQL connection pool, the connection test and the two `app.listen` calls. These are I/O with no logic of their own.
- The root route's fixed JSON listing of endpoints: it has no logic.
- Every `catch` branch that answers 500. Storage failures are not modelled; every query succeeds.
- The race between two concurrent PUT /api/config calls, where both UPDATEs miss and the second INSERT fails on the duplicate key. Only sequential calls are modelled: every handler is one atomic step on the store.
- Time zones: `DATE(viewedAt)`, `CURDATE()` and `new Date(...)` parsing. Days and milliseconds are integer inputs. A `targetDate` that does not parse gives NaN, and `NaN > 0` is false, so an invalid target behaves like a non-positive difference: the tuple stays unchanged, as `CalculateTimeLeft` states for that case.
- The countdown's `setInterval`/`clearInterval` scheduling. A run of ticks is modelled as a sequence of clock readings.
- The share modal (clipboard, the reset timer, `window.open`, URL encoding, `alert`) and all JSX rendering: these are browser APIs.
- src/components/Banner.jsx, src/components/NewsTicker.jsx and src/App.jsx are not part of this model. They are presentation and a fetch with fallback data.
- Request bodies are typed. In PUT /api/config, `title`, `description` and `targetDate` are all present strings; a missing one, which mysql2 would store as SQL NULL, is not modelled, so `Server.ConfigRoundTrip` covers only requests that carry all three. In the news routes, content is a string or missing, and the flag and order are integers or missing. Values that JavaScript or MySQL would coerce are not modelled: a non-string content, a `null` stored as SQL NULL, or a missing field in PUT /api/news that mysql2 sends as NULL.
- Ids are integers. The conversion MySQL applies to the route's string id parameter is not modelled.
- CountdownTimer.TicksShowLastReading and CountdownTimer.TicksFromMount hold the target date fixed for the whole run of ticks. When the configuration fetched after mount changes the target, the effect restarts without resetting the state, and the previous target's reading stays on display until the new difference is positive (`TargetChangeKeepsReading`).
- Server.ConfigRoundTrip: the exact round trip rests on the `config` columns storing the three strings verbatim. A `targetDate` column of a date-time type would normalise the string and return it in another form (a JavaScript `Date` serialised in UTC). The schema is not part of this model.
- Server.Database.GetAnalytics: the handler runs the total `COUNT(*)` and the count for `CURDATE()` as two separate queries on a pool of connections, not as one snapshot. The model takes both counts from one state. A POST /api/analytics/view that lands between the two queries makes todayViews one more than totalViews, so `todayViews <= totalViews` holds only for that one-state reading.
