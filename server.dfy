/**
 * The route handlers of the backend, each the query (or the two queries) it
 * runs against the relational store, with the store held in memory by a
 * `Database` object: one field per table and one for the `news` table's
 * AUTO_INCREMENT counter. `NOW()` and `CURDATE()` are parameters.
 *
 * Replies are the status codes the handlers answer with: `Ok` for 200,
 * `BadRequest` for 400, `NotFound` for 404.
 */
module Server {
  import opened Tables

  datatype Reply<T> = Ok(value: T) | BadRequest | NotFound

  /** GET /api/config answers with the stored row, or with the built-in settings. */
  datatype ConfigReply = Stored(row: ConfigRow) | Fallback(settings: Settings) {
    /** The title, description and target date the client receives. */
    function Shown(): Settings {
      match this
      case Stored(row) => row.settings
      case Fallback(settings) => settings
    }
  }

  class Database {
    /** `config`, by id; the handlers only ever touch the row with id 1. */
    var config: map<int, ConfigRow>
    /** `news`, in storage order. */
    var news: seq<NewsRow>
    /** `page_views`, oldest first: the `viewedAt` of each row. */
    var pageViews: seq<DateTime>
    /** The id the next INSERT into `news` receives. */
    var nextId: int

    /** The key of `news` is unique, and the counter is past every key. */
    ghost predicate Valid()
      reads this
    {
      nextId >= 1 && UniqueIds(news) && IdsBelow(news, nextId)
    }

    /** An empty store. */
    constructor ()
      ensures Valid()
      ensures config == map[] && news == [] && pageViews == []
    {
      config := map[];
      news := [];
      pageViews := [];
      nextId := 1;
    }

    // ------------------------------------------------------- /api/config

    /** GET /api/config: never "not found"; an absent row reads as the defaults. */
    method GetConfig() returns (reply: ConfigReply)
      ensures reply.Stored? <==> ConfigId in config
      ensures reply.Stored? ==> reply.row == config[ConfigId]
      ensures reply.Fallback? ==> reply.settings == DefaultSettings
    {
      if ConfigId in config {
        reply := Stored(config[ConfigId]);
      } else {
        reply := Fallback(DefaultSettings);
      }
    }

    /**
     * PUT /api/config: UPDATE the row with id 1, and INSERT it when the
     * update affected no row. Either way the row with id 1 then holds the
     * given settings; no other table and no other config row changes.
     */
    method SetConfig(settings: Settings, now: DateTime)
      requires Valid()
      modifies this
      ensures Valid()
      ensures config == old(config)[ConfigId := ConfigRow(settings, now)]
      ensures news == old(news) && pageViews == old(pageViews) && nextId == old(nextId)
    {
      var affectedRows := 0;
      if ConfigId in config {
        config := config[ConfigId := config[ConfigId].(settings := settings, updatedAt := now)];
        affectedRows := 1;
      }
      if affectedRows == 0 {
        config := config[ConfigId := ConfigRow(settings, now)];
      }
    }

    // ---------------------------------------------------- /api/analytics

    /** POST /api/analytics/view: appends one row stamped with the current time. */
    method RecordView(now: DateTime)
      requires Valid()
      modifies this
      ensures Valid()
      ensures pageViews == old(pageViews) + [now]
      ensures config == old(config) && news == old(news) && nextId == old(nextId)
    {
      pageViews := pageViews + [now];
    }

    /** GET /api/analytics: all views, and the views dated `today`. */
    method GetAnalytics(today: int) returns (totalViews: nat, todayViews: nat)
      ensures totalViews == |pageViews|
      ensures todayViews == CountOnDay(pageViews, today)
      ensures todayViews <= totalViews
    {
      totalViews := |pageViews|;
      todayViews := CountOnDay(pageViews, today);
    }

    // --------------------------------------------------------- /api/news

    /**
     * GET /api/news: exactly the rows with `isActive = 1`, each as often as
     * stored, ordered by displayOrder ascending and then createdAt
     * descending. Rows equal in both keys come in an order the query leaves open.
     */
    method ListActiveNews() returns (rows: seq<NewsRow>)
      ensures InListingOrder(rows)
      ensures forall x :: multiset(rows)[x] == if Listed(x) then multiset(news)[x] else 0
      ensures forall k :: 0 <= k < |rows| ==> Listed(rows[k]) && rows[k] in news
    {
      rows := SortForListing(ActiveRows(news));
      forall k | 0 <= k < |rows|
        ensures Listed(rows[k]) && rows[k] in news
      {
        assert rows[k] in multiset(rows);
      }
    }

    /** GET /api/news/:id: the row with that key, or 404. */
    method GetNews(id: int) returns (reply: Reply<NewsRow>)
      ensures reply.NotFound? <==> forall k :: 0 <= k < |news| ==> news[k].id != id
      ensures reply.Ok? ==> reply.value in news && reply.value.id == id
      ensures !reply.BadRequest?
    {
      match IndexOf(news, id)
      case None =>
        reply := NotFound;
      case Some(i) =>
        reply := Ok(news[i]);
    }

    /**
     * POST /api/news: 400 and no insert when the content is missing or
     * empty; otherwise one new row with a fresh id, active (1) and in
     * position 0 unless the body says otherwise.
     */
    method CreateNews(content: Option<string>, isActive: Option<int>, displayOrder: Option<int>, now: DateTime)
      returns (reply: Reply<int>)
      requires Valid()
      modifies this
      ensures Valid()
      ensures content.None? || content.value == [] ==>
        reply == BadRequest && news == old(news) && nextId == old(nextId)
      ensures content.Some? && content.value != [] ==>
        && reply == Ok(old(nextId))
        && news == old(news) + [NewRow(reply.value, content.value, isActive.GetOr(1), displayOrder.GetOr(0), now)]
        && (forall k :: 0 <= k < |old(news)| ==> old(news)[k].id != reply.value)
        && nextId > reply.value
      ensures config == old(config) && pageViews == old(pageViews)
    {
      if content.None? || content.value == [] {
        return BadRequest;
      }
      var insertId := nextId;
      news := news + [NewRow(insertId, content.value, isActive.GetOr(1), displayOrder.GetOr(0), now)];
      nextId := nextId + 1;
      reply := Ok(insertId);
    }

    /**
     * PUT /api/news/:id: replaces content, flag and position of the row with
     * that key and stamps its update time; 404 and no change when there is none.
     */
    method UpdateNews(id: int, content: string, isActive: int, displayOrder: int, now: DateTime)
      returns (reply: Reply<()>)
      requires Valid()
      modifies this
      ensures Valid()
      ensures IndexOf(old(news), id).None? ==> reply == NotFound && news == old(news)
      ensures IndexOf(old(news), id).Some? ==>
        var i := IndexOf(old(news), id).value;
        reply == Ok(()) && news == old(news)[i := Updated(old(news)[i], content, isActive, displayOrder, now)]
      ensures config == old(config) && pageViews == old(pageViews) && nextId == old(nextId)
    {
      match IndexOf(news, id)
      case None =>
        reply := NotFound;
      case Some(i) =>
        news := news[i := Updated(news[i], content, isActive, displayOrder, now)];
        reply := Ok(());
    }

    /** DELETE /api/news/:id: removes the row with that key; 404 and no change when there is none. */
    method DeleteNews(id: int) returns (reply: Reply<()>)
      requires Valid()
      modifies this
      ensures Valid()
      ensures IndexOf(old(news), id).None? ==> reply == NotFound && news == old(news)
      ensures IndexOf(old(news), id).Some? ==>
        var i := IndexOf(old(news), id).value;
        reply == Ok(()) && news == old(news)[..i] + old(news)[i + 1..]
      ensures forall x :: x in news <==> x in old(news) && x.id != id
      ensures config == old(config) && pageViews == old(pageViews) && nextId == old(nextId)
    {
      match IndexOf(news, id)
      case None =>
        reply := NotFound;
      case Some(i) =>
        RemoveAtKey(news, i, nextId);
        news := news[..i] + news[i + 1..];
        reply := Ok(());
    }

    /**
     * PATCH /api/news/:id/toggle: applies NOT to the flag of the row with
     * that key and stamps its update time; 404 and no change when there is none.
     */
    method ToggleNews(id: int, now: DateTime) returns (reply: Reply<()>)
      requires Valid()
      modifies this
      ensures Valid()
      ensures IndexOf(old(news), id).None? ==> reply == NotFound && news == old(news)
      ensures IndexOf(old(news), id).Some? ==>
        var i := IndexOf(old(news), id).value;
        reply == Ok(()) && news == old(news)[i := Toggled(old(news)[i], now)]
      ensures config == old(config) && pageViews == old(pageViews) && nextId == old(nextId)
    {
      match IndexOf(news, id)
      case None =>
        reply := NotFound;
      case Some(i) =>
        news := news[i := Toggled(news[i], now)];
        reply := Ok(());
    }
  }

  // ------------------------------------------------- what callers observe

  /** PUT then GET of /api/config gives back exactly what was put, from the stored row. */
  method ConfigRoundTrip(db: Database, settings: Settings, now: DateTime) returns (reply: ConfigReply)
    requires db.Valid()
    modifies db
    ensures db.Valid()
    ensures reply == Stored(ConfigRow(settings, now)) && reply.Shown() == settings
  {
    db.SetConfig(settings, now);
    reply := db.GetConfig();
  }

  /**
   * Create an item, toggle it, toggle it again, listing the active news
   * after each step: it is listed, then not, then listed again with its
   * content and flag as created.
   */
  method CreateToggleToggle(db: Database, content: string, now1: DateTime, now2: DateTime, now3: DateTime)
    returns (listedAfterCreate: bool, listedAfterToggle: bool, listedAfterSecondToggle: bool, final: Reply<NewsRow>)
    requires db.Valid() && content != []
    modifies db
    ensures db.Valid()
    ensures listedAfterCreate && !listedAfterToggle && listedAfterSecondToggle
    ensures final.Ok? && final.value.content == content && final.value.isActive == 1
  {
    var created := db.CreateNews(Some(content), None, None, now1);
    var id := created.value;
    var row := NewRow(id, content, 1, 0, now1);
    assert db.news[|db.news| - 1] == row;
    var rows := db.ListActiveNews();
    assert row in multiset(rows);
    listedAfterCreate := IndexOf(rows, id).Some?;

    var i := |db.news| - 1;
    IndexOfUnique(db.news, i);
    var _ := db.ToggleNews(id, now2);
    rows := db.ListActiveNews();
    listedAfterToggle := IndexOf(rows, id).Some?;
    forall k | 0 <= k < |rows|
      ensures rows[k].id != id
    {
      var j :| 0 <= j < |db.news| && db.news[j] == rows[k];
    }

    IndexOfUnique(db.news, i);
    var _ := db.ToggleNews(id, now3);
    var again := db.news[i];
    assert again == row.(updatedAt := now3);
    rows := db.ListActiveNews();
    assert again in multiset(rows);
    listedAfterSecondToggle := IndexOf(rows, id).Some?;

    IndexOfUnique(db.news, i);
    final := db.GetNews(id);
  }

  /**
   * A fresh store that receives one POST /api/analytics/view per entry of
   * `views` reports as many views in total as there were calls, and as many
   * today as there were calls dated `today`.
   */
  method ViewsOnFreshStore(views: seq<DateTime>, today: int) returns (totalViews: nat, todayViews: nat)
    ensures totalViews == |views|
    ensures todayViews == CountOnDay(views, today)
    ensures todayViews == totalViews <==> forall k :: 0 <= k < |views| ==> views[k].date == today
  {
    var db := new Database();
    var i := 0;
    while i < |views|
      invariant 0 <= i <= |views|
      invariant db.Valid() && db.pageViews == views[..i]
    {
      db.RecordView(views[i]);
      assert views[..i + 1] == views[..i] + [views[i]];
      i := i + 1;
    }
    assert views[..i] == views;
    totalViews, todayViews := db.GetAnalytics(today);
    CountOnDayAll(views, today);
  }
}
