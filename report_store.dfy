// The bot's report and session store: three SQLite tables kept as maps.
//   reports     id -> (query, created_at)
//   pages       (report_id, page_idx) -> (img_name, tags, doc_id)
//   users_data  user_id -> (filters, last_query, last_report_id), NULL as None
// Writes are the SQL statements' effects on those maps; reads are the
// SELECTs, including the ones that index a missing row.

module ReportStore {
  import opened Wrappers
  import opened Dicts

  datatype Report = Report(query: string, createdAt: string)

  datatype PageRow = PageRow(imgName: string, tags: map<string, string>, docId: string)

  /** A `users_data` row; a column never written is NULL. */
  datatype UserRow = UserRow(filters: Option<Dict>, lastQuery: Option<string>, lastReport: Option<string>)

  /** `sqlite3.IntegrityError` on a reused report id, and the `TypeError` of
      `row[0]` when the user has no row. */
  datatype StoreError = IntegrityError(reportId: string) | NoUserRow(userId: string)

  /** What `get_page` returns. */
  datatype PageView = PageView(imgPath: string, tags: map<string, string>, pageIdx: int,
                               total: nat, query: string, docId: string)

  type Users = map<string, UserRow>
  type Pages = map<(string, int), PageRow>

  // ---------------------------------------------------------------- users_data

  /** The row an upsert starts from: the user's row, or all NULLs. */
  function RowOf(users: Users, u: string): UserRow {
    if u in users then users[u] else UserRow(None, None, None)
  }

  /** `INSERT ... ON CONFLICT(user_id) DO UPDATE SET last_query = ...`. */
  function WithQuery(users: Users, u: string, q: string): Users {
    users[u := RowOf(users, u).(lastQuery := Some(q))]
  }

  /** The same upsert on `filters_json`. */
  function WithFilters(users: Users, u: string, f: Dict): Users {
    users[u := RowOf(users, u).(filters := Some(f))]
  }

  /** The same upsert on `last_report_id`. */
  function WithLastReport(users: Users, u: string, r: string): Users {
    users[u := RowOf(users, u).(lastReport := Some(r))]
  }

  /** `UPDATE users_data SET filters_json = NULL WHERE user_id = ?`: no row, no change. */
  function ClearedFilters(users: Users, u: string): Users {
    if u in users then users[u := users[u].(filters := None)] else users
  }

  /** `get_query`: the stored query, None for NULL or "". */
  function QueryOf(users: Users, u: string): Result<Option<string>, StoreError> {
    if u !in users then Failure(NoUserRow(u))
    else match users[u].lastQuery
      case Some(q) => if q == "" then Success(None) else Success(Some(q))
      case None => Success(None)
  }

  /** `get_filters`: the stored filters, {} for NULL. */
  function FiltersOf(users: Users, u: string): Result<Dict, StoreError> {
    if u !in users then Failure(NoUserRow(u))
    else match users[u].filters
      case Some(f) => Success(f)
      case None => Success([])
  }

  /** `get_last_report`: the stored id, "" for NULL. */
  function LastReportOf(users: Users, u: string): Result<string, StoreError> {
    if u !in users then Failure(NoUserRow(u))
    else match users[u].lastReport
      case Some(r) => Success(r)
      case None => Success("")
  }

  /** Each reader fails exactly when the user has no row. */
  lemma ReadersFailWithoutRow(users: Users, u: string)
    ensures QueryOf(users, u).Failure? <==> u !in users
    ensures FiltersOf(users, u).Failure? <==> u !in users
    ensures LastReportOf(users, u).Failure? <==> u !in users
  {
  }

  /** `set_query` then `get_query` gives the query back, None for "". */
  lemma QueryRoundTrip(users: Users, u: string, q: string)
    ensures QueryOf(WithQuery(users, u, q), u) == Success(if q == "" then None else Some(q))
  {
  }

  /** `set_filters` then `get_filters` gives the filters back. */
  lemma FiltersRoundTrip(users: Users, u: string, f: Dict)
    ensures FiltersOf(WithFilters(users, u, f), u) == Success(f)
  {
  }

  /** `set_last_report` then `get_last_report` gives the id back. */
  lemma LastReportRoundTrip(users: Users, u: string, r: string)
    ensures LastReportOf(WithLastReport(users, u, r), u) == Success(r)
  {
  }

  /** After `clear_filters` an existing user reads {}; without a row nothing
      changes. */
  lemma ClearFiltersSpec(users: Users, u: string)
    ensures u in users ==> FiltersOf(ClearedFilters(users, u), u) == Success([])
    ensures u !in users ==> ClearedFilters(users, u) == users
    ensures QueryOf(ClearedFilters(users, u), u) == QueryOf(users, u)
    ensures LastReportOf(ClearedFilters(users, u), u) == LastReportOf(users, u)
  {
  }

  /** Each upsert touches one column of one row: every other user reads as
      before, and so do the user's other columns once the row exists. */
  lemma UpsertsAreLocal(users: Users, u: string, q: string, f: Dict, r: string)
    ensures forall v | v != u ::
      && QueryOf(WithFilters(users, u, f), v) == QueryOf(users, v)
      && QueryOf(WithLastReport(users, u, r), v) == QueryOf(users, v)
      && FiltersOf(WithQuery(users, u, q), v) == FiltersOf(users, v)
      && FiltersOf(WithLastReport(users, u, r), v) == FiltersOf(users, v)
      && LastReportOf(WithQuery(users, u, q), v) == LastReportOf(users, v)
      && LastReportOf(WithFilters(users, u, f), v) == LastReportOf(users, v)
    ensures u in users ==>
      && QueryOf(WithFilters(users, u, f), u) == QueryOf(users, u)
      && QueryOf(WithLastReport(users, u, r), u) == QueryOf(users, u)
      && FiltersOf(WithQuery(users, u, q), u) == FiltersOf(users, u)
      && FiltersOf(WithLastReport(users, u, r), u) == FiltersOf(users, u)
      && LastReportOf(WithQuery(users, u, q), u) == LastReportOf(users, u)
      && LastReportOf(WithFilters(users, u, f), u) == LastReportOf(users, u)
    ensures u !in users ==>
      && QueryOf(WithFilters(users, u, f), u) == Success(None)
      && FiltersOf(WithQuery(users, u, q), u) == Success([])
      && LastReportOf(WithQuery(users, u, q), u) == Success("")
  {
  }

  // ---------------------------------------------------------------- reports

  /** `INSERT INTO reports`: the primary key refuses an id already present. */
  function CreateReportIn(reports: map<string, Report>, id: string, q: string, now: string)
    : Result<map<string, Report>, StoreError>
  {
    if id in reports then Failure(IntegrityError(id))
    else Success(reports[id := Report(q, now)])
  }

  // ---------------------------------------------------------------- pages

  /** `INSERT OR REPLACE INTO pages`. */
  function AddPageTo(pages: Pages, id: string, idx: int, row: PageRow): Pages {
    pages[(id, idx) := row]
  }

  /** The page rows of one report. */
  function PageKeys(pages: Pages, id: string): set<(string, int)> {
    set k | k in pages && k.0 == id
  }

  /** `SELECT COUNT(*) FROM pages WHERE report_id = ?`. */
  function PageCount(pages: Pages, id: string): nat {
    |PageKeys(pages, id)|
  }

  /** `os.path.join(dir, name)` on POSIX. */
  function PathJoin(dir: string, name: string): string {
    if name != [] && name[0] == '/' then name
    else if dir == [] || dir[|dir| - 1] == '/' then dir + name
    else dir + "/" + name
  }

  /** An absolute name replaces the directory. Otherwise the result is the
      directory, then the name, with one '/' between them inserted only when
      the directory is non-empty and does not already end in one. */
  lemma PathJoinSpec(dir: string, name: string)
    ensures name != [] && name[0] == '/' ==> PathJoin(dir, name) == name
    ensures !(name != [] && name[0] == '/') ==>
      var r := PathJoin(dir, name);
      && |dir| <= |r| - |name| <= |dir| + 1
      && r[..|dir|] == dir && r[|r| - |name|..] == name
      && (dir != [] ==> r[|r| - |name| - 1] == '/')
      && (|r| - |name| == |dir| + 1 <==> dir != [] && dir[|dir| - 1] != '/')
  {
  }

  /** `get_page`: None without a page row; otherwise the row, the live page
      count of the report and its query ("" without a report row). */
  function PageOf(reports: map<string, Report>, pages: Pages, imgDir: string, id: string, idx: int)
    : Option<PageView>
  {
    if (id, idx) !in pages then None
    else
      var row := pages[(id, idx)];
      Some(PageView(PathJoin(imgDir, row.imgName), row.tags, idx, PageCount(pages, id),
                    if id in reports then reports[id].query else "", row.docId))
  }

  /** A reused report id leaves the reports as they were; a fresh one adds
      exactly that report. */
  lemma CreateReportSpec(reports: map<string, Report>, id: string, q: string, now: string)
    ensures CreateReportIn(reports, id, q, now).Failure? <==> id in reports
    ensures CreateReportIn(reports, id, q, now).Success? ==>
      var r := CreateReportIn(reports, id, q, now).value;
      r.Keys == reports.Keys + {id} && r[id].query == q
      && forall k | k in reports :: r[k] == reports[k]
  {
  }

  /** A page is missing exactly when its row is. */
  lemma PageOfNone(reports: map<string, Report>, pages: Pages, imgDir: string, id: string, idx: int)
    ensures PageOf(reports, pages, imgDir, id, idx).None? <==> (id, idx) !in pages
  {
  }

  /** A page found echoes its index, and its total is the report's live page
      count, which includes the page itself. */
  lemma PageTotal(reports: map<string, Report>, pages: Pages, imgDir: string, id: string, idx: int)
    requires (id, idx) in pages
    ensures PageOf(reports, pages, imgDir, id, idx).value.pageIdx == idx
    ensures 1 <= PageOf(reports, pages, imgDir, id, idx).value.total == PageCount(pages, id)
  {
    assert (id, idx) in PageKeys(pages, id);
  }

  /** The page's query is the one `create_report` stored for the id. */
  lemma PageQuery(reports: map<string, Report>, pages: Pages, imgDir: string,
                  id: string, idx: int, q: string, now: string)
    requires (id, idx) in pages && id !in reports
    ensures PageOf(CreateReportIn(reports, id, q, now).value, pages, imgDir, id, idx).value.query == q
    ensures PageOf(reports, pages, imgDir, id, idx).value.query == ""
  {
  }

  /** `add_page` is an upsert: the latest call for a key wins, and the page
      reads back the latest row with its own index. */
  lemma AddPageUpsert(reports: map<string, Report>, pages: Pages, imgDir: string,
                      id: string, idx: int, a: PageRow, b: PageRow)
    ensures AddPageTo(AddPageTo(pages, id, idx, a), id, idx, b) == AddPageTo(pages, id, idx, b)
    ensures var p := PageOf(reports, AddPageTo(pages, id, idx, b), imgDir, id, idx);
      p.Some? && p.value.tags == b.tags && p.value.docId == b.docId && p.value.pageIdx == idx
      && p.value.imgPath == PathJoin(imgDir, b.imgName)
  {
  }

  /** A new key adds one to its report's count, a replaced one adds nothing,
      and other reports' counts do not move. */
  lemma AddPageCount(pages: Pages, id: string, idx: int, row: PageRow, other: string)
    requires other != id
    ensures PageCount(AddPageTo(pages, id, idx, row), id)
      == PageCount(pages, id) + (if (id, idx) in pages then 0 else 1)
    ensures PageCount(AddPageTo(pages, id, idx, row), other) == PageCount(pages, other)
  {
    assert PageKeys(AddPageTo(pages, id, idx, row), id) == PageKeys(pages, id) + {(id, idx)};
    assert PageKeys(AddPageTo(pages, id, idx, row), other) == PageKeys(pages, other);
  }

  // ---------------------------------------------------------------- the store

  class UserReportStore {
    const imgDir: string
    var reports: map<string, Report>
    var pages: Pages
    var users: Users

    /** A store over empty tables. */
    constructor(imgDir: string)
      ensures this.imgDir == imgDir && reports == map[] && pages == map[] && users == map[]
    {
      this.imgDir := imgDir;
      reports := map[];
      pages := map[];
      users := map[];
    }

    method SetQuery(u: string, q: string)
      modifies this
      ensures users == WithQuery(old(users), u, q)
      ensures reports == old(reports) && pages == old(pages)
    {
      users := users[u := RowOf(users, u).(lastQuery := Some(q))];
    }

    method GetQuery(u: string) returns (r: Result<Option<string>, StoreError>)
      ensures r == QueryOf(users, u)
    {
      if u !in users {
        return Failure(NoUserRow(u));
      }
      var q := users[u].lastQuery;
      if q.Some? && q.value != "" {
        r := Success(q);
      } else {
        r := Success(None);
      }
    }

    method SetFilters(u: string, f: Dict)
      modifies this
      ensures users == WithFilters(old(users), u, f)
      ensures reports == old(reports) && pages == old(pages)
    {
      users := users[u := RowOf(users, u).(filters := Some(f))];
    }

    method GetFilters(u: string) returns (r: Result<Dict, StoreError>)
      ensures r == FiltersOf(users, u)
    {
      if u !in users {
        return Failure(NoUserRow(u));
      }
      var f := users[u].filters;
      r := if f.Some? then Success(f.value) else Success([]);
    }

    method ClearFilters(u: string)
      modifies this
      ensures users == ClearedFilters(old(users), u)
      ensures reports == old(reports) && pages == old(pages)
    {
      if u in users {
        users := users[u := users[u].(filters := None)];
      }
    }

    /** `create_report`; `now` is the UTC timestamp the source reads from the clock. */
    method CreateReport(id: string, q: string, now: string) returns (r: Result<(), StoreError>)
      modifies this
      ensures r.Failure? <==> id in old(reports)
      ensures r.Failure? ==> r.error == IntegrityError(id) && reports == old(reports)
      ensures r.Success? ==> reports == CreateReportIn(old(reports), id, q, now).value
      ensures users == old(users) && pages == old(pages)
    {
      if id in reports {
        return Failure(IntegrityError(id));
      }
      reports := reports[id := Report(q, now)];
      r := Success(());
    }

    method AddPage(id: string, idx: int, imgName: string, tags: map<string, string>, docId: string)
      modifies this
      ensures pages == AddPageTo(old(pages), id, idx, PageRow(imgName, tags, docId))
      ensures reports == old(reports) && users == old(users)
    {
      pages := pages[(id, idx) := PageRow(imgName, tags, docId)];
    }

    method GetPage(id: string, idx: int) returns (r: Option<PageView>)
      ensures r == PageOf(reports, pages, imgDir, id, idx)
    {
      if (id, idx) !in pages {
        return None;
      }
      var row := pages[(id, idx)];
      var total := |PageKeys(pages, id)|;
      var query := if id in reports then reports[id].query else "";
      r := Some(PageView(PathJoin(imgDir, row.imgName), row.tags, idx, total, query, row.docId));
    }

    method SetLastReport(u: string, id: string)
      modifies this
      ensures users == WithLastReport(old(users), u, id)
      ensures reports == old(reports) && pages == old(pages)
    {
      users := users[u := RowOf(users, u).(lastReport := Some(id))];
    }

    method GetLastReport(u: string) returns (r: Result<string, StoreError>)
      ensures r == LastReportOf(users, u)
    {
      if u !in users {
        return Failure(NoUserRow(u));
      }
      var id := users[u].lastReport;
      r := if id.Some? then Success(id.value) else Success("");
    }
  }
}
