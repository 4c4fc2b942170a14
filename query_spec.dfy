/** What the operations of a query result (`Query`) and the container scan (`search`) do, as pure
    functions on a QueryState value. The Query class of module Queries is proved to perform
    exactly these transitions. */
module QuerySpec {
  import opened Primitives
  import opened Errors
  import opened Sequences
  import opened AlbaTypes

  const PAGE_SIZE: nat := 100

  /** Bytes a scan reads at once, before dividing by the row size. */
  const CHUNK_MATRIX: nat := 4096 * 10

  function Min(a: int, b: int): int {
    if a <= b then a else b
  }

  function Max(a: int, b: int): int {
    if a >= b then a else b
  }

  /** A page of results: row ordinals and the container they come from. */
  datatype Page = Page(ids: seq<u64>, container: string)

  /** The rows of the current page: the container's column names, then the values of each row. */
  datatype Rows = Rows(names: seq<string>, values: seq<seq<AlbaType>>)

  datatype QueryState = QueryState(
    rows: Rows,
    pages: seq<Page>,
    currentPage: nat,
    columnNames: seq<string>,
    columnTypes: seq<AlbaType>,
    id: string)

  // ---- trim, new ----

  predicate IsTyped(t: AlbaType) {
    !t.NONE?
  }

  predicate IsNamed(n: string) {
    n != ""
  }

  /** The column types other than NONE, in order. */
  function KeepTypes(ts: seq<AlbaType>): (r: seq<AlbaType>)
    ensures |r| <= |ts| && forall k :: 0 <= k < |r| ==> !r[k].NONE?
  {
    Filter(ts, IsTyped)
  }

  /** The non-empty column names, in order. */
  function KeepNames(ns: seq<string>): (r: seq<string>)
    ensures |r| <= |ns| && forall k :: 0 <= k < |r| ==> r[k] != ""
  {
    Filter(ns, IsNamed)
  }

  /** `trim`: drop the NONE column types and the empty column names. */
  function TrimSpec(s: QueryState): (r: QueryState)
    ensures r.rows == s.rows && r.pages == s.pages && r.currentPage == s.currentPage && r.id == s.id
    ensures |r.columnTypes| <= |s.columnTypes| && |r.columnNames| <= |s.columnNames|
  {
    s.(columnTypes := KeepTypes(s.columnTypes), columnNames := KeepNames(s.columnNames))
  }

  /** `trim` keeps exactly the types other than NONE and the non-empty names, each as often as
      it occurred, and never puts a kept type before one that preceded it. */
  lemma TrimKeepsExactly(s: QueryState, t: AlbaType, n: string)
    ensures t in TrimSpec(s).columnTypes <==> t in s.columnTypes && !t.NONE?
    ensures n in TrimSpec(s).columnNames <==> n in s.columnNames && n != ""
    ensures !t.NONE? ==> multiset(TrimSpec(s).columnTypes)[t] == multiset(s.columnTypes)[t]
    ensures n != "" ==> multiset(TrimSpec(s).columnNames)[n] == multiset(s.columnNames)[n]
  {
    FilterMembership(s.columnTypes, IsTyped, t);
    FilterMembership(s.columnNames, IsNamed, n);
    FilterMultiset(s.columnTypes, IsTyped, t);
    FilterMultiset(s.columnNames, IsNamed, n);
  }

  /** Two kept column types keep their relative order. */
  lemma TrimKeepsOrder(s: QueryState, i: nat, j: nat)
    requires i < j < |s.columnTypes| && !s.columnTypes[i].NONE? && !s.columnTypes[j].NONE?
    ensures exists p, q ::
      && 0 <= p < q < |TrimSpec(s).columnTypes|
      && TrimSpec(s).columnTypes[p] == s.columnTypes[i]
      && TrimSpec(s).columnTypes[q] == s.columnTypes[j]
  {
    FilterKeepsOrder(s.columnTypes, IsTyped, i, j);
    var kept := Filter(s.columnTypes, IsTyped);
    var p, q :| 0 <= p < q < |kept| && kept[p] == s.columnTypes[i] && kept[q] == s.columnTypes[j];
    assert TrimSpec(s).columnTypes == kept;
  }

  /** Trimming twice is trimming once. */
  lemma TrimIdempotent(s: QueryState)
    ensures TrimSpec(TrimSpec(s)) == TrimSpec(s)
  {
    FilterIdempotent(s.columnTypes, IsTyped);
    FilterIdempotent(s.columnNames, IsNamed);
  }

  /** `new` and `new_none`: no rows, no pages, page 0, no names, the given types trimmed. */
  function NewSpec(columnTypes: seq<AlbaType>, id: string): (r: QueryState)
    ensures r.pages == [] && r.currentPage == 0 && r.rows == Rows([], []) && r.columnNames == [] && r.id == id
    ensures r.columnTypes == KeepTypes(columnTypes)
  {
    TrimSpec(QueryState(Rows([], []), [], 0, [], columnTypes, id))
  }

  // ---- join, push ----

  /** The ids of a page of the receiver after `join` appended those of the foreign page at the
      same position: one at a time while the page holds fewer than PAGE_SIZE. */
  function Fill(ids: seq<u64>, extra: seq<u64>): (r: seq<u64>)
    ensures |ids| <= |r| <= |ids| + |extra| && r[..|ids|] == ids && r[|ids|..] == extra[..|r| - |ids|]
    ensures |ids| <= PAGE_SIZE ==> |r| <= PAGE_SIZE
    ensures |r| < PAGE_SIZE ==> |r| == |ids| + |extra|
  {
    if |ids| >= PAGE_SIZE then ids else ids + extra[..Min(|extra|, PAGE_SIZE - |ids|)]
  }

  /** The pages after `join`: pages at shared positions are filled, foreign pages past the end
      of the receiver's are appended whole. */
  function JoinPages(mine: seq<Page>, theirs: seq<Page>): (r: seq<Page>)
    ensures |r| == Max(|mine|, |theirs|)
  {
    seq(Max(|mine|, |theirs|), i requires 0 <= i < Max(|mine|, |theirs|) =>
      if i < |mine| && i < |theirs| then Page(Fill(mine[i].ids, theirs[i].ids), mine[i].container)
      else if i < |mine| then mine[i]
      else theirs[i])
  }

  /** `join`: nothing at all when the column types differ, compared as `Vec<AlbaTypes>` is
      (Float types by f64 equality); otherwise join the pages and trim.
      The joined query keeps its rows, cursor and id, and has as many pages as the longer of
      the two. */
  function JoinSpec(s: QueryState, foreign: QueryState, fl: FloatOps): (r: QueryState)
    ensures !ValuesEq(fl, foreign.columnTypes, s.columnTypes) ==> r == s
    ensures ValuesEq(fl, foreign.columnTypes, s.columnTypes) ==>
      |r.pages| == Max(|s.pages|, |foreign.pages|) && r.columnTypes == KeepTypes(s.columnTypes)
    ensures r.rows == s.rows && r.currentPage == s.currentPage && r.id == s.id
  {
    if !ValuesEq(fl, foreign.columnTypes, s.columnTypes) then s
    else TrimSpec(s.(pages := JoinPages(s.pages, foreign.pages)))
  }

  /** A joined page starts with the receiver's ids, continues with a prefix of the foreign ids,
      keeps the receiver's container, and never grows past PAGE_SIZE; it stops short of
      PAGE_SIZE only when the foreign ids run out. Foreign pages past the receiver's end come
      over unchanged. */
  lemma JoinPagesShape(mine: seq<Page>, theirs: seq<Page>, i: nat)
    requires i < Max(|mine|, |theirs|)
    ensures var r := JoinPages(mine, theirs)[i];
      && (i < |mine| ==> r.container == mine[i].container && r.ids[..|mine[i].ids|] == mine[i].ids)
      && (i < |mine| && |mine[i].ids| <= PAGE_SIZE ==> |r.ids| <= PAGE_SIZE)
      && (i < |mine| && i < |theirs| ==>
            |mine[i].ids| <= |r.ids| && r.ids[|mine[i].ids|..] == theirs[i].ids[..|r.ids| - |mine[i].ids|])
      && (i < |mine| && i < |theirs| && |r.ids| < PAGE_SIZE ==> |r.ids| == |mine[i].ids| + |theirs[i].ids|)
      && (i < |mine| && i >= |theirs| ==> r == mine[i])
      && (i >= |mine| ==> r == theirs[i])
  {
  }

  /** `push`: one more page at the end. */
  function PushSpec(s: QueryState, page: Page): (r: QueryState)
    ensures |r.pages| == |s.pages| + 1 && r.pages[..|s.pages|] == s.pages && r.pages[|s.pages|] == page
    ensures r.currentPage == s.currentPage && r.rows == s.rows
  {
    s.(pages := s.pages + [page])
  }

  // ---- load_rows, next, previous ----

  /** What `load_rows` sees of a container: its column names and `get_rows((i, i + 1))`. */
  datatype Container = Container(columnNames: seq<string>, getRows: u64 -> Result<seq<seq<AlbaType>>>)

  /** The containers of the database, by name. */
  type Database = map<string, Container>

  /** The loop of `load_rows`: the first row each id fetches, skipping ids that fetch none; the
      first failed fetch is the result. */
  function FetchRows(ids: seq<u64>, c: Container): (r: Result<seq<seq<AlbaType>>>)
    ensures r.Ok? ==> |r.value| <= |ids|
  {
    if ids == [] then Ok([])
    else
      var rows :- FetchRows(ids[..|ids| - 1], c);
      var fetched :- c.getRows(ids[|ids| - 1]);
      Ok(rows + if fetched == [] then [] else [fetched[0]])
  }

  /** When every id fetches at least one row, there is one row per id: the first it fetched. */
  lemma {:induction false} FetchRowsOnePerId(ids: seq<u64>, c: Container)
    requires forall k :: 0 <= k < |ids| ==> c.getRows(ids[k]).Ok? && c.getRows(ids[k]).value != []
    ensures FetchRows(ids, c).Ok? && |FetchRows(ids, c).value| == |ids|
    ensures forall k :: 0 <= k < |ids| ==> FetchRows(ids, c).value[k] == c.getRows(ids[k]).value[0]
  {
    if ids != [] {
      var prefix := ids[..|ids| - 1];
      FetchRowsOnePerId(prefix, c);
    }
  }

  /** An id whose fetch succeeds with no row adds nothing. */
  lemma FetchRowsSkipsMissing(ids: seq<u64>, c: Container, id: u64)
    requires c.getRows(id) == Ok([])
    ensures FetchRows(ids + [id], c) == FetchRows(ids, c)
  {
    assert (ids + [id])[..|ids|] == ids;
    if FetchRows(ids, c).Ok? {
      assert FetchRows(ids, c).value + [] == FetchRows(ids, c).value;
    }
  }

  /** Once a fetch has failed, the ids after it do not change the error. */
  lemma {:induction false} FetchRowsStopsAtError(ids: seq<u64>, c: Container, k: nat)
    requires k <= |ids| && FetchRows(ids[..k], c).Err?
    ensures FetchRows(ids, c) == FetchRows(ids[..k], c)
    decreases |ids|
  {
    if k < |ids| {
      var pre := ids[..|ids| - 1];
      assert pre[..k] == ids[..k];
      FetchRowsStopsAtError(pre, c, k);
    } else {
      assert ids[..k] == ids;
    }
  }

  const NO_PAGE: string := "There is no page"
  const NO_CONTAINER: string := "There is no container in the given database named "

  /** `load_rows`: the new state and the outcome. Nothing changes unless it succeeds on a
      non-empty result; then the rows are the container's column names and the first row fetched
      for each id of the current page (ids that fetch nothing skipped), and the query is trimmed. */
  function LoadRowsSpec(s: QueryState, db: Database): (r: (QueryState, Result<()>))
    ensures r.1.Err? <==>
      s.pages != [] && (s.currentPage >= |s.pages|
        || s.pages[s.currentPage].container !in db
        || FetchRows(s.pages[s.currentPage].ids, db[s.pages[s.currentPage].container]).Err?)
    ensures r.1.Err? || s.pages == [] ==> r.0 == s
    ensures s.pages != [] && r.1.Ok? ==>
      && s.currentPage < |s.pages| && s.pages[s.currentPage].container in db
      && r.0.rows.names == db[s.pages[s.currentPage].container].columnNames
      && r.0.rows.values == FetchRows(s.pages[s.currentPage].ids, db[s.pages[s.currentPage].container]).value
      && r.0.columnTypes == KeepTypes(s.columnTypes) && r.0.columnNames == KeepNames(s.columnNames)
    ensures r.0.pages == s.pages && r.0.currentPage == s.currentPage && r.0.id == s.id
  {
    if s.pages == [] then (s, Ok(()))
    else if s.currentPage >= |s.pages| then (s, Err(Gerr(NO_PAGE)))
    else
      var page := s.pages[s.currentPage];
      if page.container !in db then (s, Err(Gerr(NO_CONTAINER + page.container)))
      else
        match FetchRows(page.ids, db[page.container])
        case Err(e) => (s, Err(e))
        case Ok(rows) => (TrimSpec(s.(rows := Rows(db[page.container].columnNames, rows))), Ok(()))
  }

  /** When every id of the current page fetches a row, `load_rows` succeeds and loads exactly one
      row per id, in page order: the first row fetched for it. */
  lemma LoadRowsOnePerId(s: QueryState, db: Database)
    requires s.currentPage < |s.pages| && s.pages[s.currentPage].container in db
    requires var p := s.pages[s.currentPage];
      forall k :: 0 <= k < |p.ids| ==> db[p.container].getRows(p.ids[k]).Ok? && db[p.container].getRows(p.ids[k]).value != []
    ensures LoadRowsSpec(s, db).1.Ok?
    ensures var p := s.pages[s.currentPage]; var rows := LoadRowsSpec(s, db).0.rows.values;
      |rows| == |p.ids| && forall k :: 0 <= k < |p.ids| ==> rows[k] == db[p.container].getRows(p.ids[k]).value[0]
  {
    var p := s.pages[s.currentPage];
    FetchRowsOnePerId(p.ids, db[p.container]);
  }

  /** `next`: at the last page (or with no pages) nothing happens; otherwise move one page on,
      then load it and trim. The move stands even when the load fails. */
  function NextSpec(s: QueryState, db: Database): (r: (QueryState, Result<()>))
    ensures r.0.currentPage == if s.pages == [] || s.currentPage + 1 >= |s.pages| then s.currentPage else s.currentPage + 1
    ensures r.0.pages == s.pages
    ensures s.pages != [] && s.currentPage + 1 < |s.pages| && r.1.Ok? ==>
      && s.pages[s.currentPage + 1].container in db
      && var c := db[s.pages[s.currentPage + 1].container];
      && FetchRows(s.pages[s.currentPage + 1].ids, c).Ok?
      && r.0.rows == Rows(c.columnNames, FetchRows(s.pages[s.currentPage + 1].ids, c).value)
      && r.0.columnTypes == KeepTypes(s.columnTypes) && r.0.columnNames == KeepNames(s.columnNames)
  {
    if s.pages == [] || s.currentPage + 1 >= |s.pages| then (s, Ok(()))
    else
      var (s', r) := LoadRowsSpec(s.(currentPage := s.currentPage + 1), db);
      if r.Err? then (s', r)
      else
        FilterIdempotent(s.columnTypes, IsTyped);
        FilterIdempotent(s.columnNames, IsNamed);
        (TrimSpec(s'), Ok(()))
  }

  /** `previous`: at page 0 (or with no pages) nothing happens; otherwise move one page back,
      then load it and trim. */
  function PreviousSpec(s: QueryState, db: Database): (r: (QueryState, Result<()>))
    ensures r.0.currentPage == if s.pages == [] || s.currentPage == 0 then s.currentPage else s.currentPage - 1
    ensures r.0.pages == s.pages
    ensures s.pages != [] && s.currentPage > 0 && r.1.Ok? ==>
      && s.currentPage - 1 < |s.pages| && s.pages[s.currentPage - 1].container in db
      && var c := db[s.pages[s.currentPage - 1].container];
      && FetchRows(s.pages[s.currentPage - 1].ids, c).Ok?
      && r.0.rows == Rows(c.columnNames, FetchRows(s.pages[s.currentPage - 1].ids, c).value)
      && r.0.columnTypes == KeepTypes(s.columnTypes) && r.0.columnNames == KeepNames(s.columnNames)
  {
    if s.pages == [] || s.currentPage == 0 then (s, Ok(()))
    else
      var (s', r) := LoadRowsSpec(s.(currentPage := s.currentPage - 1), db);
      if r.Err? then (s', r)
      else
        FilterIdempotent(s.columnTypes, IsTyped);
        FilterIdempotent(s.columnNames, IsNamed);
        (TrimSpec(s'), Ok(()))
  }

  /** The current page is a real page, or there are no pages and the cursor is at 0. */
  predicate CursorValid(s: QueryState) {
    s.currentPage < |s.pages| || (s.pages == [] && s.currentPage == 0)
  }

  /** A page reached by `next` is left again by `previous`. */
  lemma NextThenPrevious(s: QueryState, db: Database)
    requires s.pages != [] && s.currentPage + 1 < |s.pages|
    ensures PreviousSpec(NextSpec(s, db).0, db).0.currentPage == s.currentPage
  {
    var n := NextSpec(s, db).0;
    assert n.currentPage == s.currentPage + 1 && n.pages == s.pages;
  }

  /** Every operation keeps the current page a real page. */
  lemma CursorStaysValid(s: QueryState, db: Database, foreign: QueryState, page: Page, fl: FloatOps)
    requires CursorValid(s)
    ensures CursorValid(NextSpec(s, db).0) && CursorValid(PreviousSpec(s, db).0)
    ensures CursorValid(LoadRowsSpec(s, db).0) && CursorValid(TrimSpec(s))
    ensures CursorValid(PushSpec(s, page))
    ensures CursorValid(JoinSpec(s, foreign, fl))
  {
  }
}
