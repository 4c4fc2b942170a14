/** What `search` computes: it reads the rows of a container's data file window by window,
    deserialises each and checks it against the container's headers, keeps the ordinals of the
    rows the conditions match, and deals them out into pages of PAGE_SIZE. Each step is a pure
    function here; the method Queries.Search is proved to compute SearchResult. */
module ScanSpec {
  import opened Primitives
  import opened Errors
  import opened AlbaTypes
  import opened QuerySpec

  /** A deserialised row: its values by header name, and the container's header map. */
  datatype Row = Row(data: map<string, AlbaType>, metadata: map<string, AlbaType>)

  /** The arguments of `search` and what it uses of the container. file is the whole content of
      the data file; headers are the container's (name, type) columns; deserialize stands for
      `Container::deserialize_row` and rowMatch for `QueryConditions::row_match`. */
  datatype ScanArgs = ScanArgs(
    elementSize: nat,
    headerOffset: nat,
    file: seq<byte>,
    containerHeaders: map<string, AlbaType>,
    containerValues: seq<(string, AlbaType)>,
    containerName: string,
    headers: seq<(string, AlbaType)>,
    deserialize: seq<byte> -> Result<seq<AlbaType>>,
    rowMatch: Row -> Result<bool>)

  /** The file can be scanned at all: rows have a size and the header fits in the file. */
  predicate Readable(a: ScanArgs) {
    a.elementSize > 0 && a.headerOffset <= |a.file|
  }

  /** The number of whole rows after the header: they fit in the file, and one more would not. */
  function TotalRows(a: ScanArgs): (n: nat)
    requires Readable(a)
    ensures a.headerOffset + n * a.elementSize <= |a.file| < a.headerOffset + (n + 1) * a.elementSize
  {
    var d := |a.file| - a.headerOffset;
    assert d == (d / a.elementSize) * a.elementSize + d % a.elementSize;
    d / a.elementSize
  }

  /** The rows one read covers: CHUNK_MATRIX bytes' worth, at least one, at most all of them. */
  function RowsPerIteration(a: ScanArgs): (rpi: nat)
    requires Readable(a)
    ensures rpi <= TotalRows(a)
    ensures TotalRows(a) > 0 ==> rpi >= 1
    ensures a.elementSize > CHUNK_MATRIX ==> rpi == Min(1, TotalRows(a))
  {
    var wanted := if CHUNK_MATRIX / a.elementSize >= 1 then CHUNK_MATRIX / a.elementSize else 1;
    if wanted <= TotalRows(a) then wanted else TotalRows(a)
  }

  /** `to_read` at a window starting at row r. */
  function ToRead(r: nat, rpi: nat, total: nat): (n: nat)
    requires r <= total
    ensures n <= rpi && r + n <= total
    ensures r < total && rpi >= 1 ==> n >= 1
  {
    if rpi <= total - r then rpi else total - r
  }

  /** The rows of the window that starts at row r. */
  function Window(r: nat, rpi: nat, total: nat): (w: seq<nat>)
    requires r <= total
    ensures |w| == ToRead(r, rpi, total)
    ensures forall k :: 0 <= k < |w| ==> w[k] == r + k
  {
    seq(ToRead(r, rpi, total), k => r + k)
  }

  /** The row ordinals the first n passes of the read loop visit, in order. Each pass reads the
      window at the current row and then advances the current row by one. */
  function ScanOrdinals(n: nat, rpi: nat, total: nat): (os: seq<nat>)
    requires n <= total
    ensures forall k :: 0 <= k < |os| ==> os[k] < total
  {
    if n == 0 then [] else ScanOrdinals(n - 1, rpi, total) + Window(n - 1, rpi, total)
  }

  /** The ordinals the whole scan visits, each a row of the file. */
  function Ordinals(a: ScanArgs): (os: seq<nat>)
    requires Readable(a)
    ensures forall k :: 0 <= k < |os| ==> os[k] < TotalRows(a)
  {
    ScanOrdinals(TotalRows(a), RowsPerIteration(a), TotalRows(a))
  }

  lemma {:induction false} ScanOrdinalsPrefix(m: nat, n: nat, rpi: nat, total: nat)
    requires m <= n <= total
    ensures |ScanOrdinals(m, rpi, total)| <= |ScanOrdinals(n, rpi, total)|
    ensures ScanOrdinals(n, rpi, total)[..|ScanOrdinals(m, rpi, total)|] == ScanOrdinals(m, rpi, total)
  {
    if m < n {
      ScanOrdinalsPrefix(m, n - 1, rpi, total);
      var pre := ScanOrdinals(n - 1, rpi, total);
      assert ScanOrdinals(n, rpi, total)[..|pre|] == pre;
    }
  }

  /** The visits of the scan up to row i of the window at row n. */
  function Visited(n: nat, i: nat, rpi: nat, total: nat): seq<nat>
    requires n < total && i <= ToRead(n, rpi, total)
  {
    ScanOrdinals(n, rpi, total) + Window(n, rpi, total)[..i]
  }

  /** The next visit of the window at row n is row n + i. */
  lemma VisitedStep(n: nat, i: nat, rpi: nat, total: nat)
    requires n < total && i < ToRead(n, rpi, total)
    ensures Visited(n, i + 1, rpi, total) == Visited(n, i, rpi, total) + [n + i]
  {
    var w := Window(n, rpi, total);
    assert w[..i + 1] == w[..i] + [n + i];
  }

  /** Before the window at row n the visits are those of the first n passes; after it, those of
      the first n + 1. */
  lemma VisitedEnds(n: nat, rpi: nat, total: nat)
    requires n < total
    ensures Visited(n, 0, rpi, total) == ScanOrdinals(n, rpi, total)
    ensures Visited(n, ToRead(n, rpi, total), rpi, total) == ScanOrdinals(n + 1, rpi, total)
  {
    assert Window(n, rpi, total)[..0] == [];
    assert Window(n, rpi, total)[..ToRead(n, rpi, total)] == Window(n, rpi, total);
  }

  /** The visits up to row i of the window at row n come first in the whole scan. */
  lemma VisitedPrefix(n: nat, i: nat, rpi: nat, total: nat)
    requires n < total && i <= ToRead(n, rpi, total)
    ensures var p := Visited(n, i, rpi, total);
      |p| <= |ScanOrdinals(total, rpi, total)| && ScanOrdinals(total, rpi, total)[..|p|] == p
  {
    ScanOrdinalsPrefix(n + 1, total, rpi, total);
    var p := Visited(n, i, rpi, total);
    assert ScanOrdinals(n + 1, rpi, total)[..|p|] == p;
  }

  /** Every row is visited: the pass that starts at row o visits it first. */
  lemma ScanCoversEveryRow(rpi: nat, total: nat, o: nat) returns (k: nat)
    requires rpi >= 1 && o < total
    ensures k < |ScanOrdinals(total, rpi, total)| && ScanOrdinals(total, rpi, total)[k] == o
  {
    ScanOrdinalsPrefix(o + 1, total, rpi, total);
    k := |ScanOrdinals(o, rpi, total)|;
    assert ScanOrdinals(o + 1, rpi, total)[k] == o;
  }

  /** With one row per window every row is visited exactly once, in file order. */
  lemma {:induction false} SingleRowWindows(n: nat, total: nat)
    requires n <= total
    ensures ScanOrdinals(n, 1, total) == seq(n, k => k)
  {
    if n > 0 {
      SingleRowWindows(n - 1, total);
    }
  }

  /** Rows wider than CHUNK_MATRIX bytes are read one at a time, each exactly once. */
  lemma WideRowsScannedOnce(a: ScanArgs)
    requires Readable(a) && a.elementSize > CHUNK_MATRIX
    ensures Ordinals(a) == seq(TotalRows(a), k => k)
  {
    if TotalRows(a) == 0 {
    } else {
      SingleRowWindows(TotalRows(a), TotalRows(a));
    }
  }

  /** Because the current row advances by one rather than by the window length, windows of
      two or more rows overlap: row 1 is visited by the first window and again at the start of
      the second. */
  lemma ScanRereadsRows(rpi: nat, total: nat)
    requires 2 <= rpi <= total
    ensures |ScanOrdinals(total, rpi, total)| > rpi
    ensures ScanOrdinals(total, rpi, total)[1] == 1 && ScanOrdinals(total, rpi, total)[rpi] == 1
  {
    ScanOrdinalsPrefix(2, total, rpi, total);
    assert ScanOrdinals(1, rpi, total) == Window(0, rpi, total);
    assert ScanOrdinals(2, rpi, total) == Window(0, rpi, total) + Window(1, rpi, total);
  }

  /** Where row o starts: the header, then o rows. */
  function RowStart(a: ScanArgs, o: nat): nat {
    if o == 0 then a.headerOffset else RowStart(a, o - 1) + a.elementSize
  }

  lemma {:induction false} RowStartIs(a: ScanArgs, o: nat)
    ensures RowStart(a, o) == a.headerOffset + o * a.elementSize
  {
    if o > 0 {
      RowStartIs(a, o - 1);
      assert (o - 1) * a.elementSize + a.elementSize == o * a.elementSize;
    }
  }

  /** The bytes of row o; nothing when the row runs past the end of the file, which no visited
      row does (RowsFit). */
  function RowBytes(a: ScanArgs, o: nat): (bs: seq<byte>)
    ensures RowStart(a, o + 1) <= |a.file| ==> |bs| == a.elementSize
  {
    if RowStart(a, o + 1) <= |a.file| then a.file[RowStart(a, o)..RowStart(a, o + 1)] else []
  }

  /** Every row before TotalRows lies inside the file. */
  lemma RowsFit(a: ScanArgs, o: nat)
    requires Readable(a) && o < TotalRows(a)
    ensures RowStart(a, o + 1) <= |a.file|
  {
    RowInside(a, o + 1);
    RowStartIs(a, o + 1);
  }

  /** The first n rows lie inside the file. */
  lemma RowInside(a: ScanArgs, n: nat)
    requires Readable(a) && n <= TotalRows(a)
    ensures a.headerOffset + n * a.elementSize <= |a.file|
  {
    var d := |a.file| - a.headerOffset;
    var es := a.elementSize;
    assert TotalRows(a) * es <= d;
    MulMonotone(n, TotalRows(a), es);
  }

  lemma MulMonotone(x: nat, y: nat, m: nat)
    requires x <= y
    ensures x * m <= y * m
  {
  }

  const UNMATCHING: string := "Invalid alba type row order, unmatching stuff"
  const MISSING: string := "Invalid alba type row order, missing stuff"

  /** The header loop of `search` over one deserialised row: the value at each header's
      position must exist and be of the header's type; each is stored under the header's name.
      The first header that fails decides the error. */
  function CheckRow(values: seq<AlbaType>, headers: seq<(string, AlbaType)>): (r: Result<map<string, AlbaType>>)
    ensures r.Ok? ==> r.value.Keys == set k | 0 <= k < |headers| :: headers[k].0
  {
    if headers == [] then Ok(map[])
    else
      var n := |headers| - 1;
      var data :- CheckRow(values, headers[..n]);
      if n >= |values| then Err(Gerr(MISSING))
      else if !SameType(values[n], headers[n].1) then Err(Gerr(UNMATCHING))
      else
        assert forall k :: 0 <= k < n ==> headers[..n][k] == headers[k];
        Ok(data[headers[n].0 := values[n]])
  }

  /** A row passes exactly when it has a value of the right type for every header (extra values
      are ignored). A failing row reports a type mismatch when no value is missing, and a
      missing value when every value present has the right type. */
  lemma {:induction false} CheckRowOutcome(values: seq<AlbaType>, headers: seq<(string, AlbaType)>)
    ensures CheckRow(values, headers).Ok? <==>
      |headers| <= |values| && forall k :: 0 <= k < |headers| ==> SameType(values[k], headers[k].1)
    ensures |headers| <= |values| && CheckRow(values, headers).Err? ==>
      CheckRow(values, headers).error == Gerr(UNMATCHING)
    ensures |headers| > |values| && (forall k :: 0 <= k < |values| ==> SameType(values[k], headers[k].1)) ==>
      CheckRow(values, headers) == Err(Gerr(MISSING))
  {
    if headers != [] {
      var n := |headers| - 1;
      var pre := headers[..n];
      CheckRowOutcome(values, pre);
      assert forall k :: 0 <= k < n ==> pre[k] == headers[k];
    }
  }

  /** When no name repeats, each header's value is the one at its position. */
  lemma {:induction false} CheckRowValues(values: seq<AlbaType>, headers: seq<(string, AlbaType)>, k: nat)
    requires CheckRow(values, headers).Ok? && k < |headers|
    requires forall i, j :: 0 <= i < j < |headers| ==> headers[i].0 != headers[j].0
    ensures k < |values| && CheckRow(values, headers).value[headers[k].0] == values[k]
  {
    var n := |headers| - 1;
    var pre := headers[..n];
    assert CheckRow(values, pre).Ok?;
    if k < n {
      assert pre[k] == headers[k];
      CheckRowValues(values, pre, k);
      assert headers[k].0 != headers[n].0;
    }
  }

  /** Once a header has failed, the headers after it do not change the error. */
  lemma {:induction false} CheckRowStopsAtError(values: seq<AlbaType>, headers: seq<(string, AlbaType)>, k: nat)
    requires k <= |headers| && CheckRow(values, headers[..k]).Err?
    ensures CheckRow(values, headers) == CheckRow(values, headers[..k])
    decreases |headers|
  {
    if k < |headers| {
      var pre := headers[..|headers| - 1];
      assert pre[..k] == headers[..k];
      CheckRowStopsAtError(values, pre, k);
    } else {
      assert headers[..k] == headers;
    }
  }

  /** One row of the read loop: deserialise it, check it, and attach the header map. A row that
      does not deserialise fails; one that reads maps exactly the header names. */
  function ReadRow(a: ScanArgs, o: nat): (r: Result<Row>)
    ensures a.deserialize(RowBytes(a, o)).Err? ==> r.Err?
    ensures r.Ok? ==> r.value.metadata == a.containerHeaders
    ensures r.Ok? ==> r.value.data.Keys == set k | 0 <= k < |a.headers| :: a.headers[k].0
  {
    var values :- a.deserialize(RowBytes(a, o));
    var data :- CheckRow(values, a.headers);
    Ok(Row(data, a.containerHeaders))
  }

  /** The read loop over the ordinals os: each row with its ordinal; the first failure ends it. */
  function CollectRows(a: ScanArgs, os: seq<nat>): (r: Result<seq<(Row, nat)>>)
    ensures r.Ok? ==> |r.value| == |os| && forall k :: 0 <= k < |os| ==> r.value[k].1 == os[k]
  {
    if os == [] then Ok([])
    else
      var rows :- CollectRows(a, os[..|os| - 1]);
      var row :- ReadRow(a, os[|os| - 1]);
      assert forall k :: 0 <= k < |os| - 1 ==> os[..|os| - 1][k] == os[k];
      Ok(rows + [(row, os[|os| - 1])])
  }

  /** The loop succeeds exactly when every visited row reads; then it holds one entry per visit,
      in visiting order, each the row read at that ordinal. */
  lemma {:induction false} CollectRowsOutcome(a: ScanArgs, os: seq<nat>)
    ensures CollectRows(a, os).Ok? <==> forall k :: 0 <= k < |os| ==> ReadRow(a, os[k]).Ok?
    ensures CollectRows(a, os).Ok? ==>
      && |CollectRows(a, os).value| == |os|
      && forall k :: 0 <= k < |os| ==> CollectRows(a, os).value[k] == (ReadRow(a, os[k]).value, os[k])
  {
    if os != [] {
      var pre := os[..|os| - 1];
      CollectRowsOutcome(a, pre);
      assert forall k :: 0 <= k < |pre| ==> pre[k] == os[k];
    }
  }

  /** Once the loop has failed, reading further rows does not change the error. */
  lemma {:induction false} CollectRowsStopsAtError(a: ScanArgs, os: seq<nat>, more: seq<nat>)
    requires CollectRows(a, os).Err?
    ensures CollectRows(a, os + more) == CollectRows(a, os)
  {
    if more != [] {
      var pre := more[..|more| - 1];
      assert (os + more)[..|os + more| - 1] == os + pre;
      CollectRowsStopsAtError(a, os, pre);
    } else {
      assert os + more == os;
    }
  }

  /** The matching loop of `search`: the ordinals (as u64) of the rows the conditions match, in
      order; the first failing condition check is the result. */
  function MatchIds(a: ScanArgs, rows: seq<(Row, nat)>): (r: Result<seq<u64>>)
    ensures r.Ok? ==> |r.value| <= |rows|
  {
    if rows == [] then Ok([])
    else
      var ids :- MatchIds(a, rows[..|rows| - 1]);
      var m :- a.rowMatch(rows[|rows| - 1].0);
      Ok(ids + if m then [AsU64(rows[|rows| - 1].1)] else [])
  }

  /** Matching succeeds exactly when every condition check does; then an ordinal is kept
      exactly when the conditions accept one of the rows that carry it. */
  lemma {:induction false} MatchIdsOutcome(a: ScanArgs, rows: seq<(Row, nat)>, id: u64)
    ensures MatchIds(a, rows).Ok? <==> forall k :: 0 <= k < |rows| ==> a.rowMatch(rows[k].0).Ok?
    ensures MatchIds(a, rows).Ok? ==>
      (id in MatchIds(a, rows).value <==>
        exists k :: 0 <= k < |rows| && a.rowMatch(rows[k].0) == Ok(true) && AsU64(rows[k].1) == id)
  {
    if rows != [] {
      var pre := rows[..|rows| - 1];
      MatchIdsOutcome(a, pre, id);
      assert forall k :: 0 <= k < |pre| ==> pre[k] == rows[k];
      if MatchIds(a, rows).Ok? {
        var last := |rows| - 1;
        if id in MatchIds(a, rows).value && id !in MatchIds(a, pre).value {
          assert a.rowMatch(rows[last].0) == Ok(true) && AsU64(rows[last].1) == id;
        }
      }
    }
  }

  /** A row the conditions accept has its ordinal listed. */
  lemma {:induction false} MatchedRowKept(a: ScanArgs, rows: seq<(Row, nat)>, k: nat)
    requires MatchIds(a, rows).Ok? && k < |rows| && a.rowMatch(rows[k].0) == Ok(true)
    ensures AsU64(rows[k].1) in MatchIds(a, rows).value
  {
    var pre := rows[..|rows| - 1];
    if k < |rows| - 1 {
      assert pre[k] == rows[k];
      MatchedRowKept(a, pre, k);
    }
  }

  /** A listed id comes from a row the conditions accept. */
  lemma {:induction false} MatchedSource(a: ScanArgs, rows: seq<(Row, nat)>, id: u64) returns (k: nat)
    requires MatchIds(a, rows).Ok? && id in MatchIds(a, rows).value
    ensures k < |rows| && a.rowMatch(rows[k].0) == Ok(true) && AsU64(rows[k].1) == id
  {
    var pre := rows[..|rows| - 1];
    if id in MatchIds(a, pre).value {
      k := MatchedSource(a, pre, id);
      assert pre[k] == rows[k];
    } else {
      k := |rows| - 1;
    }
  }

  /** Once a condition check has failed, later rows do not change the error. */
  lemma {:induction false} MatchIdsStopsAtError(a: ScanArgs, rows: seq<(Row, nat)>, more: seq<(Row, nat)>)
    requires MatchIds(a, rows).Err?
    ensures MatchIds(a, rows + more) == MatchIds(a, rows)
  {
    if more != [] {
      var pre := more[..|more| - 1];
      assert (rows + more)[..|rows + more| - 1] == rows + pre;
      MatchIdsStopsAtError(a, rows, pre);
    } else {
      assert rows + more == rows;
    }
  }

  /** The ids of the pages, in order. */
  function Flatten(ps: seq<Page>): seq<u64> {
    if ps == [] then [] else ps[0].ids + Flatten(ps[1..])
  }

  lemma {:induction false} FlattenAppend(ps: seq<Page>, p: Page)
    ensures Flatten(ps + [p]) == Flatten(ps) + p.ids
  {
    if ps != [] {
      assert (ps + [p])[1..] == ps[1..] + [p];
      FlattenAppend(ps[1..], p);
    } else {
      assert Flatten([p]) == p.ids + Flatten([]);
    }
  }

  /** The paging of `search`: PAGE_SIZE ids per page, the remainder on a last, shorter page. */
  function Paginate(ids: seq<u64>, name: string): (ps: seq<Page>)
    ensures forall k :: 0 <= k < |ps| ==> ps[k].container == name && 1 <= |ps[k].ids| <= PAGE_SIZE
    decreases |ids|
  {
    if ids == [] then []
    else if |ids| <= PAGE_SIZE then [Page(ids, name)]
    else [Page(ids[..PAGE_SIZE], name)] + Paginate(ids[PAGE_SIZE..], name)
  }

  /** Paging loses and reorders no id; every page names the container, holds between one and
      PAGE_SIZE ids, and all but the last hold exactly PAGE_SIZE. */
  lemma {:induction false} PaginateShape(ids: seq<u64>, name: string)
    ensures Flatten(Paginate(ids, name)) == ids
    ensures |Paginate(ids, name)| == (|ids| + PAGE_SIZE - 1) / PAGE_SIZE
    ensures forall k :: 0 <= k < |Paginate(ids, name)| ==>
      && Paginate(ids, name)[k].container == name
      && 1 <= |Paginate(ids, name)[k].ids| <= PAGE_SIZE
      && (k + 1 < |Paginate(ids, name)| ==> |Paginate(ids, name)[k].ids| == PAGE_SIZE)
    decreases |ids|
  {
    if |ids| > PAGE_SIZE {
      var rest := ids[PAGE_SIZE..];
      PaginateShape(rest, name);
      var ps := Paginate(ids, name);
      assert ps[1..] == Paginate(rest, name);
      assert ids == ids[..PAGE_SIZE] + rest;
    } else if ids != [] {
      assert Flatten([Page(ids, name)]) == ids + Flatten([]);
    }
  }

  predicate FullPages(ps: seq<Page>, name: string) {
    forall k :: 0 <= k < |ps| ==> |ps[k].ids| == PAGE_SIZE && ps[k].container == name
  }

  /** The state of the paging loop determines the pages it ends with: full pages already
      pushed, then the bucket if it is not empty. */
  lemma {:induction false} PaginateFromBucket(ps: seq<Page>, bucket: seq<u64>, name: string)
    requires FullPages(ps, name) && |bucket| < PAGE_SIZE
    ensures Paginate(Flatten(ps) + bucket, name) == ps + (if bucket == [] then [] else [Page(bucket, name)])
  {
    if ps != [] {
      var tail := ps[1..];
      PaginateFromBucket(tail, bucket, name);
      var ids := Flatten(ps) + bucket;
      assert ids == ps[0].ids + (Flatten(tail) + bucket);
      assert ids[..PAGE_SIZE] == ps[0].ids && ids[PAGE_SIZE..] == Flatten(tail) + bucket;
      assert Page(ps[0].ids, name) == ps[0];
      assert ps == [ps[0]] + tail;
    } else {
      assert Flatten(ps) + bucket == bucket;
    }
  }

  /** The column types `search` builds its query with. */
  function TypesOf(values: seq<(string, AlbaType)>): (ts: seq<AlbaType>)
    ensures |ts| == |values| && forall k :: 0 <= k < |values| ==> ts[k] == values[k].1
  {
    seq(|values|, k requires 0 <= k < |values| => values[k].1)
  }

  /** `search`: read every visited row, match them, and page the matching ordinals into a new
      query with the given id. The query stands on page 0 with no rows, no column names and the
      trimmed column types of the container. Every page names the container and holds one to
      PAGE_SIZE ids. */
  function SearchResult(a: ScanArgs, id: string): (r: Result<QueryState>)
    requires Readable(a)
    ensures r.Ok? ==>
      && r.value.currentPage == 0 && r.value.id == id && r.value.rows == Rows([], [])
      && r.value.columnNames == [] && r.value.columnTypes == KeepTypes(TypesOf(a.containerValues))
      && forall k :: 0 <= k < |r.value.pages| ==>
           r.value.pages[k].container == a.containerName && 1 <= |r.value.pages[k].ids| <= PAGE_SIZE
  {
    var rows :- CollectRows(a, Ordinals(a));
    var ids :- MatchIds(a, rows);
    Ok(NewSpec(TypesOf(a.containerValues), id).(pages := Paginate(ids, a.containerName)))
  }

  /** `search` fails exactly when a visited row fails to read or a condition check fails. */
  lemma SearchFails(a: ScanArgs, id: string)
    requires Readable(a)
    ensures SearchResult(a, id).Ok? <==>
      && (forall k :: 0 <= k < |Ordinals(a)| ==> ReadRow(a, Ordinals(a)[k]).Ok?)
      && (forall k :: 0 <= k < |Ordinals(a)| ==> a.rowMatch(ReadRow(a, Ordinals(a)[k]).value).Ok?)
  {
    var os := Ordinals(a);
    CollectRowsOutcome(a, os);
    if CollectRows(a, os).Ok? {
      var rows := CollectRows(a, os).value;
      assert forall k :: 0 <= k < |os| ==> rows[k].0 == ReadRow(a, os[k]).value;
      MatchIdsOutcome(a, rows, 0);
    }
  }

  /** The ids on the pages of a successful `search` are exactly the ordinals of the rows the
      conditions accept. */
  lemma SearchFindsMatches(a: ScanArgs, id: string, o: u64)
    requires Readable(a) && |a.file| < U64_MODULUS && SearchResult(a, id).Ok?
    ensures o in Flatten(SearchResult(a, id).value.pages) <==>
      o < TotalRows(a) && ReadRow(a, o).Ok? && a.rowMatch(ReadRow(a, o).value) == Ok(true)
  {
    var rows := CollectRows(a, Ordinals(a)).value;
    var ids := MatchIds(a, rows).value;
    assert SearchResult(a, id).value.pages == Paginate(ids, a.containerName);
    PaginateShape(ids, a.containerName);
    if o < TotalRows(a) && ReadRow(a, o).Ok? && a.rowMatch(ReadRow(a, o).value) == Ok(true) {
      MatchedRowListed(a, rows, o);
    }
    if o in ids {
      var ord := ListedRowMatched(a, rows, o);
      TotalRowsBound(a);
      AsU64Small(ord);
    }
  }

  lemma MatchedRowListed(a: ScanArgs, rows: seq<(Row, nat)>, o: u64)
    requires Readable(a) && CollectRows(a, Ordinals(a)) == Ok(rows) && MatchIds(a, rows).Ok?
    requires o < TotalRows(a) && ReadRow(a, o).Ok? && a.rowMatch(ReadRow(a, o).value) == Ok(true)
    ensures o in MatchIds(a, rows).value
  {
    var os := Ordinals(a);
    CollectRowsOutcome(a, os);
    var k := ScanCoversEveryRow(RowsPerIteration(a), TotalRows(a), o);
    assert rows[k] == (ReadRow(a, o).value, o as nat);
    MatchedRowKept(a, rows, k);
    AsU64Small(o as nat);
  }

  lemma ListedRowMatched(a: ScanArgs, rows: seq<(Row, nat)>, o: u64) returns (ord: nat)
    requires Readable(a) && CollectRows(a, Ordinals(a)) == Ok(rows)
    requires MatchIds(a, rows).Ok? && o in MatchIds(a, rows).value
    ensures ord < TotalRows(a) && AsU64(ord) == o
    ensures ReadRow(a, ord).Ok? && a.rowMatch(ReadRow(a, ord).value) == Ok(true)
  {
    var os := Ordinals(a);
    CollectRowsOutcome(a, os);
    var k := MatchedSource(a, rows, o);
    assert rows[k] == (ReadRow(a, os[k]).value, os[k]);
    ord := os[k];
  }

  lemma AsU64Small(x: nat)
    requires x < U64_MODULUS
    ensures AsU64(x) == x
  {
  }

  lemma TotalRowsBound(a: ScanArgs)
    requires Readable(a)
    ensures TotalRows(a) <= |a.file|
  {
    RowInside(a, TotalRows(a));
    MulMonotone(1, a.elementSize, TotalRows(a));
  }
}
