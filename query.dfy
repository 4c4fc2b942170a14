/** A query result (`Query`) as an object whose methods update it in place, and the container
    scan `search` that builds one. Every method is proved to perform the transition of module
    QuerySpec, and `search` to compute ScanSpec.SearchResult. */
module Queries {
  import opened Primitives
  import opened Errors
  import opened AlbaTypes
  import opened QuerySpec
  import opened ScanSpec

  class Query {
    /** The rows of the current page, with the container's column names. */
    var rows: Rows
    /** Row ordinals, PAGE_SIZE at most per page, each with its container's name. */
    var pages: seq<Page>
    var currentPage: nat
    var columnNames: seq<string>
    var columnTypes: seq<AlbaType>
    var id: string

    function State(): QueryState
      reads this
    {
      QueryState(rows, pages, currentPage, columnNames, columnTypes, id)
    }

    /** A query holding exactly the given state (the struct literal). */
    constructor FromState(s: QueryState)
      ensures State() == s
    {
      rows := s.rows;
      pages := s.pages;
      currentPage := s.currentPage;
      columnNames := s.columnNames;
      columnTypes := s.columnTypes;
      id := s.id;
    }

    /** `new`: an empty query over the given column types, trimmed. The id is the secure code the
        caller generated. */
    constructor New(columnTypes: seq<AlbaType>, id: string)
      ensures State() == NewSpec(columnTypes, id)
    {
      rows := Rows([], []);
      pages := [];
      currentPage := 0;
      columnNames := [];
      this.columnTypes := columnTypes;
      this.id := id;
      new;
      Trim();
    }

    /** `new_none`: as `new`, with an empty id. */
    constructor NewNone(columnTypes: seq<AlbaType>)
      ensures State() == NewSpec(columnTypes, "")
    {
      rows := Rows([], []);
      pages := [];
      currentPage := 0;
      columnNames := [];
      this.columnTypes := columnTypes;
      id := "";
      new;
      Trim();
    }

    /** `duplicate`: a new query with the same state. */
    method Duplicate() returns (q: Query)
      ensures fresh(q) && q.State() == State()
    {
      q := new Query.FromState(State());
    }

    /** `trim`: drop NONE column types and empty column names. */
    method Trim()
      modifies this
      ensures State() == TrimSpec(old(State()))
    {
      columnTypes := KeepTypes(columnTypes);
      columnNames := KeepNames(columnNames);
    }

    /** `join`: when the column types agree, fill each shared page from the foreign page at the
        same position up to PAGE_SIZE ids, append the foreign pages past the end, and trim. The
        foreign query is read as it was on entry. */
    method Join(foreign: Query, fl: FloatOps)
      modifies this
      ensures State() == JoinSpec(old(State()), old(foreign.State()), fl)
    {
      var f := foreign.State();
      if !ValuesEq(fl, f.columnTypes, columnTypes) {
        return;
      }
      ghost var mine := pages;
      var idx := 0;
      while idx < |f.pages|
        invariant 0 <= idx <= |f.pages|
        invariant rows == old(rows) && currentPage == old(currentPage) && id == old(id)
        invariant columnNames == old(columnNames) && columnTypes == old(columnTypes)
        invariant pages == JoinPages(mine, f.pages[..idx])
      {
        JoinPagesStep(mine, f.pages, idx);
        var foreignIds := f.pages[idx].ids;
        if idx < |pages| {
          var selfIds := FillPage(pages[idx].ids, foreignIds);
          pages := pages[idx := Page(selfIds, pages[idx].container)];
        } else {
          pages := pages + [f.pages[idx]];
        }
        idx := idx + 1;
      }
      assert f.pages[..|f.pages|] == f.pages;
      Trim();
    }

    /** `load_rows`: fetch the first row of every id of the current page from its container,
        store them with the container's column names, and trim. */
    method LoadRows(db: Database) returns (r: Result<()>)
      modifies this
      ensures (State(), r) == LoadRowsSpec(old(State()), db)
    {
      if pages == [] {
        return Ok(());
      }
      if currentPage >= |pages| {
        return Err(Gerr(NO_PAGE));
      }
      var page := pages[currentPage];
      if page.container !in db {
        return Err(Gerr(NO_CONTAINER + page.container));
      }
      var container := db[page.container];
      var fetched: seq<seq<AlbaType>> := [];
      var i := 0;
      while i < |page.ids|
        invariant 0 <= i <= |page.ids|
        invariant FetchRows(page.ids[..i], container) == Ok(fetched)
      {
        assert page.ids[..i + 1][..i] == page.ids[..i];
        var got := container.getRows(page.ids[i]);
        if got.Err? {
          FetchRowsStopsAtError(page.ids, container, i + 1);
          return Err(got.error);
        }
        if got.value != [] {
          fetched := fetched + [got.value[0]];
        } else {
          assert fetched + [] == fetched;
        }
        i := i + 1;
      }
      assert page.ids[..|page.ids|] == page.ids;
      rows := Rows(container.columnNames, fetched);
      Trim();
      r := Ok(());
    }

    /** `next`: move one page on, unless at the last page, and load it. */
    method Next(db: Database) returns (r: Result<()>)
      modifies this
      ensures (State(), r) == NextSpec(old(State()), db)
    {
      if pages == [] {
        return Ok(());
      }
      if currentPage + 1 >= |pages| {
        return Ok(());
      }
      currentPage := currentPage + 1;
      r := LoadRows(db);
      if r.Err? {
        return;
      }
      Trim();
      r := Ok(());
    }

    /** `previous`: move one page back, unless at page 0, and load it. */
    method Previous(db: Database) returns (r: Result<()>)
      modifies this
      ensures (State(), r) == PreviousSpec(old(State()), db)
    {
      if pages == [] {
        return Ok(());
      }
      if currentPage == 0 {
        return Ok(());
      }
      currentPage := currentPage - 1;
      r := LoadRows(db);
      if r.Err? {
        return;
      }
      Trim();
      r := Ok(());
    }

    /** `push`: append a page. */
    method Push(page: Page)
      modifies this
      ensures State() == PushSpec(old(State()), page)
    {
      pages := pages + [page];
    }
  }

  /** Joining one more foreign page changes only the page at its position. */
  lemma JoinPagesStep(mine: seq<Page>, theirs: seq<Page>, idx: nat)
    requires idx < |theirs|
    ensures var before := JoinPages(mine, theirs[..idx]);
      && |before| == Max(|mine|, idx)
      && (idx < |mine| ==> before[idx] == mine[idx])
      && JoinPages(mine, theirs[..idx + 1]) ==
           if idx < |mine| then before[idx := Page(Fill(mine[idx].ids, theirs[idx].ids), mine[idx].container)]
           else before + [theirs[idx]]
  {
    var before := JoinPages(mine, theirs[..idx]);
    var after := JoinPages(mine, theirs[..idx + 1]);
    if idx < |mine| {
      assert after == before[idx := Page(Fill(mine[idx].ids, theirs[idx].ids), mine[idx].container)];
    } else {
      assert after == before + [theirs[idx]];
    }
  }

  /** The inner loop of `join`: push foreign ids one at a time while the page holds fewer than
      PAGE_SIZE. */
  method FillPage(mine: seq<u64>, foreignIds: seq<u64>) returns (selfIds: seq<u64>)
    ensures selfIds == Fill(mine, foreignIds)
  {
    selfIds := mine;
    var j := 0;
    while j < |foreignIds|
      invariant 0 <= j <= |foreignIds|
      invariant selfIds == Fill(mine, foreignIds[..j])
    {
      if |selfIds| < PAGE_SIZE {
        assert foreignIds[..j + 1] == foreignIds[..j] + [foreignIds[j]];
        selfIds := selfIds + [foreignIds[j]];
      } else {
        FillSaturates(mine, foreignIds, j);
        return;
      }
      j := j + 1;
    }
    assert foreignIds[..|foreignIds|] == foreignIds;
  }

  /** A page that has reached PAGE_SIZE takes no more ids. */
  lemma FillSaturates(ids: seq<u64>, extra: seq<u64>, j: nat)
    requires j <= |extra| && |Fill(ids, extra[..j])| >= PAGE_SIZE
    ensures Fill(ids, extra[..j]) == Fill(ids, extra)
  {
    if |ids| < PAGE_SIZE {
      assert extra[..j][..PAGE_SIZE - |ids|] == extra[..PAGE_SIZE - |ids|];
    }
  }

  /** The header loop of `search` over one deserialised row. */
  method CheckRowValues(values: seq<AlbaType>, headers: seq<(string, AlbaType)>)
    returns (r: Result<map<string, AlbaType>>)
    ensures r == CheckRow(values, headers)
  {
    var data: map<string, AlbaType> := map[];
    var idx := 0;
    while idx < |headers|
      invariant 0 <= idx <= |headers|
      invariant CheckRow(values, headers[..idx]) == Ok(data)
    {
      assert headers[..idx + 1][..idx] == headers[..idx];
      if idx >= |values| {
        CheckRowStopsAtError(values, headers, idx + 1);
        return Err(Gerr(MISSING));
      }
      if !SameType(values[idx], headers[idx].1) {
        CheckRowStopsAtError(values, headers, idx + 1);
        return Err(Gerr(UNMATCHING));
      }
      data := data[headers[idx].0 := values[idx]];
      idx := idx + 1;
    }
    assert headers[..|headers|] == headers;
    r := Ok(data);
  }

  lemma MulDistributes(x: nat, y: nat, m: nat)
    ensures (x + y) * m == x * m + y * m
  {
  }

  /** `search`: read the rows of the data file window by window, check each against the
      container's headers, then page the ordinals of the rows the conditions match into a new
      query with the given id. */
  method Search(a: ScanArgs, id: string) returns (r: Result<Query>)
    requires Readable(a)
    ensures r.Ok? <==> SearchResult(a, id).Ok?
    ensures r.Err? ==> r.error == SearchResult(a, id).error
    ensures r.Ok? ==> fresh(r.value) && r.value.State() == SearchResult(a, id).value
  {
    var scanned := ReadRows(a);
    if scanned.Err? {
      return Err(scanned.error);
    }
    r := PageMatches(a, scanned.value, id);
  }

  /** The read loop of `search`: every window, each row deserialised and checked. */
  method ReadRows(a: ScanArgs) returns (r: Result<seq<(Row, nat)>>)
    requires Readable(a)
    ensures r == CollectRows(a, Ordinals(a))
  {
    var total := TotalRows(a);
    var readen := 0;
    var rpi := RowsPerIteration(a);
    var scanned: seq<(Row, nat)> := [];
    while readen < total
      invariant readen <= total
      invariant CollectRows(a, ScanOrdinals(readen, rpi, total)) == Ok(scanned)
    {
      var toRead := if rpi <= total - readen then rpi else total - readen;
      var start, buffer := WindowBytes(a, readen, toRead);
      r := ReadWindow(a, buffer, start, readen, toRead, rpi, total, scanned);
      if r.Err? {
        return;
      }
      scanned := r.value;
      readen := readen + 1;
    }
    r := Ok(scanned);
  }

  /** The read at the top of each pass: toRead rows' worth of bytes, from the offset of row
      readen past the header. */
  method WindowBytes(a: ScanArgs, readen: nat, toRead: nat) returns (start: nat, buffer: seq<byte>)
    requires Readable(a) && readen + toRead <= TotalRows(a)
    ensures start == RowStart(a, readen) && start <= RowStart(a, readen + toRead) <= |a.file|
    ensures buffer == a.file[start..RowStart(a, readen + toRead)]
  {
    WindowBounds(a, readen, toRead);
    start := a.headerOffset + readen * a.elementSize;
    buffer := a.file[start..start + toRead * a.elementSize];
  }

  /** One pass of the read loop: the rows of the window at row readen, from the bytes read for
      it, appended to those scanned so far. */
  method ReadWindow(a: ScanArgs, buffer: seq<byte>, start: nat, readen: nat, toRead: nat, rpi: nat, total: nat,
                    scanned: seq<(Row, nat)>)
    returns (r: Result<seq<(Row, nat)>>)
    requires readen < total && start == RowStart(a, readen) && toRead == ToRead(readen, rpi, total)
    requires RowStart(a, readen + toRead) <= |a.file| && start <= RowStart(a, readen + toRead)
    requires buffer == a.file[start..RowStart(a, readen + toRead)]
    requires CollectRows(a, ScanOrdinals(readen, rpi, total)) == Ok(scanned)
    ensures r.Ok? ==> CollectRows(a, ScanOrdinals(readen + 1, rpi, total)) == r
    ensures r.Err? ==> CollectRows(a, ScanOrdinals(total, rpi, total)) == r
  {
    var rows := scanned;
    var i := 0;
    VisitedEnds(readen, rpi, total);
    while i < toRead
      invariant 0 <= i <= toRead
      invariant CollectRows(a, Visited(readen, i, rpi, total)) == Ok(rows)
    {
      var row := ReadWindowRow(a, buffer, start, readen, toRead, i);
      WindowRowStep(a, readen, rpi, total, i, rows, row);
      if row.Err? {
        return Err(row.error);
      }
      rows := rows + [(row.value, readen + i)];
      i := i + 1;
    }
    r := Ok(rows);
  }

  /** Row i of the window at row readen, read from the bytes read for the window. */
  method ReadWindowRow(a: ScanArgs, buffer: seq<byte>, start: nat, readen: nat, toRead: nat, i: nat)
    returns (row: Result<Row>)
    requires i < toRead && start == RowStart(a, readen)
    requires RowStart(a, readen + toRead) <= |a.file| && start <= RowStart(a, readen + toRead)
    requires buffer == a.file[start..RowStart(a, readen + toRead)]
    ensures row == ReadRow(a, readen + i)
  {
    var buff := RowSlice(a, buffer, start, readen, toRead, i);
    row := ReadOneRow(a, buff, readen + i);
  }

  /** The body of the read loop for one row: deserialise its bytes and check them against the
      container's headers. */
  method ReadOneRow(a: ScanArgs, buff: seq<byte>, o: nat) returns (r: Result<Row>)
    requires buff == RowBytes(a, o)
    ensures r == ReadRow(a, o)
  {
    var content := a.deserialize(buff);
    if content.Err? {
      return Err(content.error);
    }
    var data := CheckRowValues(content.value, a.headers);
    if data.Err? {
      return Err(data.error);
    }
    r := Ok(Row(data.value, a.containerHeaders));
  }

  /** The bytes `search` reads for the window at row readen lie inside the file, from the start
      of row readen to the start of row readen + toRead. */
  lemma WindowBounds(a: ScanArgs, readen: nat, toRead: nat)
    requires Readable(a) && readen + toRead <= TotalRows(a)
    ensures a.headerOffset + readen * a.elementSize == RowStart(a, readen)
    ensures a.headerOffset + readen * a.elementSize + toRead * a.elementSize == RowStart(a, readen + toRead)
    ensures RowStart(a, readen + toRead) <= |a.file|
  {
    RowInside(a, readen + toRead);
    MulDistributes(readen, toRead, a.elementSize);
    RowStartIs(a, readen);
    RowStartIs(a, readen + toRead);
  }

  /** One row of the window loop: after a successful prefix, a row that reads extends the
      result and a row that fails is the error of the whole scan. */
  lemma WindowRowStep(a: ScanArgs, readen: nat, rpi: nat, total: nat, i: nat, rows: seq<(Row, nat)>, row: Result<Row>)
    requires readen < total && i < ToRead(readen, rpi, total)
    requires CollectRows(a, Visited(readen, i, rpi, total)) == Ok(rows)
    requires row == ReadRow(a, readen + i)
    ensures row.Err? ==> CollectRows(a, ScanOrdinals(total, rpi, total)) == Err(row.error)
    ensures row.Ok? ==> CollectRows(a, Visited(readen, i + 1, rpi, total)) == Ok(rows + [(row.value, readen + i)])
  {
    CollectVisitedStep(a, readen, rpi, total, i);
    if row.Err? {
      WindowRowFails(a, readen, rpi, total, i + 1);
    }
  }

  /** Visiting row readen + i after the first i rows of its window. */
  lemma CollectVisitedStep(a: ScanArgs, readen: nat, rpi: nat, total: nat, i: nat)
    requires readen < total && i < ToRead(readen, rpi, total)
    requires CollectRows(a, Visited(readen, i, rpi, total)).Ok?
    ensures CollectRows(a, Visited(readen, i + 1, rpi, total)) ==
      if ReadRow(a, readen + i).Err? then Err(ReadRow(a, readen + i).error)
      else Ok(CollectRows(a, Visited(readen, i, rpi, total)).value + [(ReadRow(a, readen + i).value, readen + i)])
  {
    var v := Visited(readen, i, rpi, total);
    VisitedStep(readen, i, rpi, total);
    CollectRowsSnoc(a, v, readen + i);
    assert CollectRows(a, Visited(readen, i + 1, rpi, total)) == CollectRows(a, v + [readen + i]);
  }

  /** A row of the window that fails to read is the error of the whole scan. */
  lemma WindowRowFails(a: ScanArgs, readen: nat, rpi: nat, total: nat, i: nat)
    requires readen < total && i <= ToRead(readen, rpi, total)
    requires CollectRows(a, Visited(readen, i, rpi, total)).Err?
    ensures CollectRows(a, ScanOrdinals(total, rpi, total)) == CollectRows(a, Visited(readen, i, rpi, total))
  {
    VisitedPrefix(readen, i, rpi, total);
    ScanStopsAt(a, ScanOrdinals(total, rpi, total), Visited(readen, i, rpi, total));
  }

  /** Reading one more row after a successful prefix. */
  lemma CollectRowsSnoc(a: ScanArgs, os: seq<nat>, o: nat)
    requires CollectRows(a, os).Ok?
    ensures CollectRows(a, os + [o]) ==
      if ReadRow(a, o).Err? then Err(ReadRow(a, o).error)
      else Ok(CollectRows(a, os).value + [(ReadRow(a, o).value, o)])
  {
    assert (os + [o])[..|os|] == os;
  }

  /** The paging loop of `search`: a new query with the given id, then the ordinals of the rows
      the conditions match, PAGE_SIZE to a page, the remainder on a last page. */
  method PageMatches(a: ScanArgs, scanned: seq<(Row, nat)>, id: string) returns (r: Result<Query>)
    ensures r.Ok? <==> MatchIds(a, scanned).Ok?
    ensures r.Err? ==> r.error == MatchIds(a, scanned).error
    ensures r.Ok? ==> fresh(r.value)
    ensures r.Ok? ==>
      r.value.State() == NewSpec(TypesOf(a.containerValues), id).(pages := Paginate(MatchIds(a, scanned).value, a.containerName))
  {
    var query := new Query.New(TypesOf(a.containerValues), id);
    var bucket: seq<u64> := [];
    var bucketLen := 0;
    var k := 0;
    assert scanned[..0] == [] && Flatten([]) + [] == [];
    while k < |scanned|
      invariant 0 <= k <= |scanned|
      invariant fresh(query)
      invariant query.State() == NewSpec(TypesOf(a.containerValues), id).(pages := query.pages)
      invariant FullPages(query.pages, a.containerName)
      invariant bucketLen == |bucket| < PAGE_SIZE
      invariant MatchIds(a, scanned[..k]) == Ok(Flatten(query.pages) + bucket)
    {
      assert scanned[..k + 1][..k] == scanned[..k];
      var m := a.rowMatch(scanned[k].0);
      if m.Err? {
        MatchFailsAt(a, scanned, k);
        return Err(m.error);
      }
      MatchIdsStep(a, scanned, k);
      ghost var before := Flatten(query.pages) + bucket;
      if m.value {
        bucket := bucket + [AsU64(scanned[k].1)];
        bucketLen := bucketLen + 1;
        assert Flatten(query.pages) + bucket == before + [AsU64(scanned[k].1)];
        if bucketLen >= PAGE_SIZE {
          ClosePage(query, bucket, a.containerName);
          assert Flatten(query.pages) + [] == before + [AsU64(scanned[k].1)];
          bucket := [];
          bucketLen := 0;
        }
      } else {
        assert before + [] == before;
      }
      k := k + 1;
    }
    assert scanned[..|scanned|] == scanned;
    PaginateFromBucket(query.pages, bucket, a.containerName);
    if bucketLen > 0 {
      query.Push(Page(bucket, a.containerName));
    }
    r := Ok(query);
  }

  /** A full bucket becomes the next page of the query; nothing else about the query changes. */
  method ClosePage(query: Query, bucket: seq<u64>, name: string)
    requires FullPages(query.pages, name) && |bucket| == PAGE_SIZE
    modifies query
    ensures query.State() == old(query.State()).(pages := old(query.pages) + [Page(bucket, name)])
    ensures FullPages(query.pages, name)
    ensures Flatten(query.pages) == Flatten(old(query.pages)) + bucket
  {
    FlattenAppend(query.pages, Page(bucket, name));
    query.Push(Page(bucket, name));
  }

  /** A condition check that fails after a successful prefix is the error of the whole match. */
  lemma MatchFailsAt(a: ScanArgs, rows: seq<(Row, nat)>, k: nat)
    requires k < |rows| && MatchIds(a, rows[..k]).Ok? && a.rowMatch(rows[k].0).Err?
    ensures MatchIds(a, rows) == Err(a.rowMatch(rows[k].0).error)
  {
    assert rows[..k + 1][..k] == rows[..k];
    MatchIdsStopsAtError(a, rows[..k + 1], rows[k + 1..]);
    assert rows[..k + 1] + rows[k + 1..] == rows;
  }

  lemma MatchIdsStep(a: ScanArgs, rows: seq<(Row, nat)>, k: nat)
    requires k < |rows| && MatchIds(a, rows[..k]).Ok? && a.rowMatch(rows[k].0).Ok?
    ensures MatchIds(a, rows[..k + 1]) ==
      Ok(MatchIds(a, rows[..k]).value + if a.rowMatch(rows[k].0).value then [AsU64(rows[k].1)] else [])
  {
    assert rows[..k + 1][..k] == rows[..k];
  }

  /** Row i of the window at row readen: the slice at i * elementSize of the bytes read for the
      window. */
  method RowSlice(a: ScanArgs, buffer: seq<byte>, start: nat, readen: nat, toRead: nat, i: nat)
    returns (buff: seq<byte>)
    requires i < toRead && start == RowStart(a, readen)
    requires RowStart(a, readen + toRead) <= |a.file| && start <= RowStart(a, readen + toRead)
    requires buffer == a.file[start..RowStart(a, readen + toRead)]
    ensures buff == RowBytes(a, readen + i)
  {
    var lo := i * a.elementSize;
    var hi := (i + 1) * a.elementSize;
    WindowRowBytes(a, buffer, start, readen, toRead, i, lo, hi);
    buff := buffer[lo..hi];
  }

  /** Bytes lo..hi of the window are row readen + i. */
  lemma WindowRowBytes(a: ScanArgs, buffer: seq<byte>, start: nat, readen: nat, toRead: nat, i: nat, lo: nat, hi: nat)
    requires i < toRead && start == RowStart(a, readen)
    requires RowStart(a, readen + toRead) <= |a.file| && start <= RowStart(a, readen + toRead)
    requires buffer == a.file[start..RowStart(a, readen + toRead)]
    requires lo == i * a.elementSize && hi == (i + 1) * a.elementSize
    ensures lo <= hi <= |buffer| && buffer[lo..hi] == RowBytes(a, readen + i)
  {
    var end := RowStart(a, readen + toRead);
    SliceBounds(a, readen, toRead, i);
    assert RowStart(a, readen + i) == start + lo && RowStart(a, readen + i + 1) == start + hi;
    assert hi <= end - start;
    SliceOfSlice(a.file, start, end, lo, hi);
  }

  lemma SliceOfSlice<T>(s: seq<T>, b: nat, e: nat, lo: nat, hi: nat)
    requires b <= e <= |s| && lo <= hi <= e - b
    ensures s[b..e][lo..hi] == s[b + lo..b + hi]
  {
    forall k | 0 <= k < hi - lo
      ensures s[b..e][lo..hi][k] == s[b + lo..b + hi][k]
    {
      assert s[b..e][lo..hi][k] == s[b..e][lo + k] == s[b + lo + k];
    }
  }

  /** Row i of the window at row readen starts i * elementSize bytes after the window and ends
      (i + 1) * elementSize bytes after it, inside the window. */
  lemma SliceBounds(a: ScanArgs, readen: nat, toRead: nat, i: nat)
    requires i < toRead
    ensures RowStart(a, readen + i) == RowStart(a, readen) + i * a.elementSize
    ensures RowStart(a, readen + i + 1) == RowStart(a, readen) + (i + 1) * a.elementSize
    ensures (i + 1) * a.elementSize <= RowStart(a, readen + toRead) - RowStart(a, readen)
  {
    var es := a.elementSize;
    RowStartIs(a, readen);
    RowStartIs(a, readen + toRead);
    MulDistributes(readen, toRead, es);
    RowStartIs(a, readen + i);
    MulDistributes(readen, i, es);
    MulDistributes(i, 1, es);
    MulMonotone(i + 1, toRead, es);
    RowStartIs(a, readen + i + 1);
    MulDistributes(readen, i + 1, es);
  }

  /** A row that fails to read at the end of the visits so far is the error of the whole scan. */
  lemma ScanStopsAt(a: ScanArgs, full: seq<nat>, upTo: seq<nat>)
    requires |upTo| <= |full| && full[..|upTo|] == upTo && CollectRows(a, upTo).Err?
    ensures CollectRows(a, full) == CollectRows(a, upTo)
  {
    assert full == upTo + full[|upTo|..];
    CollectRowsStopsAtError(a, upTo, full[|upTo|..]);
  }
}
