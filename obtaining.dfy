/**
 * The collection side: walking a range of `YYYYMM` months, asking the
 * article search for each month's hits and headline pages, and writing one
 * table row per month. The search service is a function `respond` from a
 * request to its response, and the methods return the requests they sent,
 * in order. `collect_headlines_and_hits` never passes its `page` counter on,
 * so every request of a month is the same page-1 request.
 */
module Obtaining {
  import opened PyText
  import opened Calendar
  import opened CountryTable

  // ---------------------------------------------------------------------
  // The month range

  /** A range the walk `while current != next_month(end)` covers month by
      month: two well-formed months in order. Before year 0999 a December
      loses its leading zeros, so such a range must stay within one year. */
  predicate ValidRange(begin: string, end: string)
  {
    WellFormed(begin) && WellFormed(end) && Index(begin) <= Index(end) &&
    (Year(begin) >= 999 || Year(begin) == Year(end))
  }

  /** The month string of index k. */
  function MonthAt(k: nat): (m: string)
    requires k < 120000
    ensures WellFormed(m) && Index(m) == k
  {
    MonthOfIndexIsWellFormed(k);
    MonthOfIndex(k)
  }

  /** The range starts at `begin` and ends at `end`. */
  lemma RangeEnds(begin: string, end: string)
    requires ValidRange(begin, end)
    ensures MonthAt(Index(begin)) == begin && MonthAt(Index(end)) == end
  {
    IndexInjective(MonthAt(Index(begin)), begin);
    IndexInjective(MonthAt(Index(end)), end);
  }

  /** Every month of the range before `end` advances to the month of the
      next index under `next_month`. */
  lemma RangeStep(begin: string, end: string, k: nat)
    requires ValidRange(begin, end) && Index(begin) <= k < Index(end)
    ensures NextMonth(MonthAt(k)) == Ok(MonthAt(k + 1))
  {
    var m := MonthAt(k);
    assert Advances(m) by {
      if Month(m) == 12 {
        assert Year(m) < Year(end);
        assert Year(m) >= Year(begin);
      }
    }
    NextMonthIsNextIndex(m);
  }

  /** Inside the range, `next_month` of a month is the month of the next
      index, which is not yet the stop value `next_month(end)`. */
  lemma RangeNext(begin: string, end: string, k: nat)
    requires ValidRange(begin, end) && Index(begin) <= k < Index(end)
    ensures NextMonth(end).Ok?
    ensures NextMonth(MonthAt(k)) == Ok(MonthAt(k + 1))
    ensures MonthAt(k + 1) != NextMonth(end).value
  {
    RangeStep(begin, end, k);
    NextMonthLeaves(end, MonthAt(k + 1));
  }

  /** At the end of the range `next_month` yields the stop value. */
  lemma RangeLast(begin: string, end: string, k: nat)
    requires ValidRange(begin, end) && k == Index(end)
    ensures NextMonth(MonthAt(k)) == NextMonth(end)
  {
    RangeEnds(begin, end);
    var m := MonthAt(k);
    assert m == end;
  }

  /** Over a valid range, `next_month` of the month of index k is the month
      of index k + 1, which is not yet the stop value `next_month(end)`, or,
      at the end, the stop value itself. */
  lemma RangeWalk(begin: string, end: string, k: nat)
    requires ValidRange(begin, end) && Index(begin) <= k <= Index(end)
    ensures NextMonth(end).Ok? && NextMonth(MonthAt(k)).Ok?
    ensures k < Index(end) ==>
      NextMonth(MonthAt(k)).value == MonthAt(k + 1) && MonthAt(k + 1) != NextMonth(end).value
    ensures k == Index(end) ==> NextMonth(MonthAt(k)) == NextMonth(end)
  {
    NextMonthLeaves(end, begin);
    if k < Index(end) {
      RangeNext(begin, end, k);
    } else {
      RangeLast(begin, end, k);
    }
  }

  /** One step `current = next_month(current)` of the walk, from the month
      of index k. */
  lemma WalkStep(begin: string, end: string, k: nat, current: string)
    requires ValidRange(begin, end) && Index(begin) <= k <= Index(end)
    requires current == MonthAt(k)
    ensures NextMonth(end).Ok? && NextMonth(current).Ok?
    ensures k < Index(end) ==>
      NextMonth(current).value == MonthAt(k + 1) && NextMonth(current).value != NextMonth(end).value
    ensures k == Index(end) ==> NextMonth(current).value == NextMonth(end).value
  {
    RangeWalk(begin, end, k);
  }

  // ---------------------------------------------------------------------
  // Requests and the per-month results

  datatype Request = Request(term: string, beginDate: string, endDate: string, page: nat)

  /** The part of a search response the collection reads: the hit count and
      the main headlines of the returned page. */
  datatype Response = Response(hits: nat, headlines: seq<string>)

  /** The request for a month's window, `YYYYMM01` to `YYYYMM<days>`, at
      the default page. */
  function WindowRequest(term: string, month: string): Request
    requires WellFormed(month)
  {
    DaysInMonthValue(month);
    Request(term, month + "01", month + DaysInMonth(month).value, 1)
  }

  /** The window runs from the first to the last day of the month. */
  lemma WindowOfMonth(term: string, month: string)
    requires WellFormed(month)
    ensures var r := WindowRequest(term, month);
      r.term == term && r.page == 1 &&
      r.beginDate == month + "01" &&
      r.endDate == month + NatToString(DaysCount(Year(month), Month(month))) &&
      |r.beginDate| == 8 && |r.endDate| == 8
  {
    DaysInMonthValue(month);
  }

  /** `math.ceil(num_hits / 10)`. */
  function Pages(hits: nat): nat
  {
    (hits + 9) / 10
  }

  /** The page count is the least number of ten-result pages that hold
      every hit. */
  lemma PagesIsCeiling(hits: nat)
    ensures hits == 0 ==> Pages(hits) == 0
    ensures hits > 0 ==> Pages(hits) >= 1 && 10 * (Pages(hits) - 1) < hits <= 10 * Pages(hits)
  {
  }

  /** n copies of x. */
  function Copies<T>(x: T, n: nat): seq<T>
  {
    seq(n, _ => x)
  }

  lemma CopiesStep<T>(x: T, n: nat)
    ensures Copies(x, n + 1) == Copies(x, n) + [x]
    ensures Copies(x, n + 1)[..n] == Copies(x, n)
  {
  }

  /** The requests a month sends, in order: one when it has no hits,
      otherwise one per page. */
  function MonthRequests(respond: Request -> Response, term: string, month: string): seq<Request>
    requires WellFormed(month)
  {
    var w := WindowRequest(term, month);
    var hits := respond(w).hits;
    if hits == 0 then [w] else Copies(w, Pages(hits))
  }

  /** The headlines of the responses to `requests`, concatenated in order. */
  function PageHeadlines(respond: Request -> Response, requests: seq<Request>): seq<string>
  {
    if requests == [] then []
    else PageHeadlines(respond, requests[..|requests| - 1]) + respond(requests[|requests| - 1]).headlines
  }

  function Repeat(s: seq<string>, n: nat): seq<string>
  {
    if n == 0 then [] else Repeat(s, n - 1) + s
  }

  /** The same request sent n times brings back its page n times. */
  lemma {:induction false} PageHeadlinesOfCopies(respond: Request -> Response, r: Request, n: nat)
    ensures PageHeadlines(respond, Copies(r, n)) == Repeat(respond(r).headlines, n)
  {
    if n > 0 {
      CopiesStep(r, n - 1);
      PageHeadlinesOfCopies(respond, r, n - 1);
    }
  }

  lemma CopiesTwice<T>(x: T)
    ensures Copies(x, 2) == [x, x]
  {
  }

  lemma RepeatTwice(s: seq<string>)
    ensures Repeat(s, 2) == s + s
  {
    assert Repeat(s, 0) == [];
  }

  lemma {:induction false} RepeatLength(s: seq<string>, n: nat)
    ensures |Repeat(s, n)| == n * |s|
  {
    if n > 0 {
      RepeatLength(s, n - 1);
    }
  }

  /** One month of `monthly_hits`. */
  datatype HitsEntry = HitsEntry(term: string, month: string, hits: nat)

  /** One month of `collect_headlines_and_hits`: `[query, month, hits, ""]`
      or `[query, month, hits, headlines]`. */
  datatype Entry = Entry(term: string, month: string, hits: nat, headlines: MonthHeadlines)

  function HitsOf(respond: Request -> Response, term: string, month: string): HitsEntry
    requires WellFormed(month)
  {
    HitsEntry(term, month, respond(WindowRequest(term, month)).hits)
  }

  /** The entry of one month: the hits of the first response, and either no
      headlines or the headlines of all the month's responses in order. */
  function CollectEntry(respond: Request -> Response, term: string, month: string): Entry
    requires WellFormed(month)
  {
    var hits := respond(WindowRequest(term, month)).hits;
    if hits == 0 then Entry(term, month, 0, NoHeadlines)
    else Entry(term, month, hits, HeadlineList(PageHeadlines(respond, MonthRequests(respond, term, month))))
  }

  /** Every entry carries its term, its month and the hits of its window. */
  lemma CollectEntryFields(respond: Request -> Response, term: string, month: string)
    requires WellFormed(month)
    ensures var e := CollectEntry(respond, term, month);
      e.term == term && e.month == month && e.hits == respond(WindowRequest(term, month)).hits
  {
  }

  /** A month without hits is recorded with no headlines after one request. */
  lemma ZeroHitMonth(respond: Request -> Response, term: string, month: string)
    requires WellFormed(month) && respond(WindowRequest(term, month)).hits == 0
    ensures CollectEntry(respond, term, month) == Entry(term, month, 0, NoHeadlines)
    ensures MonthRequests(respond, term, month) == [WindowRequest(term, month)]
  {
  }

  /** A month with hits sends one request per page of ten, all for its own
      window at page 1, and records page 1 once per request. */
  lemma PagedMonth(respond: Request -> Response, term: string, month: string)
    requires WellFormed(month) && respond(WindowRequest(term, month)).hits > 0
    ensures var w := WindowRequest(term, month);
      var hits := respond(w).hits;
      var n := |MonthRequests(respond, term, month)|;
      n == Pages(hits) && 10 * (n - 1) < hits <= 10 * n &&
      (forall j :: 0 <= j < n ==> MonthRequests(respond, term, month)[j] == w) &&
      CollectEntry(respond, term, month) == Entry(term, month, hits, HeadlineList(Repeat(respond(w).headlines, n)))
  {
    var w := WindowRequest(term, month);
    PagesIsCeiling(respond(w).hits);
    PageHeadlinesOfCopies(respond, w, Pages(respond(w).hits));
  }

  // ---------------------------------------------------------------------
  // Results over the month indices lo .. hi - 1, by prefix

  /** The values of f at lo .. hi - 1, in order. */
  function Over<T>(f: nat --> T, lo: nat, hi: nat): seq<T>
    requires lo <= hi
    requires forall k :: lo <= k < hi ==> f.requires(k)
    decreases hi - lo
  {
    if hi == lo then [] else Over(f, lo, hi - 1) + [f(hi - 1)]
  }

  /** The sequences f yields at lo .. hi - 1, concatenated in order. */
  function Concat<T>(f: nat --> seq<T>, lo: nat, hi: nat): seq<T>
    requires lo <= hi
    requires forall k :: lo <= k < hi ==> f.requires(k)
    decreases hi - lo
  {
    if hi == lo then [] else Concat(f, lo, hi - 1) + f(hi - 1)
  }

  lemma {:induction false} OverOnePerIndex<T>(f: nat --> T, lo: nat, hi: nat)
    requires lo <= hi
    requires forall k :: lo <= k < hi ==> f.requires(k)
    ensures |Over(f, lo, hi)| == hi - lo
    ensures forall i :: 0 <= i < hi - lo ==> Over(f, lo, hi)[i] == f(lo + i)
    decreases hi - lo
  {
    if hi > lo {
      OverOnePerIndex(f, lo, hi - 1);
    }
  }

  function HitsAt(respond: Request -> Response, term: string): nat --> HitsEntry
  {
    (k: nat) requires k < 120000 => HitsOf(respond, term, MonthAt(k))
  }

  function RequestAt(term: string): nat --> Request
  {
    (k: nat) requires k < 120000 => WindowRequest(term, MonthAt(k))
  }

  function EntryAt(respond: Request -> Response, term: string): nat --> Entry
  {
    (k: nat) requires k < 120000 => CollectEntry(respond, term, MonthAt(k))
  }

  function RequestsAt(respond: Request -> Response, term: string): nat --> seq<Request>
  {
    (k: nat) requires k < 120000 => MonthRequests(respond, term, MonthAt(k))
  }

  function HitsEntries(respond: Request -> Response, term: string, lo: nat, hi: nat): seq<HitsEntry>
    requires lo <= hi <= 120000
  {
    Over(HitsAt(respond, term), lo, hi)
  }

  function WindowRequests(term: string, lo: nat, hi: nat): seq<Request>
    requires lo <= hi <= 120000
  {
    Over(RequestAt(term), lo, hi)
  }

  function Collected(respond: Request -> Response, term: string, lo: nat, hi: nat): seq<Entry>
    requires lo <= hi <= 120000
  {
    Over(EntryAt(respond, term), lo, hi)
  }

  function AllRequests(respond: Request -> Response, term: string, lo: nat, hi: nat): seq<Request>
    requires lo <= hi <= 120000
  {
    Concat(RequestsAt(respond, term), lo, hi)
  }

  /** Each month of the walk adds its entry and its request. */
  lemma HitsStep(respond: Request -> Response, term: string, lo: nat, k: nat)
    requires lo <= k < 120000
    ensures HitsEntries(respond, term, lo, k + 1) == HitsEntries(respond, term, lo, k) + [HitsOf(respond, term, MonthAt(k))]
    ensures WindowRequests(term, lo, k + 1) == WindowRequests(term, lo, k) + [WindowRequest(term, MonthAt(k))]
  {
  }

  /** Each month of the walk adds its entry and its requests. */
  lemma CollectStep(respond: Request -> Response, term: string, lo: nat, k: nat)
    requires lo <= k < 120000
    ensures Collected(respond, term, lo, k + 1) == Collected(respond, term, lo, k) + [CollectEntry(respond, term, MonthAt(k))]
    ensures AllRequests(respond, term, lo, k + 1) == AllRequests(respond, term, lo, k) + MonthRequests(respond, term, MonthAt(k))
  {
  }

  /** `monthly_hits` over a range: entry i is month begin + i with the hits
      of its window; the first is `begin`, the last `end`, and one request
      goes out per month. */
  lemma MonthlyHitsOnePerMonth(respond: Request -> Response, term: string, begin: string, end: string)
    requires ValidRange(begin, end)
    ensures var es := HitsEntries(respond, term, Index(begin), Index(end) + 1);
      |es| == Index(end) - Index(begin) + 1 &&
      |WindowRequests(term, Index(begin), Index(end) + 1)| == |es| &&
      es[0].month == begin && es[|es| - 1].month == end &&
      forall i :: 0 <= i < |es| ==>
        es[i].term == term && WellFormed(es[i].month) && Index(es[i].month) == Index(begin) + i &&
        es[i].hits == respond(WindowRequest(term, es[i].month)).hits
  {
    RangeEnds(begin, end);
    OverOnePerIndex(HitsAt(respond, term), Index(begin), Index(end) + 1);
    OverOnePerIndex(RequestAt(term), Index(begin), Index(end) + 1);
  }

  /** `collect_headlines_and_hits` over a range: one entry per month of the
      range, in order, each as `CollectEntry` describes it. */
  lemma CollectedOnePerRangeMonth(respond: Request -> Response, term: string, begin: string, end: string)
    requires ValidRange(begin, end)
    ensures var es := Collected(respond, term, Index(begin), Index(end) + 1);
      |es| == Index(end) - Index(begin) + 1 &&
      es[0].month == begin && es[|es| - 1].month == end &&
      forall i :: 0 <= i < |es| ==>
        es[i].term == term && WellFormed(es[i].month) && Index(es[i].month) == Index(begin) + i &&
        es[i] == CollectEntry(respond, term, es[i].month)
  {
    RangeEnds(begin, end);
    OverOnePerIndex(EntryAt(respond, term), Index(begin), Index(end) + 1);
  }

  // ---------------------------------------------------------------------
  // The loops

  /** `monthly_hits`: one `[term, month, hits]` entry per month of the range
      and one request per month, in month order. */
  method MonthlyHits(respond: Request -> Response, searchTerm: string, beginMonth: string, endMonth: string)
    returns (searchDateHits: seq<HitsEntry>, requests: seq<Request>)
    requires ValidRange(beginMonth, endMonth)
    ensures searchDateHits == HitsEntries(respond, searchTerm, Index(beginMonth), Index(endMonth) + 1)
    ensures requests == WindowRequests(searchTerm, Index(beginMonth), Index(endMonth) + 1)
  {
    ghost var lo, hi := Index(beginMonth), Index(endMonth) + 1;
    RangeEnds(beginMonth, endMonth);
    NextMonthLeaves(endMonth, beginMonth);
    var stop := NextMonth(endMonth).value;
    searchDateHits, requests := [], [];
    ghost var k := lo;
    var currentMonth := beginMonth;
    while currentMonth != stop
      invariant lo <= k <= hi
      invariant k < hi ==> currentMonth == MonthAt(k) && currentMonth != stop
      invariant k == hi ==> currentMonth == stop
      invariant searchDateHits == HitsEntries(respond, searchTerm, lo, k)
      invariant requests == WindowRequests(searchTerm, lo, k)
      decreases hi - k
    {
      if k == hi {
        assert false;
      }
      DaysInMonthValue(currentMonth);
      var request := Request(searchTerm, currentMonth + "01", currentMonth + DaysInMonth(currentMonth).value, 1);
      assert request == WindowRequest(searchTerm, currentMonth);
      var response := respond(request);
      HitsStep(respond, searchTerm, lo, k);
      searchDateHits := searchDateHits + [HitsEntry(searchTerm, currentMonth, response.hits)];
      requests := requests + [request];
      WalkStep(beginMonth, endMonth, k, currentMonth);
      currentMonth := NextMonth(currentMonth).value;
      k := k + 1;
    }
  }

  /** `collect_headlines_and_hits` as written in obtaining.py: per month one
      request for the hits, then `ceil(hits / 10) - 1` more for the pages,
      none of which passes its page number. */
  method CollectHeadlinesAndHits(respond: Request -> Response, searchQuery: string, start: string, end: string)
    returns (headlinesAndHits: seq<Entry>, requests: seq<Request>)
    requires ValidRange(start, end)
    ensures headlinesAndHits == Collected(respond, searchQuery, Index(start), Index(end) + 1)
    ensures requests == AllRequests(respond, searchQuery, Index(start), Index(end) + 1)
  {
    ghost var lo, hi := Index(start), Index(end) + 1;
    RangeEnds(start, end);
    NextMonthLeaves(end, start);
    var stop := NextMonth(end).value;
    headlinesAndHits, requests := [], [];
    ghost var k := lo;
    var currentMonth := start;
    while currentMonth != stop
      invariant lo <= k <= hi
      invariant k < hi ==> currentMonth == MonthAt(k) && currentMonth != stop
      invariant k == hi ==> currentMonth == stop
      invariant headlinesAndHits == Collected(respond, searchQuery, lo, k)
      invariant requests == AllRequests(respond, searchQuery, lo, k)
      decreases hi - k
    {
      if k == hi {
        assert false;
      }
      var entry, monthRequests := CollectMonth(respond, searchQuery, currentMonth);
      CollectStep(respond, searchQuery, lo, k);
      headlinesAndHits := headlinesAndHits + [entry];
      requests := requests + monthRequests;
      WalkStep(start, end, k, currentMonth);
      currentMonth := NextMonth(currentMonth).value;
      k := k + 1;
    }
  }

  /** The body of the month loop: the hits request, then the page loop. */
  method CollectMonth(respond: Request -> Response, searchQuery: string, currentMonth: string)
    returns (monthAllInfo: Entry, sent: seq<Request>)
    requires WellFormed(currentMonth)
    ensures monthAllInfo == CollectEntry(respond, searchQuery, currentMonth)
    ensures sent == MonthRequests(respond, searchQuery, currentMonth)
  {
    DaysInMonthValue(currentMonth);
    var request := Request(searchQuery, currentMonth + "01", currentMonth + DaysInMonth(currentMonth).value, 1);
    sent := [request];
    var numHits := respond(request).hits;
    if numHits == 0 {
      return Entry(searchQuery, currentMonth, numHits, NoHeadlines), sent;
    }
    var numPages: int := (numHits + 9) / 10;
    PagesIsCeiling(numHits);
    assert numPages == Pages(numHits);
    var monthHeadlines := respond(request).headlines;
    assert Copies(request, 1) == [request] && [request][..0] == [];
    if numPages >= 1 {
      for page := 1 to numPages
        invariant sent == Copies(request, page)
        invariant monthHeadlines == PageHeadlines(respond, Copies(request, page))
      {
        var beginDate := currentMonth + "01";
        var endDate := currentMonth + DaysInMonth(currentMonth).value;
        var pageRequest := Request(searchQuery, beginDate, endDate, 1);
        CopiesStep(request, page);
        sent := sent + [pageRequest];
        monthHeadlines := monthHeadlines + respond(pageRequest).headlines;
      }
      monthAllInfo := Entry(searchQuery, currentMonth, numHits, HeadlineList(monthHeadlines));
    } else {
      assert false;
    }
  }

  // ---------------------------------------------------------------------
  // Writing the collected months

  /** The row a collected entry becomes, under its `MM-YYYY` label. */
  function EntryRow(e: Entry): seq<string>
  {
    InfoRow(e.term, Label(e.month), e.hits, e.headlines)
  }

  function RowsOf(entries: seq<Entry>): (rows: seq<seq<string>>)
    ensures |rows| == |entries|
    ensures forall i :: 0 <= i < |entries| ==> rows[i] == EntryRow(entries[i])
  {
    seq(|entries|, i requires 0 <= i < |entries| => EntryRow(entries[i]))
  }

  /** Each row reads back as its entry: the query in the name cell, a label
      that turns back into the entry's month, and the hit count through
      `int()`. */
  lemma RowsOfReadBack(entries: seq<Entry>)
    requires forall i :: 0 <= i < |entries| ==> |entries[i].month| == 6
    ensures var rows := RowsOf(entries);
      |rows| == |entries| &&
      forall i :: 0 <= i < |rows| ==>
        rows[i][0] == entries[i].term && LabelShaped(rows[i][1]) &&
        FromLabel(rows[i][1]) == entries[i].month &&
        ParseInt(rows[i][2]) == Ok(entries[i].hits)
  {
    var rows := RowsOf(entries);
    forall i | 0 <= i < |rows|
      ensures rows[i][0] == entries[i].term && LabelShaped(rows[i][1])
      ensures FromLabel(rows[i][1]) == entries[i].month
      ensures ParseInt(rows[i][2]) == Ok(entries[i].hits)
    {
      LabelOfSixChars(entries[i].month);
      ParseIntOfNatToString(entries[i].hits);
    }
  }

  /** The outcome and the files after a sequence of writes. */
  datatype Written = Written(outcome: Outcome, files: map<string, Table>)

  /** The entries written one after the other with the table update of
      `write_data_to_file`; the first failing write ends the run. */
  function WriteAll(files: map<string, Table>, entries: seq<Entry>): Written
    decreases |entries|
  {
    if entries == [] then Written(Pass, files)
    else
      var e := entries[0];
      match WriteRow(FileIn(files, e.term), EntryRow(e))
      case Err(err) => Written(Fail(err), files)
      case Ok(t) => WriteAll(files[e.term := t], entries[1..])
  }

  /** The relabel-and-write loop of `write_hits_and_headlines_to_file`, with
      the table update of data_processing_helpers.py. */
  method WriteEntries(store: CountryData, entries: seq<Entry>) returns (outcome: Outcome)
    modifies store
    ensures Written(outcome, store.files) == WriteAll(old(store.files), entries)
  {
    var k := 0;
    while k < |entries|
      invariant 0 <= k <= |entries|
      invariant WriteAll(store.files, entries[k..]) == WriteAll(old(store.files), entries)
    {
      var entry := entries[k];
      var monthyear := entry.month;
      var date := Drop(monthyear, 4) + "-" + Slice(monthyear, 0, 4);
      assert entries[k..][1..] == entries[k + 1..];
      var written := store.WriteDataToFile(entry.term, date, entry.hits, entry.headlines);
      if written.Fail? {
        return written;
      }
      k := k + 1;
    }
    outcome := Pass;
  }

  /** The first write of a run, when it succeeds. */
  lemma WriteAllFirst(files: map<string, Table>, entries: seq<Entry>, t1: Table)
    requires |entries| > 0
    requires WriteRow(FileIn(files, entries[0].term), EntryRow(entries[0])) == Ok(t1)
    ensures WriteAll(files, entries) == WriteAll(files[entries[0].term := t1], entries[1..])
  {
  }

  lemma RowsOfFirst(rows: seq<seq<string>>, entries: seq<Entry>)
    requires |entries| > 0
    ensures rows + [EntryRow(entries[0])] + RowsOf(entries[1..]) == rows + RowsOf(entries)
  {
    assert RowsOf(entries) == [EntryRow(entries[0])] + RowsOf(entries[1..]);
  }

  lemma UpdateTwice<K, V>(m: map<K, V>, k: K, a: V, b: V)
    ensures m[k := a][k := b] == m[k := b]
  {
  }

  /** Appending an entry with a non-empty term to a table that holds a country
      name keeps it a table that holds a country name. */
  lemma AppendKeepsName(t: Table, e: Entry)
    requires e.term != "" && "Country Name" in t.columns && !StartsAfresh(Some(t))
    ensures WriteRow(Some(t), EntryRow(e)) == Ok(Table(t.columns, t.rows + [EntryRow(e)]))
    ensures !StartsAfresh(Some(Table(t.columns, t.rows + [EntryRow(e)])))
  {
    WriteRowAppends(t, EntryRow(e));
    WrittenNameIsKept(Some(t), e.term, Label(e.month), e.hits, e.headlines);
  }

  /** Writing an entry with a non-empty term into an absent or blank table
      leaves a table of that one row that holds a country name. */
  lemma FreshKeepsName(file: Option<Table>, e: Entry)
    requires e.term != "" && StartsAfresh(file)
    ensures WriteRow(file, EntryRow(e)) == Ok(Table(InfoColumns, [EntryRow(e)]))
    ensures !StartsAfresh(Some(Table(InfoColumns, [EntryRow(e)])))
  {
    WriteRowStartsAfresh(file, EntryRow(e));
    WrittenNameIsKept(file, e.term, Label(e.month), e.hits, e.headlines);
  }

  /** All entries share one non-empty term and its table already holds a
      country name: every row is appended after the old ones, in entry
      order, and no other file changes. */
  lemma {:induction false} WriteAllAppends(files: map<string, Table>, c: string, entries: seq<Entry>, t: Table)
    requires c != "" && forall i :: 0 <= i < |entries| ==> entries[i].term == c
    requires FileIn(files, c) == Some(t) && "Country Name" in t.columns && !StartsAfresh(Some(t))
    ensures WriteAll(files, entries) == Written(Pass, files[c := Table(t.columns, t.rows + RowsOf(entries))])
    decreases |entries|
  {
    if entries == [] {
      assert t.rows + RowsOf(entries) == t.rows;
      assert files[c := t] == files;
    } else {
      var row := EntryRow(entries[0]);
      var t1 := Table(t.columns, t.rows + [row]);
      AppendKeepsName(t, entries[0]);
      WriteAllFirst(files, entries, t1);
      WriteAllAppends(files[c := t1], c, entries[1..], t1);
      RowsOfFirst(t.rows, entries);
      UpdateTwice(files, c, t1, Table(t.columns, t.rows + RowsOf(entries)));
    }
  }

  /** All entries share one non-empty term whose file is absent or blank:
      the file becomes exactly the entries' rows, in order, under the
      write header. */
  lemma WriteAllFresh(files: map<string, Table>, c: string, entries: seq<Entry>)
    requires c != "" && |entries| > 0 && forall i :: 0 <= i < |entries| ==> entries[i].term == c
    requires StartsAfresh(FileIn(files, c))
    ensures WriteAll(files, entries) == Written(Pass, files[c := Table(InfoColumns, RowsOf(entries))])
  {
    var t1 := Table(InfoColumns, [EntryRow(entries[0])]);
    assert entries[0].term == c;
    FreshKeepsName(FileIn(files, c), entries[0]);
    assert ColumnIndex(InfoColumns, "Country Name") == Some(0);
    WriteAllFirst(files, entries, t1);
    WriteAllAppends(files[c := t1], c, entries[1..], t1);
    RowsOfFirst([], entries);
    assert t1.rows + RowsOf(entries[1..]) == RowsOf(entries);
    UpdateTwice(files, c, t1, Table(InfoColumns, RowsOf(entries)));
  }

  /** A file without a Country Name column makes the first write fail with
      KeyError; nothing is written. */
  lemma WriteAllWithoutNameColumn(files: map<string, Table>, entries: seq<Entry>)
    requires |entries| > 0
    requires FileIn(files, entries[0].term).Some? && "Country Name" !in FileIn(files, entries[0].term).value.columns
    ensures WriteAll(files, entries) == Written(Fail(KeyError), files)
  {
    WriteRowFails(FileIn(files, entries[0].term), EntryRow(entries[0]));
  }

  /** A table holding one row with an empty name is again blank. */
  lemma EmptyNameStaysBlank(e: Entry)
    requires e.term == ""
    ensures StartsAfresh(Some(Table(InfoColumns, [EntryRow(e)])))
  {
    assert ColumnIndex(InfoColumns, "Country Name") == Some(0);
    assert Column(Table(InfoColumns, [EntryRow(e)]), "Country Name").value == [""];
  }

  /** With an empty search term the Country Name column stays blank, so each
      write starts the file afresh and only the last row survives. */
  lemma {:induction false} WriteAllEmptyTerm(files: map<string, Table>, entries: seq<Entry>)
    requires |entries| > 0 && forall i :: 0 <= i < |entries| ==> entries[i].term == ""
    requires StartsAfresh(FileIn(files, ""))
    ensures WriteAll(files, entries) == Written(Pass, files["" := Table(InfoColumns, [EntryRow(entries[|entries| - 1])])])
    decreases |entries|
  {
    var e := entries[0];
    assert e.term == "";
    WriteRowStartsAfresh(FileIn(files, ""), EntryRow(e));
    var t1 := Table(InfoColumns, [EntryRow(e)]);
    WriteAllFirst(files, entries, t1);
    if |entries| > 1 {
      EmptyNameStaysBlank(e);
      WriteAllEmptyTerm(files["" := t1], entries[1..]);
      UpdateTwice(files, "", t1, Table(InfoColumns, [EntryRow(entries[|entries| - 1])]));
    }
  }

  /** `write_hits_and_headlines_to_file` as written in obtaining.py: its
      `write_data_to_file` calls `path.exists` without importing `path`, so
      the first entry raises NameError and no file changes. A valid range
      always has a first entry. */
  method WriteHitsAndHeadlinesToFile(respond: Request -> Response, searchTerm: string, beginMonth: string, endMonth: string)
    returns (entries: seq<Entry>, requests: seq<Request>, outcome: Outcome)
    requires ValidRange(beginMonth, endMonth)
    ensures entries == Collected(respond, searchTerm, Index(beginMonth), Index(endMonth) + 1)
    ensures requests == AllRequests(respond, searchTerm, Index(beginMonth), Index(endMonth) + 1)
    ensures |entries| > 0 && outcome == Fail(NameError)
  {
    entries, requests := CollectHeadlinesAndHits(respond, searchTerm, beginMonth, endMonth);
    CollectedOnePerRangeMonth(respond, searchTerm, beginMonth, endMonth);
    // the loop's first write_data_to_file(entry[0], date, entry[2], entry[3]) raises
    outcome := Fail(NameError);
  }

  /** `write_hits_and_headlines_to_file` with the table update of
      data_processing_helpers.py: the collected months are written in order. */
  method CollectAndWrite(respond: Request -> Response, store: CountryData, searchTerm: string, beginMonth: string, endMonth: string)
    returns (entries: seq<Entry>, requests: seq<Request>, outcome: Outcome)
    requires ValidRange(beginMonth, endMonth)
    modifies store
    ensures entries == Collected(respond, searchTerm, Index(beginMonth), Index(endMonth) + 1)
    ensures requests == AllRequests(respond, searchTerm, Index(beginMonth), Index(endMonth) + 1)
    ensures Written(outcome, store.files) == WriteAll(old(store.files), entries)
  {
    entries, requests := CollectHeadlinesAndHits(respond, searchTerm, beginMonth, endMonth);
    outcome := WriteEntries(store, entries);
  }

  /** Collecting and writing a range for a non-empty term into an absent or
      blank file leaves exactly one row per month, in month order, each
      labelled `MM-YYYY`, and changes no other file. */
  lemma CollectAndWriteRows(respond: Request -> Response, files: map<string, Table>, searchTerm: string, beginMonth: string, endMonth: string)
    requires ValidRange(beginMonth, endMonth) && searchTerm != ""
    requires StartsAfresh(FileIn(files, searchTerm))
    ensures var es := Collected(respond, searchTerm, Index(beginMonth), Index(endMonth) + 1);
      var rows := RowsOf(es);
      WriteAll(files, es) == Written(Pass, files[searchTerm := Table(InfoColumns, rows)]) &&
      |rows| == Index(endMonth) - Index(beginMonth) + 1 &&
      forall i :: 0 <= i < |rows| ==>
        rows[i] == InfoRow(searchTerm, Label(MonthAt(Index(beginMonth) + i)), es[i].hits, es[i].headlines)
  {
    var lo, hi := Index(beginMonth), Index(endMonth) + 1;
    var es := Collected(respond, searchTerm, lo, hi);
    OverOnePerIndex(EntryAt(respond, searchTerm), lo, hi);
    forall i | 0 <= i < |es|
      ensures es[i].term == searchTerm && es[i].month == MonthAt(lo + i)
    {
      CollectEntryFields(respond, searchTerm, MonthAt(lo + i));
    }
    WriteAllFresh(files, searchTerm, es);
  }
}
