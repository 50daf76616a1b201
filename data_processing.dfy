/**
 * The collection loop of data_processing.py. Its `monthly_hits` is the same
 * code as the one in obtaining.py (modelled there). Its
 * `collect_headlines_and_hits` differs in one place: the page loop calls
 * `data_processing_helpers.request_articles`, but the module only imports
 * names from `data_processing_helpers`, never the module itself, so the
 * first pass through the page loop raises NameError. The page loop runs
 * exactly for the months with more than ten hits.
 */
module DataProcessing {
  import opened PyText
  import opened Calendar
  import opened CountryTable
  import opened Obtaining

  /** The month of index k needs more than one page, so its page loop
      `for page in range(1, num_pages)` runs. */
  predicate Wide(respond: Request -> Response, term: string, k: nat)
    requires k < 120000
  {
    Pages(respond(WindowRequest(term, MonthAt(k))).hits) > 1
  }

  /** A month needs a second page exactly when it has more than ten hits. */
  lemma WideIff(respond: Request -> Response, term: string, k: nat)
    requires k < 120000
    ensures Wide(respond, term, k) <==> respond(WindowRequest(term, MonthAt(k))).hits > 10
  {
  }

  /** The first index in lo .. hi - 1 where p holds. */
  function FirstWhere(p: nat --> bool, lo: nat, hi: nat): (r: Option<nat>)
    requires lo <= hi
    requires forall k :: lo <= k < hi ==> p.requires(k)
    ensures r.None? <==> forall k :: lo <= k < hi ==> !p(k)
    ensures r.Some? ==> lo <= r.value < hi && p(r.value)
    ensures r.Some? ==> forall k :: lo <= k < r.value ==> !p(k)
    decreases hi - lo
  {
    if hi == lo then None
    else match FirstWhere(p, lo, hi - 1)
      case Some(j) => Some(j)
      case None => if p(hi - 1) then Some(hi - 1) else None
  }

  /** Once found, the first index stays the first one as the range grows. */
  lemma {:induction false} FirstWhereStays(p: nat --> bool, lo: nat, mid: nat, hi: nat)
    requires lo <= mid <= hi
    requires forall k :: lo <= k < hi ==> p.requires(k)
    requires FirstWhere(p, lo, mid).Some?
    ensures FirstWhere(p, lo, hi) == FirstWhere(p, lo, mid)
    decreases hi - mid
  {
    if hi > mid {
      FirstWhereStays(p, lo, mid, hi - 1);
    }
  }

  function WideAt(respond: Request -> Response, term: string): nat --> bool
  {
    (k: nat) requires k < 120000 => Wide(respond, term, k)
  }

  /** The first month index in lo .. hi - 1 whose page loop runs. */
  function FirstWide(respond: Request -> Response, term: string, lo: nat, hi: nat): Option<nat>
    requires lo <= hi <= 120000
  {
    FirstWhere(WideAt(respond, term), lo, hi)
  }

  /** The outcome of one month of the loop: NameError when its page loop
      runs, otherwise the entry of obtaining.py's loop. */
  function MonthOutcome(respond: Request -> Response, term: string, k: nat): Result<Entry>
    requires k < 120000
  {
    if Wide(respond, term, k) then Err(NameError) else Ok(CollectEntry(respond, term, MonthAt(k)))
  }

  /** One month of the loop as written: the hits request, then the page loop,
      whose first pass stops at the unbound name. */
  method CollectMonth(respond: Request -> Response, searchQuery: string, currentMonth: string, ghost k: nat)
    returns (monthAllInfo: Result<Entry>, sent: seq<Request>)
    requires k < 120000 && currentMonth == MonthAt(k)
    ensures monthAllInfo == MonthOutcome(respond, searchQuery, k)
    ensures monthAllInfo.Ok? ==> sent == MonthRequests(respond, searchQuery, currentMonth)
    ensures monthAllInfo.Err? ==> sent == [WindowRequest(searchQuery, currentMonth)]
  {
    DaysInMonthValue(currentMonth);
    var request := Request(searchQuery, currentMonth + "01", currentMonth + DaysInMonth(currentMonth).value, 1);
    assert request == WindowRequest(searchQuery, currentMonth);
    sent := [request];
    var numHits := respond(request).hits;
    if numHits == 0 {
      return Ok(Entry(searchQuery, currentMonth, numHits, NoHeadlines)), sent;
    }
    var numPages: int := (numHits + 9) / 10;
    PagesIsCeiling(numHits);
    assert numPages == Pages(numHits);
    var monthHeadlines := respond(request).headlines;
    assert Copies(request, 1) == [request] && [request][..0] == [];
    if numPages >= 1 {
      for page := 1 to numPages
        invariant page == 1
      {
        var beginDate := currentMonth + "01";
        var endDate := currentMonth + DaysInMonth(currentMonth).value;
        // `data_processing_helpers.request_articles(...)`: the name
        // `data_processing_helpers` is not bound in this module
        return Err(NameError), sent;
      }
      assert numPages == 1 && sent == Copies(request, 1);
      assert PageHeadlines(respond, [request]) == monthHeadlines;
      monthAllInfo := Ok(Entry(searchQuery, currentMonth, numHits, HeadlineList(monthHeadlines)));
    } else {
      assert false;
    }
  }

  /** `collect_headlines_and_hits` as written in data_processing.py: over a
      range without a month of more than ten hits it collects what
      obtaining.py's loop collects; otherwise it raises NameError at the
      first such month, after that month's first request. */
  method CollectHeadlinesAndHits(respond: Request -> Response, searchQuery: string, start: string, end: string)
    returns (headlinesAndHits: Result<seq<Entry>>, requests: seq<Request>)
    requires ValidRange(start, end)
    ensures var first := FirstWide(respond, searchQuery, Index(start), Index(end) + 1);
      match first
      case None =>
        headlinesAndHits == Ok(Collected(respond, searchQuery, Index(start), Index(end) + 1)) &&
        requests == AllRequests(respond, searchQuery, Index(start), Index(end) + 1)
      case Some(k) =>
        headlinesAndHits == Err(NameError) &&
        requests == AllRequests(respond, searchQuery, Index(start), k) + [WindowRequest(searchQuery, MonthAt(k))]
  {
    ghost var lo, hi := Index(start), Index(end) + 1;
    RangeEnds(start, end);
    NextMonthLeaves(end, start);
    var stop := NextMonth(end).value;
    var collected: seq<Entry> := [];
    requests := [];
    ghost var k := lo;
    var currentMonth := start;
    while currentMonth != stop
      invariant lo <= k <= hi
      invariant k < hi ==> currentMonth == MonthAt(k) && currentMonth != stop
      invariant k == hi ==> currentMonth == stop
      invariant FirstWide(respond, searchQuery, lo, k).None?
      invariant collected == Collected(respond, searchQuery, lo, k)
      invariant requests == AllRequests(respond, searchQuery, lo, k)
      decreases hi - k
    {
      if k == hi {
        assert false;
      }
      var monthAllInfo, monthRequests := CollectMonth(respond, searchQuery, currentMonth, k);
      if monthAllInfo.Err? {
        assert FirstWide(respond, searchQuery, lo, k + 1) == Some(k);
        FirstWhereStays(WideAt(respond, searchQuery), lo, k + 1, hi);
        return Err(monthAllInfo.error), requests + monthRequests;
      }
      CollectStep(respond, searchQuery, lo, k);
      collected := collected + [monthAllInfo.value];
      requests := requests + monthRequests;
      WalkStep(start, end, k, currentMonth);
      currentMonth := NextMonth(currentMonth).value;
      k := k + 1;
    }
    headlinesAndHits := Ok(collected);
  }

  /** `write_hits_and_headlines_to_file` of data_processing.py: the collect,
      then the relabel-and-write loop with the table update of
      data_processing_helpers.py. When the collect raises, nothing is
      written. */
  method WriteHitsAndHeadlinesToFile(respond: Request -> Response, store: CountryData, searchTerm: string, beginMonth: string, endMonth: string)
    returns (entries: Result<seq<Entry>>, requests: seq<Request>, outcome: Outcome)
    requires ValidRange(beginMonth, endMonth)
    modifies store
    ensures var first := FirstWide(respond, searchTerm, Index(beginMonth), Index(endMonth) + 1);
      match first
      case None =>
        entries == Ok(Collected(respond, searchTerm, Index(beginMonth), Index(endMonth) + 1)) &&
        requests == AllRequests(respond, searchTerm, Index(beginMonth), Index(endMonth) + 1) &&
        Written(outcome, store.files) == WriteAll(old(store.files), entries.value)
      case Some(k) =>
        entries == Err(NameError) && outcome == Fail(NameError) && store.files == old(store.files) &&
        requests == AllRequests(respond, searchTerm, Index(beginMonth), k) + [WindowRequest(searchTerm, MonthAt(k))]
  {
    entries, requests := CollectHeadlinesAndHits(respond, searchTerm, beginMonth, endMonth);
    if entries.Err? {
      outcome := Fail(entries.error);
      return;
    }
    outcome := WriteEntries(store, entries.value);
  }

  /** A month of eleven hits is where the two versions part: obtaining.py's
      loop records two pages for it, data_processing.py's raises
      NameError. */
  lemma ElevenHits(respond: Request -> Response, term: string, k: nat)
    requires k < 120000
    requires respond(WindowRequest(term, MonthAt(k))).hits == 11
    ensures MonthOutcome(respond, term, k) == Err(NameError)
    ensures var w := WindowRequest(term, MonthAt(k));
      MonthRequests(respond, term, MonthAt(k)) == [w, w] &&
      CollectEntry(respond, term, MonthAt(k)) == Entry(term, MonthAt(k), 11, HeadlineList(respond(w).headlines + respond(w).headlines))
  {
    var m := MonthAt(k);
    var w := WindowRequest(term, m);
    assert Pages(11) == 2;
    assert MonthRequests(respond, term, m) == Copies(w, 2);
    CopiesTwice(w);
    PageHeadlinesOfCopies(respond, w, 2);
    RepeatTwice(respond(w).headlines);
  }

  /** Months of at most ten hits go through both versions alike. */
  lemma NarrowMonthAgrees(respond: Request -> Response, term: string, k: nat)
    requires k < 120000
    requires respond(WindowRequest(term, MonthAt(k))).hits <= 10
    ensures MonthOutcome(respond, term, k) == Ok(CollectEntry(respond, term, MonthAt(k)))
  {
  }
}
