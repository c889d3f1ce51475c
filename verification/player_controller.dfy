/** The player-facing request handlers of the backend, with the store reduced to a
    sequence of puzzle records and every query to a filter, an ordering and a window
    over it. Each handler returns what it would send: a value, or the error status. */
module PlayerController {
  import opened Options
  import opened Grid
  import Seqs
  import JsText
  import UtcDate
  import Pagination
  import Stats

  /** One clue as stored in a clue list. */
  datatype Clue = Clue(number: int, text: string, answer: string, startRow: int, startCol: int, length: int)

  /** A stored puzzle, its text columns already parsed. `date` and `createdAt` are
      time values (milliseconds since the epoch). `grid` is the filled grid the player
      view is derived from; `solution` is the grid submissions are compared with. */
  datatype Puzzle = Puzzle(
    id: int, title: string, date: int, language: string, difficulty: string,
    rows: int, cols: int, grid: Grid, solution: Grid,
    cluesHorizontal: seq<Clue>, cluesVertical: seq<Clue>,
    numbering: Option<map<string, int>>, isPublished: bool, createdAt: int)

  /** A puzzle as sent to a player. */
  datatype PuzzleView = PuzzleView(
    id: int, title: string, date: int, language: string, difficulty: string,
    rows: int, cols: int, grid: Grid, solution: Grid,
    cluesHorizontal: seq<Clue>, cluesVertical: seq<Clue>,
    numbering: map<string, int>, createdAt: int)

  /** The one error status the query handlers send: 500 "Internal server error". */
  datatype ServerError = InternalError

  datatype Result<T> = Success(value: T) | Failure(error: ServerError)

  /** The half-open time interval [start, end) of one day. */
  datatype Interval = Interval(start: int, end: int) {
    predicate Contains(t: int) {
      start <= t < end
    }
  }

  // ---------------------------------------------------------------------------
  // Player view

  /** The view of one puzzle: the grid with its letters blanked, the filled grid as
      `solution`, the clue lists unchanged and a missing numbering read as empty. */
  function View(p: Puzzle): (v: PuzzleView)
    ensures IsPlayerViewOf(p.grid, v.grid)
    ensures v.solution == p.grid
    ensures v.id == p.id && v.title == p.title && v.date == p.date && v.language == p.language
    ensures v.difficulty == p.difficulty && v.rows == p.rows && v.cols == p.cols && v.createdAt == p.createdAt
    ensures v.cluesHorizontal == p.cluesHorizontal && v.cluesVertical == p.cluesVertical
    ensures p.numbering.Some? ==> v.numbering == p.numbering.value
    ensures p.numbering.None? ==> v.numbering == map[]
  {
    PuzzleView(p.id, p.title, p.date, p.language, p.difficulty, p.rows, p.cols,
               PlayerGrid(p.grid), p.grid, p.cluesHorizontal, p.cluesVertical,
               p.numbering.GetOr(map[]), p.createdAt)
  }

  function Views(ps: seq<Puzzle>): (vs: seq<PuzzleView>)
    ensures |vs| == |ps|
    ensures forall i :: 0 <= i < |ps| ==> vs[i] == View(ps[i])
  {
    seq(|ps|, i requires 0 <= i < |ps| => View(ps[i]))
  }

  // ---------------------------------------------------------------------------
  // Day ranges

  /** The range built for today's puzzles from the server's local calendar day,
      whose month `m0` is 0-based. */
  function TodayRange(y: int, m0: int, d: int): (r: Result<Interval>)
    ensures r.Success? ==> r.value.end == r.value.start + UtcDate.MsPerDay
    ensures r.Success? ==> r.value.start % UtcDate.MsPerDay == 0
  {
    var start := UtcDate.DateUtc(Some(y), Some(m0), Some(d));
    var end := UtcDate.DateUtc(Some(y), Some(m0), Some(d + 1));
    if start.Some? && end.Some? then Success(Interval(start.value, end.value))
    else Failure(InternalError)
  }

  /** The range built for a requested date from a parsed year, 1-based month and day,
      any of which may be NaN (`None`). */
  function RequestedRange(y: Option<int>, m: Option<int>, d: Option<int>): (r: Result<Interval>)
    ensures r.Success? ==> r.value.end == r.value.start + UtcDate.MsPerDay
    ensures r.Success? ==> y.Some? && m.Some? && d.Some?
  {
    var m0 := if m.Some? then Some(m.value - 1) else None;
    var d1 := if d.Some? then Some(d.value + 1) else None;
    var start := UtcDate.DateUtc(y, m0, d);
    var end := UtcDate.DateUtc(y, m0, d1);
    if start.Some? && end.Some? then Success(Interval(start.value, end.value))
    else Failure(InternalError)
  }

  /** The 0-based and the 1-based constructions give the same range for the same day. */
  lemma RangeConventionsAgree(y: int, m: int, d: int)
    ensures RequestedRange(Some(y), Some(m), Some(d)) == TodayRange(y, m - 1, d)
  {
  }

  /** For a real calendar date the range is that date's UTC day, and it ends where the
      next calendar date's UTC day starts (month ends, year ends and leap days included).
      `Date.UTC` reads years 0 to 99 as 1900 to 1999, so the date meant is the one in
      the year it actually uses. */
  lemma TodayRangeIsCalendarDay(y: int, m: int, d: int)
    requires -100_000 <= y <= 100_000
    requires UtcDate.Valid(UtcDate.CivilDate(UtcDate.FullYear(y), m, d))
    ensures
      var date := UtcDate.CivilDate(UtcDate.FullYear(y), m, d);
      TodayRange(y, m - 1, d)
        == Success(Interval(UtcDate.DayNumber(date) * UtcDate.MsPerDay,
                            UtcDate.DayNumber(UtcDate.NextDate(date)) * UtcDate.MsPerDay))
  {
    UtcDate.DateUtcOfCivilDate(y, m, d);
    UtcDate.DateUtcOfDayAfter(y, m, d);
  }

  // ---------------------------------------------------------------------------
  // Puzzles of one day

  /** A puzzle the day query returns for `range`. */
  predicate OnDay(p: Puzzle, range: Interval) {
    p.isPublished && range.Contains(p.date)
  }

  /** The published puzzles dated inside `range`, oldest-created first. */
  function PuzzlesOn(store: seq<Puzzle>, range: Interval): (r: seq<Puzzle>)
    ensures forall p :: p in r <==> p in store && OnDay(p, range)
    ensures forall p :: multiset(r)[p] == if OnDay(p, range) then multiset(store)[p] else 0
    ensures Seqs.SortedBy(r, (p: Puzzle) => p.createdAt)
  {
    var r := Seqs.SortByKey(Seqs.Filter(store, (p: Puzzle) => OnDay(p, range)), (p: Puzzle) => p.createdAt);
    assert forall p :: p in r <==> p in multiset(r);
    r
  }

  /** `v` is the view of a published puzzle of `store` dated inside `range`. */
  ghost predicate ViewOfOneOn(v: PuzzleView, store: seq<Puzzle>, range: Interval) {
    exists p :: p in store && OnDay(p, range) && v == View(p)
  }

  /** Every view of the day's puzzles is the view of a puzzle on that day, and every
      puzzle on that day has its view there. */
  lemma ViewsOfPuzzlesOn(store: seq<Puzzle>, range: Interval)
    ensures forall i :: 0 <= i < |Views(PuzzlesOn(store, range))| ==>
      ViewOfOneOn(Views(PuzzlesOn(store, range))[i], store, range)
    ensures forall p :: p in store && OnDay(p, range) ==> View(p) in Views(PuzzlesOn(store, range))
  {
    var ps := PuzzlesOn(store, range);
    var vs := Views(ps);
    forall i | 0 <= i < |vs| ensures ViewOfOneOn(vs[i], store, range) {
      assert ps[i] in ps;
    }
    forall p | p in store && OnDay(p, range) ensures View(p) in vs {
      var i :| 0 <= i < |ps| && ps[i] == p;
      assert vs[i] == View(p);
    }
  }

  /** The views the day handlers send for `range`: the view of every published puzzle
      dated inside the range, and of no other. */
  function DayViews(store: seq<Puzzle>, range: Interval): (vs: seq<PuzzleView>)
    ensures forall i :: 0 <= i < |vs| ==> ViewOfOneOn(vs[i], store, range)
    ensures forall p :: p in store && OnDay(p, range) ==> View(p) in vs
  {
    ViewsOfPuzzlesOn(store, range);
    Views(PuzzlesOn(store, range))
  }

  /** The day query for a range that may have failed to build. */
  function DayQuery(store: seq<Puzzle>, range: Result<Interval>): (r: Result<seq<PuzzleView>>)
    ensures r.Success? <==> range.Success?
    ensures r.Success? ==> r.value == DayViews(store, range.value)
    ensures r.Success? ==> forall i :: 0 <= i < |r.value| ==> ViewOfOneOn(r.value[i], store, range.value)
    ensures r.Success? ==> forall p :: p in store && OnDay(p, range.value) ==> View(p) in r.value
  {
    match range
    case Success(iv) => Success(DayViews(store, iv))
    case Failure(e) => Failure(e)
  }

  /** Today's puzzles, for the server's local calendar day (`m0` 0-based): the views of
      the published puzzles dated inside that day's UTC range. */
  function TodaysPuzzles(store: seq<Puzzle>, y: int, m0: int, d: int): (r: Result<seq<PuzzleView>>)
    ensures r.Success? <==> TodayRange(y, m0, d).Success?
    ensures r.Success? ==> r.value == DayViews(store, TodayRange(y, m0, d).value)
  {
    DayQuery(store, TodayRange(y, m0, d))
  }

  /** For a real calendar date, a published puzzle is among that day's puzzles exactly
      when its date falls on that UTC calendar day. */
  lemma TodaysPuzzlesAreThatDay(store: seq<Puzzle>, y: int, m: int, d: int, p: Puzzle)
    requires -100_000 <= y <= 100_000
    requires UtcDate.Valid(UtcDate.CivilDate(UtcDate.FullYear(y), m, d))
    requires p in store && p.isPublished
    ensures TodaysPuzzles(store, y, m - 1, d).Success?
    ensures View(p) in TodaysPuzzles(store, y, m - 1, d).value
      <==> p.date / UtcDate.MsPerDay == UtcDate.DayNumber(UtcDate.CivilDate(UtcDate.FullYear(y), m, d))
  {
    var date := UtcDate.CivilDate(UtcDate.FullYear(y), m, d);
    var day := UtcDate.DayNumber(date);
    TodayRangeIsCalendarDay(y, m, d);
    UtcDate.NextDateIsNextDay(date);
    var range := Interval(day * UtcDate.MsPerDay, (day + 1) * UtcDate.MsPerDay);
    assert TodayRange(y, m - 1, d) == Success(range);
    UtcDate.InDayIffDayOf(p.date, day);
    ViewInDayViews(store, range, p);
  }

  /** A puzzle's view is among a day's views exactly when the puzzle is on that day. */
  lemma ViewInDayViews(store: seq<Puzzle>, range: Interval, p: Puzzle)
    requires p in store && p.isPublished
    ensures View(p) in DayViews(store, range) <==> range.Contains(p.date)
  {
    var vs := DayViews(store, range);
    if View(p) in vs {
      var i :| 0 <= i < |vs| && vs[i] == View(p);
      assert ViewOfOneOn(vs[i], store, range);
      var q :| q in store && OnDay(q, range) && vs[i] == View(q);
      assert q.date == View(q).date == View(p).date == p.date;
    }
  }

  /** Year, 1-based month and day read from a date parameter. A parameter with a dash is
      split on dashes and each of the first three pieces goes through `parseInt` (a missing
      piece is NaN); any other parameter is parsed as a date in the server's local time
      zone, which is an input here (`None` for an invalid date). */
  function DateParts(param: string, local: Option<UtcDate.CivilDate>): (r: (Option<int>, Option<int>, Option<int>))
    ensures '-' in param ==> r.0 == JsText.ParseInt(param[..JsText.IndexOf(param, '-')])
    ensures '-' in param && |JsText.Split(param, '-')| < 3 ==> r.2.None?
    ensures '-' !in param && local.Some? ==> r == (Some(local.value.year), Some(local.value.month), Some(local.value.day))
    ensures '-' !in param && local.None? ==> r == (None, None, None)
  {
    if '-' in param then
      var parts := JsText.Split(param, '-');
      (JsText.ParseInt(parts[0]),
       if |parts| > 1 then JsText.ParseInt(parts[1]) else None,
       if |parts| > 2 then JsText.ParseInt(parts[2]) else None)
    else if local.Some? then
      (Some(local.value.year), Some(local.value.month), Some(local.value.day))
    else (None, None, None)
  }

  /** The puzzles of a requested date. */
  function PuzzlesByDate(store: seq<Puzzle>, param: string, local: Option<UtcDate.CivilDate>): (r: Result<seq<PuzzleView>>)
    ensures
      var parts := DateParts(param, local);
      && (r.Success? <==> RequestedRange(parts.0, parts.1, parts.2).Success?)
      && (r.Success? ==> r.value == DayViews(store, RequestedRange(parts.0, parts.1, parts.2).value))
    ensures '-' !in param && local.None? ==> r == Failure(InternalError)
  {
    var parts := DateParts(param, local);
    DayQuery(store, RequestedRange(parts.0, parts.1, parts.2))
  }

  /** A string of decimal digits. */
  predicate IsDigits(s: string) {
    |s| >= 1 && forall i :: 0 <= i < |s| ==> JsText.IsDecimalDigit(s[i])
  }

  /** What may follow the day digits of a date parameter without changing the day read:
      nothing, or something that starts with neither a digit nor a hexadecimal marker
      (`T00:00:00Z`, for instance). */
  predicate IsDaySuffix(s: string) {
    |s| == 0 || (!JsText.IsDecimalDigit(s[0]) && s[0] != 'x' && s[0] != 'X')
  }

  /** The first dash-separated piece of `ds + suffix` reads as the number `ds` denotes. */
  lemma FirstPieceReadsDigits(ds: string, suffix: string)
    requires IsDigits(ds) && IsDaySuffix(suffix)
    ensures JsText.ParseInt(JsText.Split(ds + suffix, '-')[0]) == Some(JsText.DigitsValue(ds, 10))
  {
    var s := ds + suffix;
    NoDashInDigits(ds);
    if '-' in s {
      var k := JsText.IndexOf(s, '-');
      DashAfterDigits(ds, suffix, k);
      var w := suffix[..k - |ds|];
      assert |w| > 0 ==> w[0] == suffix[0];
      JsText.ParseIntReadsDecimalPrefix(ds, w);
    } else {
      JsText.ParseIntReadsDecimalPrefix(ds, suffix);
    }
  }

  /** A dash after a dash-free prefix `ds` cuts the text after all of `ds`. */
  lemma DashAfterDigits(ds: string, suffix: string, k: nat)
    requires '-' !in ds && k < |ds + suffix| && (ds + suffix)[k] == '-'
    ensures |ds| <= k && (ds + suffix)[..k] == ds + suffix[..k - |ds|]
  {
    NoDashBefore(ds, suffix);
  }

  lemma NoDashBefore(ds: string, suffix: string)
    requires '-' !in ds
    ensures forall i :: 0 <= i < |ds| ==> (ds + suffix)[i] != '-'
  {
    forall i | 0 <= i < |ds| ensures (ds + suffix)[i] != '-' {
      assert (ds + suffix)[i] == ds[i];
    }
  }

  lemma NoDashInDigits(s: string)
    requires IsDigits(s)
    ensures '-' !in s
  {
    assert forall i :: 0 <= i < |s| ==> s[i] != '-';
  }

  lemma ParseIntOfDigits(ds: string)
    requires IsDigits(ds)
    ensures JsText.ParseInt(ds) == Some(JsText.DigitsValue(ds, 10))
  {
    assert ds + "" == ds;
    JsText.ParseIntReadsDecimalPrefix(ds, "");
  }

  /** The pieces of a dashed date parameter. */
  lemma SplitDashedDate(ys: string, ms: string, rest: string)
    requires IsDigits(ys) && IsDigits(ms)
    ensures JsText.Split(ys + "-" + ms + "-" + rest, '-') == [ys, ms] + JsText.Split(rest, '-')
  {
    NoDashInDigits(ys);
    NoDashInDigits(ms);
    assert ys + "-" + ms + "-" + rest == ys + ['-'] + (ms + ['-'] + rest);
    JsText.SplitCons(ys, '-', ms + ['-'] + rest);
    JsText.SplitCons(ms, '-', rest);
  }

  /** A `YYYY-MM-DD` parameter, with or without a time part after the day, reads as
      that year, month and day. */
  lemma DatePartsOfDashedDate(ys: string, ms: string, ds: string, suffix: string, local: Option<UtcDate.CivilDate>)
    requires IsDigits(ys) && IsDigits(ms) && IsDigits(ds) && IsDaySuffix(suffix)
    ensures DateParts(ys + "-" + ms + "-" + ds + suffix, local)
      == (Some(JsText.DigitsValue(ys, 10)), Some(JsText.DigitsValue(ms, 10)), Some(JsText.DigitsValue(ds, 10)))
  {
    var param := ys + "-" + ms + "-" + ds + suffix;
    assert param == ys + "-" + ms + "-" + (ds + suffix);
    assert param[|ys|] == '-';
    SplitDashedDate(ys, ms, ds + suffix);
    var parts := JsText.Split(param, '-');
    var last := JsText.Split(ds + suffix, '-');
    assert parts[0] == ys && parts[1] == ms && parts[2] == last[0];
    assert DateParts(param, local) == (JsText.ParseInt(ys), JsText.ParseInt(ms), JsText.ParseInt(last[0]));
    ParseIntOfDigits(ys);
    ParseIntOfDigits(ms);
    FirstPieceReadsDigits(ds, suffix);
  }

  /** A dashed date parameter selects the same puzzles as today's query on the calendar
      day its digits denote, so `2025-12-17` and `2025-12-17T00:00:00Z` select the same
      puzzles. */
  lemma DashedDateSelectsThatDay(store: seq<Puzzle>, ys: string, ms: string, ds: string, suffix: string,
                                 local: Option<UtcDate.CivilDate>, y: int, m: int, d: int)
    requires IsDigits(ys) && IsDigits(ms) && IsDigits(ds) && IsDaySuffix(suffix)
    requires y == JsText.DigitsValue(ys, 10) && m == JsText.DigitsValue(ms, 10) && d == JsText.DigitsValue(ds, 10)
    ensures PuzzlesByDate(store, ys + "-" + ms + "-" + ds + suffix, local) == TodaysPuzzles(store, y, m - 1, d)
  {
    DatePartsOfDashedDate(ys, ms, ds, suffix, local);
    QueryOfDateParts(store, ys + "-" + ms + "-" + ds + suffix, local, y, m, d);
  }

  /** A parameter whose parts read as year `y`, month `m` and day `d` selects what
      today's query selects on that day. */
  lemma QueryOfDateParts(store: seq<Puzzle>, param: string, local: Option<UtcDate.CivilDate>, y: int, m: int, d: int)
    requires DateParts(param, local) == (Some(y), Some(m), Some(d))
    ensures PuzzlesByDate(store, param, local) == TodaysPuzzles(store, y, m - 1, d)
  {
    RangeConventionsAgree(y, m, d);
  }

  // ---------------------------------------------------------------------------
  // Listing

  /** A puzzle the listing shows: published, and in the requested language when one
      is given (an empty language means none, as it is falsy). */
  predicate Listed(p: Puzzle, language: Option<string>) {
    p.isPublished && (language.Some? && language.value != "" ==> p.language == language.value)
  }

  /** All puzzles the listing can show, newest date first. */
  function ListingOrder(store: seq<Puzzle>, language: Option<string>): (r: seq<Puzzle>)
    ensures forall p :: p in r <==> p in store && Listed(p, language)
    ensures forall p :: multiset(r)[p] == if Listed(p, language) then multiset(store)[p] else 0
    ensures forall i, j :: 0 <= i < j < |r| ==> r[i].date >= r[j].date
    ensures |r| == |Seqs.Filter(store, (p: Puzzle) => Listed(p, language))|
  {
    var r := Seqs.SortByKey(Seqs.Filter(store, (p: Puzzle) => Listed(p, language)), NegDate);
    assert forall p :: p in r <==> p in multiset(r);
    assert forall i, j :: 0 <= i < j < |r| ==> -r[i].date <= -r[j].date;
    r
  }

  /** `v` is the view of a puzzle of `store` the listing shows for `language`. */
  ghost predicate ViewOfListed(v: PuzzleView, store: seq<Puzzle>, language: Option<string>) {
    exists p :: p in store && Listed(p, language) && v == View(p)
  }

  lemma ViewsOfListed(ps: seq<Puzzle>, store: seq<Puzzle>, language: Option<string>)
    requires forall p :: p in ps ==> p in store && Listed(p, language)
    ensures forall i :: 0 <= i < |Views(ps)| ==> ViewOfListed(Views(ps)[i], store, language)
  {
    forall i | 0 <= i < |Views(ps)| ensures ViewOfListed(Views(ps)[i], store, language) {
      assert ps[i] in ps;
    }
  }

  datatype Listing = Listing(puzzles: seq<PuzzleView>, page: int, limit: int, total: nat, totalPages: Option<nat>)

  /** One page of the listing. `totalPages` is `None` (a non-finite number) when the
      page size is 0; a negative skip or page size is refused by the store. */
  function AllPuzzles(store: seq<Puzzle>, language: Option<string>, page: int, limit: int): (r: Result<Listing>)
    ensures r.Failure? <==> limit < 0 || (limit > 0 && page < 1)
    ensures r.Success? ==> |r.value.puzzles| <= limit
    ensures r.Success? ==> forall i :: 0 <= i < |r.value.puzzles| ==> ViewOfListed(r.value.puzzles[i], store, language)
    ensures r.Success? ==> r.value.total == |Seqs.Filter(store, (p: Puzzle) => Listed(p, language))|
    ensures r.Success? && limit > 0 ==> r.value.totalPages == Some(Pagination.TotalPages(r.value.total, limit))
    ensures r.Success? && limit == 0 ==> r.value.totalPages == None
  {
    var skip := Pagination.Skip(page, limit);
    var take := limit;
    Pagination.SkipIsNegative(page, limit);
    if skip < 0 || take < 0 then Failure(InternalError)
    else
      var matching := ListingOrder(store, language);
      var window := Pagination.Window(matching, skip, take);
      ViewsOfListed(window, store, language);
      Success(Listing(Views(window), page, take, |matching|,
                      if take == 0 then None else Some(Pagination.TotalPages(|matching|, take))))
  }

  /** A listing page shows the views of that page of the ordered listing. */
  lemma ListingPageIsPage(store: seq<Puzzle>, language: Option<string>, page: int, limit: int)
    requires page >= 1 && limit > 0
    ensures AllPuzzles(store, language, page, limit).Success?
    ensures AllPuzzles(store, language, page, limit).value.puzzles
      == Views(Pagination.Page(ListingOrder(store, language), page, limit))
  {
    assert Pagination.Skip(page, limit) == (page - 1) * limit >= 0;
  }

  /** With a positive page size, every position `i` of the ordered listing is shown
      on page `PageOf(i)`, which is one of pages 1 to `totalPages`, at offset
      `i - (page - 1) * limit`; with `PageOfIsUnique` no other page shows it, so the
      pages tile the listing. */
  lemma ListingPositionOnPage(store: seq<Puzzle>, language: Option<string>, limit: int, i: nat)
    requires limit > 0 && i < |ListingOrder(store, language)|
    ensures
      var p := Pagination.PageOf(i, limit);
      var k := i - Pagination.Skip(p, limit);
      && 1 <= p <= Pagination.TotalPages(|ListingOrder(store, language)|, limit)
      && AllPuzzles(store, language, p, limit).Success?
      && 0 <= k < |AllPuzzles(store, language, p, limit).value.puzzles|
      && AllPuzzles(store, language, p, limit).value.puzzles[k] == View(ListingOrder(store, language)[i])
  {
    var order := ListingOrder(store, language);
    var p := Pagination.PageOf(i, limit);
    Pagination.PositionOnPage(order, limit, i);
    ListingPageIsPage(store, language, p, limit);
  }

  // ---------------------------------------------------------------------------
  // Dates

  /** One entry of the dates listing. */
  datatype DateEntry = DateEntry(date: int, language: string, title: string, difficulty: string)

  function Entry(p: Puzzle): DateEntry {
    DateEntry(p.date, p.language, p.title, p.difficulty)
  }

  /** The sort key of "newest date first". */
  function NegDate(p: Puzzle): int {
    -p.date
  }

  /** Published puzzles, newest date first. */
  function NewestFirst(store: seq<Puzzle>): (r: seq<Puzzle>)
    ensures forall p :: p in r <==> p in store && p.isPublished
    ensures Seqs.SortedBy(r, NegDate)
  {
    var r := Seqs.SortByKey(Seqs.Filter(store, (p: Puzzle) => p.isPublished), NegDate);
    assert forall p :: p in r <==> p in multiset(r);
    r
  }

  /** The first published puzzle of every date, newest date first. */
  function OnePerDate(store: seq<Puzzle>): (r: seq<Puzzle>)
    ensures forall i, j :: 0 <= i < j < |r| ==> r[i].date > r[j].date
    ensures forall i :: 0 <= i < |r| ==> r[i] in store && r[i].isPublished
  {
    var newest := NewestFirst(store);
    DistinctNewest(newest, store);
    Seqs.DistinctByKey(newest, NegDate)
  }

  lemma DistinctNewest(newest: seq<Puzzle>, store: seq<Puzzle>)
    requires Seqs.SortedBy(newest, NegDate)
    requires forall p :: p in newest ==> p in store && p.isPublished
    ensures forall i, j :: 0 <= i < j < |Seqs.DistinctByKey(newest, NegDate)| ==>
      Seqs.DistinctByKey(newest, NegDate)[i].date > Seqs.DistinctByKey(newest, NegDate)[j].date
    ensures forall i :: 0 <= i < |Seqs.DistinctByKey(newest, NegDate)| ==>
      Seqs.DistinctByKey(newest, NegDate)[i] in store && Seqs.DistinctByKey(newest, NegDate)[i].isPublished
  {
    var r := Seqs.DistinctByKey(newest, NegDate);
    forall i, j | 0 <= i < j < |r| ensures r[i].date > r[j].date {
      assert NegDate(r[i]) < NegDate(r[j]);
    }
    forall i | 0 <= i < |r| ensures r[i] in store && r[i].isPublished {
      assert r[i] in newest;
    }
  }

  /** `e` is the entry of some published puzzle of `store`. */
  ghost predicate EntryOfPublished(e: DateEntry, store: seq<Puzzle>) {
    exists p :: p in store && p.isPublished && e == Entry(p)
  }

  /** The entries of `ps`, in order. */
  function Entries(ps: seq<Puzzle>): (r: seq<DateEntry>)
    ensures |r| == |ps|
    ensures forall i :: 0 <= i < |r| ==> r[i] == Entry(ps[i])
  {
    if |ps| == 0 then [] else [Entry(ps[0])] + Entries(ps[1..])
  }

  /** The dates that have published puzzles, newest first, one entry per date. */
  function PuzzleDates(store: seq<Puzzle>): (r: seq<DateEntry>)
    ensures forall i, j :: 0 <= i < j < |r| ==> r[i].date > r[j].date
    ensures forall i :: 0 <= i < |r| ==> EntryOfPublished(r[i], store)
  {
    var one := OnePerDate(store);
    EntriesOfPublished(one, store);
    Entries(one)
  }

  lemma EntriesOfPublished(one: seq<Puzzle>, store: seq<Puzzle>)
    requires forall i, j :: 0 <= i < j < |one| ==> one[i].date > one[j].date
    requires forall i :: 0 <= i < |one| ==> one[i] in store && one[i].isPublished
    ensures forall i, j :: 0 <= i < j < |Entries(one)| ==> Entries(one)[i].date > Entries(one)[j].date
    ensures forall i :: 0 <= i < |Entries(one)| ==> EntryOfPublished(Entries(one)[i], store)
  {
    var r := Entries(one);
    forall i | 0 <= i < |r| ensures EntryOfPublished(r[i], store) {
      assert one[i] in store && one[i].isPublished && r[i] == Entry(one[i]);
    }
  }

  /** Every published puzzle's date is listed. */
  lemma PuzzleDatesCoverPublished(store: seq<Puzzle>, p: Puzzle)
    requires p in store && p.isPublished
    ensures exists i :: 0 <= i < |PuzzleDates(store)| && PuzzleDates(store)[i].date == p.date
  {
    var newest := NewestFirst(store);
    var j :| 0 <= j < |newest| && newest[j] == p;
    var i := Seqs.KeptIndex(newest, NegDate, j);
    var one := OnePerDate(store);
    assert one == Seqs.DistinctByKey(newest, NegDate);
    assert NegDate(one[i]) == NegDate(p);
    EntriesOfOnePerDate(store, i);
    assert PuzzleDates(store)[i].date == one[i].date == p.date;
  }

  lemma EntriesOfOnePerDate(store: seq<Puzzle>, i: nat)
    requires i < |OnePerDate(store)|
    ensures i < |PuzzleDates(store)| && PuzzleDates(store)[i] == Entry(OnePerDate(store)[i])
  {
    assert PuzzleDates(store) == Entries(OnePerDate(store));
  }

  // ---------------------------------------------------------------------------
  // Submission

  const CorrectMessage: string := "Congratulations! Puzzle solved correctly!"
  const IncorrectMessage: string := "Some answers are incorrect. Keep trying!"

  datatype SubmitResponse =
    | PuzzleNotFound                                                     // 404
    | Checked(correct: bool, message: string, solution: Option<Grid>)    // 200
    | SubmitFailed                                                       // 500

  /** The puzzle with identifier `id`, if the store has one. */
  function FindById(store: seq<Puzzle>, id: int): (r: Option<Puzzle>)
    ensures r.Some? ==> r.value in store && r.value.id == id
    ensures r.None? <==> forall p :: p in store ==> p.id != id
  {
    if |store| == 0 then None
    else if store[0].id == id then Some(store[0])
    else
      var r := FindById(store[1..], id);
      assert forall p :: p in store ==> p == store[0] || p in store[1..];
      r
  }

  /** Checks a submitted grid against the stored solution and, on success, records the
      solve in the statistics bucket of (`today`, `language`). Returns the response and
      the statistics afterwards. */
  function Submit(store: seq<Puzzle>, idParam: string, submitted: Grid, language: string,
                  timeSpent: int, today: int, stats: Stats.Store): (r: (SubmitResponse, Stats.Store))
    ensures JsText.ParseInt(idParam).None? ==> r == (SubmitFailed, stats)
    ensures (JsText.ParseInt(idParam).Some? && FindById(store, JsText.ParseInt(idParam).value).None?)
      ==> r == (PuzzleNotFound, stats)
    ensures r.0.Checked? ==>
      var p := FindById(store, JsText.ParseInt(idParam).value).value;
      && (r.0.correct <==> submitted == p.solution)
      && r.0.solution == (if r.0.correct then Some(p.solution) else None)
      && r.0.message == (if r.0.correct then CorrectMessage else IncorrectMessage)
      && r.1 == (if r.0.correct then Stats.RecordSolve(stats, Stats.Key(today, language), timeSpent) else stats)
    ensures !r.0.Checked? || !r.0.correct ==> r.1 == stats
    ensures JsText.ParseInt(idParam).Some? && FindById(store, JsText.ParseInt(idParam).value).Some? ==> r.0.Checked?
  {
    var id := JsText.ParseInt(idParam);
    if id.None? then (SubmitFailed, stats)
    else
      match FindById(store, id.value)
      case None => (PuzzleNotFound, stats)
      case Some(p) =>
        var ok := submitted == p.solution;
        (Checked(ok, if ok then CorrectMessage else IncorrectMessage, if ok then Some(p.solution) else None),
         if ok then Stats.RecordSolve(stats, Stats.Key(today, language), timeSpent) else stats)
  }

  /** Submitting the stored solution of a stored puzzle is accepted: the answer is
      correct, carries the congratulation and echoes the solution, and the solve is
      recorded. */
  lemma StoredSolutionIsAccepted(store: seq<Puzzle>, idParam: string, p: Puzzle, submitted: Grid, language: string,
                                 timeSpent: int, today: int, stats: Stats.Store)
    requires p in store && JsText.ParseInt(idParam) == Some(p.id) && submitted == p.solution
    requires forall q :: q in store && q.id == p.id ==> q == p
    ensures Submit(store, idParam, submitted, language, timeSpent, today, stats)
      == (Checked(true, CorrectMessage, Some(p.solution)),
          Stats.RecordSolve(stats, Stats.Key(today, language), timeSpent))
  {
    FoundByUniqueId(store, p);
  }

  /** With identifiers unique, the lookup by `p`'s identifier finds `p`. */
  lemma FoundByUniqueId(store: seq<Puzzle>, p: Puzzle)
    requires p in store
    requires forall q :: q in store && q.id == p.id ==> q == p
    ensures FindById(store, p.id) == Some(p)
  {
    var f := FindById(store, p.id);
    assert f.Some?;
  }

  /** A submission changes the statistics only by one solve in the bucket of
      (`today`, `language`), and only when it is a correct answer. */
  lemma SubmitTallies(store: seq<Puzzle>, idParam: string, submitted: Grid, language: string,
                      timeSpent: int, today: int, stats: Stats.Store, k: Stats.Key)
    ensures
      var r := Submit(store, idParam, submitted, language, timeSpent, today, stats);
      var solved := r.0.Checked? && r.0.correct;
      var before := Stats.TallyOf(stats, k);
      Stats.TallyOf(r.1, k)
        == if solved && k == Stats.Key(today, language)
           then Stats.Tally(before.completed + 1, before.timeSpent + timeSpent)
           else before
  {
  }
}
