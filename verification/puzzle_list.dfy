/** The player's puzzle list: a language filter, a page cursor and the list shown,
    driven by user actions and by the answers to the listing requests it sends.
    A request is an output of a transition; its answer comes back later as an event
    of its own, so answers may arrive in any order. */
module PuzzleList {
  import opened Options
  import PlayerController
  import Pagination

  /** Every request asks for pages of this many puzzles. */
  const PageSize: int := 10

  datatype State = State(
    language: string,          // "" for all languages
    page: int,
    totalPages: int,
    dropdownOpen: bool,
    puzzles: seq<PlayerController.PuzzleView>,
    loading: bool,
    hasLoaded: bool,
    mounted: bool)             // the mount effect has run

  /** A listing request: an empty language is sent as no language at all. */
  datatype Request = Request(language: Option<string>, page: int, limit: int)

  /** The body of a listing answer; either part may be missing. */
  datatype Response = Response(puzzles: Option<seq<PlayerController.PuzzleView>>, totalPages: Option<nat>)

  datatype Event =
    | Mount
    | SelectLanguage(language: string)
    | ToggleDropdown
    | GoToPage(target: int)
    | FetchSucceeded(response: Response)
    | FetchFailed

  /** `hasFetcher` says whether the list was given a way to fetch at all. */
  datatype Props = Props(hasFetcher: bool)

  const Initial: State := State("", 1, 1, false, [], false, false, false)

  /** The request for `language` and `page`, if the list can fetch. */
  function Fetch(props: Props, s: State, language: string, page: int): (r: (State, Option<Request>))
    ensures props.hasFetcher <==> r.1.Some?
    ensures r.1.Some? ==> r.1.value.page == page && r.1.value.limit == PageSize
    ensures r.1.Some? ==> (r.1.value.language.None? <==> language == "")
    ensures r.1.Some? ==> (r.1.value.language.Some? ==> r.1.value.language.value == language)
    ensures r.0 == if props.hasFetcher then s.(loading := true) else s
  {
    if !props.hasFetcher then (s, None)
    else (s.(loading := true), Some(Request(if language == "" then None else Some(language), page, PageSize)))
  }

  /** The list after a successful answer: its puzzles (none if missing), and its page
      count, where a missing or zero count reads as one page. */
  function Succeeded(s: State, response: Response): (t: State)
    ensures t.totalPages >= 1
    ensures response.totalPages.Some? && response.totalPages.value > 0 ==> t.totalPages == response.totalPages.value
    ensures response.totalPages.None? || response.totalPages.value == 0 ==> t.totalPages == 1
    ensures t.puzzles == response.puzzles.GetOr([])
    ensures t.hasLoaded && !t.loading
    ensures t.language == s.language && t.page == s.page && t.dropdownOpen == s.dropdownOpen
  {
    var n := response.totalPages.GetOr(0);
    s.(puzzles := response.puzzles.GetOr([]), totalPages := if n == 0 then 1 else n,
       hasLoaded := true, loading := false)
  }

  /** The list after a failed request: empty, on one page. */
  function Failed(s: State): (t: State)
    ensures t.puzzles == [] && t.totalPages == 1 && !t.loading
    ensures t.language == s.language && t.page == s.page && t.dropdownOpen == s.dropdownOpen
    ensures t.hasLoaded == s.hasLoaded
  {
    s.(puzzles := [], totalPages := 1, loading := false)
  }

  /** One transition: the new state and the request it sends, if any. */
  function Step(props: Props, s: State, e: Event): (r: (State, Option<Request>))
    ensures r.1.Some? ==> r.1.value.limit == PageSize && 1 <= r.1.value.page
    ensures r.1.Some? ==> props.hasFetcher
    ensures e.GoToPage? ==>
      if 1 <= e.target <= s.totalPages then r.0.page == e.target && (r.1.Some? <==> props.hasFetcher)
      else r == (s, None)
    ensures e.SelectLanguage? ==>
      && r.0.language == e.language && r.0.page == 1 && !r.0.dropdownOpen
      && (r.1.Some? <==> props.hasFetcher)
      && (r.1.Some? ==> r.1.value.page == 1)
    ensures e.ToggleDropdown? ==> r == (s.(dropdownOpen := !s.dropdownOpen), None)
    ensures e.FetchSucceeded? || e.FetchFailed? ==> r.1.None? && r.0.page == s.page && r.0.totalPages >= 1
    ensures r.0.mounted == (s.mounted || e.Mount?)
    ensures e.Mount? && s.mounted ==> r == (s, None)
    ensures e.Mount? && !s.mounted && s.hasLoaded ==> r == (s.(mounted := true), None)
    ensures e.Mount? && !s.mounted && !s.hasLoaded ==> r == Fetch(props, s.(mounted := true), "", 1)
    ensures e.GoToPage? && 1 <= e.target <= s.totalPages
      ==> r == Fetch(props, s.(page := e.target), s.language, e.target)
    ensures e.SelectLanguage?
      ==> r == Fetch(props, s.(language := e.language, page := 1, dropdownOpen := false), e.language, 1)
    ensures e.FetchSucceeded? ==> r == (Succeeded(s, e.response), None)
    ensures e.FetchFailed? ==> r == (Failed(s), None)
  {
    match e
    case Mount =>
      if s.mounted then (s, None)
      else if s.hasLoaded then (s.(mounted := true), None)
      else Fetch(props, s.(mounted := true), "", 1)
    case SelectLanguage(l) =>
      Fetch(props, s.(language := l, page := 1, dropdownOpen := false), l, 1)
    case ToggleDropdown =>
      (s.(dropdownOpen := !s.dropdownOpen), None)
    case GoToPage(p) =>
      if 1 <= p <= s.totalPages then Fetch(props, s.(page := p), s.language, p)
      else (s, None)
    case FetchSucceeded(response) =>
      (Succeeded(s, response), None)
    case FetchFailed =>
      (Failed(s), None)
  }

  // ---------------------------------------------------------------------------
  // Properties

  /** The page cursor and the page count are always at least 1. */
  predicate Invariant(s: State) {
    s.page >= 1 && s.totalPages >= 1
  }

  lemma StepKeepsInvariant(props: Props, s: State, e: Event)
    requires Invariant(s)
    ensures Invariant(Step(props, s, e).0)
  {
  }

  /** The state after a sequence of events, and the requests sent on the way. */
  function Run(props: Props, s: State, events: seq<Event>): (r: (State, seq<Request>))
    ensures |r.1| <= |events|
    ensures forall i :: 0 <= i < |r.1| ==> r.1[i].limit == PageSize && r.1[i].page >= 1
    decreases |events|
  {
    if |events| == 0 then (s, [])
    else
      var (t, req) := Step(props, s, events[0]);
      var (u, reqs) := Run(props, t, events[1..]);
      (u, (if req.Some? then [req.value] else []) + reqs)
  }

  /** No sequence of events brings the page cursor or the page count below 1. */
  lemma {:induction false} RunKeepsInvariant(props: Props, s: State, events: seq<Event>)
    requires Invariant(s)
    ensures Invariant(Run(props, s, events).0)
    decreases |events|
  {
    if |events| > 0 {
      StepKeepsInvariant(props, s, events[0]);
      RunKeepsInvariant(props, Step(props, s, events[0]).0, events[1..]);
    }
  }

  /** Whatever happens after the list is created, its page cursor and page count stay at least 1. */
  lemma RunFromInitial(props: Props, events: seq<Event>)
    ensures Invariant(Run(props, Initial, events).0)
  {
    RunKeepsInvariant(props, Initial, events);
  }

  /** Toggling the dropdown twice restores it. */
  lemma ToggleTwiceRestores(props: Props, s: State)
    ensures Step(props, Step(props, s, ToggleDropdown).0, ToggleDropdown) == (s, None)
  {
  }

  /** Once on page `p` of more, "next" moves to page `p + 1` and "previous" then moves back. */
  lemma NextThenPreviousReturns(props: Props, s: State)
    requires Invariant(s) && s.page < s.totalPages
    ensures
      var t := Step(props, s, GoToPage(s.page + 1)).0;
      t.page == s.page + 1 && Step(props, t, GoToPage(t.page - 1)).0.page == s.page
  {
  }

  /** On the first mount the list asks for the first page of all languages. */
  lemma MountRequestsFirstPage()
    ensures Step(Props(true), Initial, Mount).1 == Some(Request(None, 1, PageSize))
  {
  }

  /** The mount effect runs once: a second mount changes nothing and sends nothing,
      whatever happened in between. */
  lemma MountRunsOnce(props: Props, s: State, events: seq<Event>)
    ensures
      var t := Run(props, Step(props, s, Mount).0, events).0;
      Step(props, t, Mount) == (t, None)
  {
    RunKeepsMounted(props, Step(props, s, Mount).0, events);
  }

  /** Once the mount effect has run, it stays run. */
  lemma {:induction false} RunKeepsMounted(props: Props, s: State, events: seq<Event>)
    requires s.mounted
    ensures Run(props, s, events).0.mounted
    decreases |events|
  {
    if |events| > 0 {
      RunKeepsMounted(props, Step(props, s, events[0]).0, events[1..]);
    }
  }

  /** The answer the backend gives to a request of the list: the page the request
      names, of the listing for its language. */
  function Answer(store: seq<PlayerController.Puzzle>, q: Request): (r: PlayerController.Result<PlayerController.Listing>)
    requires q.limit == PageSize && q.page >= 1
    ensures r.Success?
  {
    PlayerController.AllPuzzles(store, q.language, q.page, q.limit)
  }

  /** The page count the list shows after the backend's answer is the number of
      pages of the listing, or one page when the listing is empty. */
  lemma ShownPageCountMatchesBackend(store: seq<PlayerController.Puzzle>, q: Request, s: State)
    requires q.limit == PageSize && q.page >= 1
    ensures
      var listing := Answer(store, q).value;
      var t := Succeeded(s, Response(Some(listing.puzzles), listing.totalPages));
      && t.puzzles == listing.puzzles
      && t.totalPages == (if listing.total == 0 then 1 else Pagination.TotalPages(listing.total, PageSize))
  {
    var listing := Answer(store, q).value;
    assert listing.totalPages == Some(Pagination.TotalPages(listing.total, PageSize));
  }
}
