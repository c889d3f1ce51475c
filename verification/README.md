# Player side of the crossword application, in Dafny

This project models the player-facing core of a crossword application in three parts.

- **The backend's player controller.** It covers:
  - the player view of a stored puzzle: letters blanked, black cells kept;
  - the UTC day range built for today's puzzles and for a requested date;
  - the parsing of a `YYYY-MM-DD` date parameter;
  - the paginated listing of published puzzles;
  - the one-entry-per-date listing;
  - the checking of a submitted solution, with its statistics update.
- **The crossword cell component.** Its typing, key and paste handlers, and the black cell, form one transition function over the cell's text.
- **The puzzle list component.** Its language choice, dropdown, page cursor and fetch results form a state machine. Each request it sends is an output, and each answer comes back later as an event.

The store is a `seq<Puzzle>`, and every query is a filter, an ordering and a window over it. JavaScript numbers that can be `NaN` are `Option<int>`, with `None` standing for `NaN`. Time values are integers: milliseconds since the epoch.

The Dafny modules follow the program's structure:

| module | file | what it holds |
|---|---|---|
| `Options` | options.dfy | optional values |
| `Seqs` | seqs.dfy | filter, sort by key, and keep one element per key: the `where`, `orderBy` and `distinct` clauses |
| `Grid` | grid.dfy | grids and the player projection |
| `JsText` | js_text.dfy | `String.prototype.split` and the global `parseInt` (ECMA-262, section 19.2.5) |
| `UtcDate` | utc_date.dfy | `Date.UTC` with MakeDay, DayFromYear and TimeClip (ECMA-262, sections 21.4.1 and 21.4.3.4), plus a calendar it is proved against |
| `Pagination` | pagination.dfy | skip/take windows and the page count |
| `Stats` | stats.dfy | the (day, language) statistics store |
| `PlayerController` | player_controller.dfy | the five request handlers |
| `CrosswordCell` | crossword_cell.dfy | the cell component |
| `PuzzleList` | puzzle_list.dfy | the list component, and how it meets the listing handler |

The cell's character rules come in two versions, selected by `CrosswordCell.Rules`:

- **`AsWritten`** is what the component does, with `toUpperCase` as `CrosswordCell.UpperCase` models it.
- **`Corrected`** is what it evidently means: one letter per cell, and no arithmetic signs.

The properties of the cell are proved for `Corrected`. What `AsWritten` does differently is shown under Findings.

## Model

| member | source | states |
|---|---|---|
| Grid.PlayerCell | backend/src/controllers/playerController.js:47 | a player cell is `'#'` exactly when the stored cell is `'#'`, and is `''` otherwise |
| Grid.PlayerRow | backend/src/controllers/playerController.js:182 | a projected row has the stored row's length, and each cell follows the cell rule |
| Grid.PlayerGrid | backend/src/controllers/playerController.js:46-48 | the player grid has the stored grid's number of rows and each row's length; a cell is `'#'` exactly where the stored cell is, and `''` everywhere else |
| Grid.PlayerViewIsUnique | backend/src/controllers/playerController.js:127-129 | the cell rule fixes the player grid completely, so the three places that apply it (lines 46-48, 127-129 and 182) compute the same grid |
| Grid.PlayerGridIdempotent | backend/src/controllers/playerController.js:46-48 | projecting an already projected grid changes nothing |
| PlayerController.View | backend/src/controllers/playerController.js:56-70 | a puzzle sent to a player carries the player projection of its grid and the filled grid as `solution`; identifier, title, date, language, difficulty, size, clues and creation time are passed through unchanged; a missing numbering is sent as an empty map |
| PlayerController.Views | backend/src/controllers/playerController.js:122-149 | mapping the view over the found puzzles keeps their number and order |
| PlayerController.TodayRange | backend/src/controllers/playerController.js:16-17 | when both ends are valid dates, today's range is one day long (86,400,000 ms) and starts at a UTC midnight |
| PlayerController.RequestedRange | backend/src/controllers/playerController.js:103-104 | the range for a requested date is one day long, and it can be built only when year, month and day are all numbers (not `NaN`) |
| PlayerController.RangeConventionsAgree | backend/src/controllers/playerController.js:98-104 | the 1-based construction (`month - 1`) and today's 0-based construction give the same range, or the same error, for the same day |
| PlayerController.TodayRangeIsCalendarDay | backend/src/controllers/playerController.js:16-17 | for a real calendar date the range starts at that date's UTC midnight and ends at the next calendar date's midnight, including month ends, year ends and 29 February; years 0 to 99 stand for 1900 to 1999 |
| PlayerController.PuzzlesOn | backend/src/controllers/playerController.js:22-31 | the day query returns exactly the published puzzles dated inside the range, each as often as it is stored, in creation order |
| PlayerController.DayViews | backend/src/controllers/playerController.js:35-71 | the views sent for a day are those of the published puzzles inside the range and of no other |
| PlayerController.DayQuery | backend/src/controllers/playerController.js:110-155 | a day handler answers exactly when its range could be built, and then with the views of the published puzzles inside that range (each such view is sent, and no other); an invalid date ends in status 500 |
| PlayerController.TodaysPuzzles | backend/src/controllers/playerController.js:5-31 | today's puzzles are sent exactly when today's range is a valid date range, and they are the views of the published puzzles inside that range |
| PlayerController.TodaysPuzzlesAreThatDay | backend/src/controllers/playerController.js:16-31 | for a real calendar date, a published puzzle is among that day's puzzles exactly when its date falls on that UTC calendar day |
| PlayerController.ViewInDayViews | backend/src/controllers/playerController.js:22-31 | a published puzzle's view is among a day's views exactly when its date is inside the day's range |
| PlayerController.DateParts | backend/src/controllers/playerController.js:91-100 | a parameter with a dash yields as year the `parseInt` of the text before the first dash, and no day when it has fewer than three pieces; one without a dash yields the given local date, or three `NaN`s for an invalid one |
| PlayerController.PuzzlesByDate | backend/src/controllers/playerController.js:84-156 | the date handler answers exactly when the range of the parsed year, month and day can be built, and then with the views of the published puzzles inside it; an invalid undashed date ends in status 500 |
| PlayerController.ParseIntOfDigits | backend/src/controllers/playerController.js:94 | `parseInt` of a run of decimal digits is the number they denote |
| PlayerController.SplitDashedDate | backend/src/controllers/playerController.js:92-94 | splitting `YYYY-MM-rest` on dashes yields the year digits, the month digits, then the pieces of the rest |
| PlayerController.FirstPieceReadsDigits | backend/src/controllers/playerController.js:94 | the day piece reads as the day digits, whatever follows them (a time part, or a further dash) |
| PlayerController.DatePartsOfDashedDate | backend/src/controllers/playerController.js:92-94 | `2025-12-17`, and also `2025-12-17T00:00:00Z`, read as year 2025, month 12, day 17 |
| PlayerController.DashedDateSelectsThatDay | backend/src/controllers/playerController.js:92-119 | a dashed date selects the same puzzles as today's query on the calendar day its digits denote |
| PlayerController.QueryOfDateParts | backend/src/controllers/playerController.js:103-119 | once year, month and day are read, the date query is today's query on that day, with the month shifted to 0-based |
| PlayerController.ListingOrder | backend/src/controllers/playerController.js:162-176 | the listing's ordered result holds exactly the published puzzles, in the given language when one is given (an empty language meaning none), each as often as stored, newest date first |
| PlayerController.AllPuzzles | backend/src/controllers/playerController.js:158-209 | the listing fails exactly when skip or take is negative; otherwise it shows at most `limit` listed puzzles; its total is the number of listed puzzles; its page count is `ceil(total/limit)`, or non-finite for a page size of 0 |
| PlayerController.ListingPageIsPage | backend/src/controllers/playerController.js:167-175 | page `p` of the listing is the window of `limit` puzzles after the first `(p-1)*limit` of the ordered result |
| PlayerController.ListingPositionOnPage | backend/src/controllers/playerController.js:167-207 | every listed puzzle appears on one of pages 1 to `totalPages`, at its offset within that page |
| PlayerController.NewestFirst | backend/src/controllers/playerController.js:286-290 | the dates query sees exactly the published puzzles, newest date first |
| PlayerController.OnePerDate | backend/src/controllers/playerController.js:279-291 | the distinct-date result has strictly decreasing dates, so at most one entry per date, each a published stored puzzle |
| PlayerController.Entries | backend/src/controllers/playerController.js:280-285 | the selected columns are taken from every row, in order |
| PlayerController.PuzzleDates | backend/src/controllers/playerController.js:277-298 | the dates listing is newest first with one entry per date, and each entry is the date, language, title and difficulty of a published puzzle |
| PlayerController.PuzzleDatesCoverPublished | backend/src/controllers/playerController.js:286-289 | `distinct` loses no date: every published puzzle's date is listed |
| PlayerController.FindById | backend/src/controllers/playerController.js:222-224 | the lookup finds a stored puzzle with that identifier, and finds none exactly when no stored puzzle has it |
| PlayerController.Submit | backend/src/controllers/playerController.js:216-270 | a non-numeric id ends in status 500 and a missing puzzle in 404, both with the statistics unchanged; a numeric id of a stored puzzle is always checked; `correct` holds exactly when the submitted grid equals the stored solution; the solution and the congratulation are sent only then; only a correct answer records a solve |
| PlayerController.StoredSolutionIsAccepted | backend/src/controllers/playerController.js:222-270 | submitting the stored solution of a stored puzzle under its identifier is answered as correct, with the congratulation and the solution, and records one solve |
| PlayerController.FoundByUniqueId | backend/src/controllers/playerController.js:222-224 | with identifiers unique, the lookup by a stored puzzle's identifier finds that puzzle |
| PlayerController.SubmitTallies | backend/src/controllers/playerController.js:233-263 | a submission changes only the tally of (today, language): by one completion and `timeSpent`, and only when it is correct; every other tally is unchanged |
| Stats.RecordSolve | backend/src/controllers/playerController.js:246-262 | an existing tally gains one completion and `timeSpent`; a missing tally is created as (1, `timeSpent`); no other tally changes |
| Stats.RecordAllCounts | backend/src/controllers/playerController.js:246-263 | over any sequence of solves, each bucket grows by the number of solves in it and by their total time |
| Pagination.TotalPages | backend/src/controllers/playerController.js:207 | `ceil(total/limit)`: the smallest page count whose pages hold every item, and 0 exactly when there is nothing to list |
| Pagination.TotalPagesExamples | backend/src/controllers/playerController.js:207 | with ten per page: 0 items make 0 pages, 1, 9 or 10 items make 1 page, and 11 items make 2 |
| Pagination.Window | backend/src/controllers/playerController.js:174-175 | a skip/take window holds at most `take` items, the ones after the first `skip`, and is empty past the end |
| Pagination.SkipIsNegative | backend/src/controllers/playerController.js:167 | the skip `(page-1)*limit` is negative exactly for a positive limit with a page below 1, or a negative limit with a page above 1 |
| Pagination.FirstPagesArePrefix | backend/src/controllers/playerController.js:167-175 | pages 1 to `n` in order are exactly the first `n*limit` items |
| Pagination.PagesTileResult | backend/src/controllers/playerController.js:167-207 | pages 1 to `totalPages` in order are the whole result, with nothing lost or repeated |
| Pagination.PageOf | backend/src/controllers/playerController.js:167 | the page holding position `i` is at least 1, and its window covers `i` |
| Pagination.PageOfIsUnique | backend/src/controllers/playerController.js:167-168 | no other page covers that position, so pages never overlap |
| Pagination.PageOfWithinTotal | backend/src/controllers/playerController.js:207 | every position of the result is on a page no later than `totalPages` |
| Pagination.PositionOnPage | backend/src/controllers/playerController.js:167-175 | position `i` is item `i - (p-1)*limit` of its page `p` |
| UtcDate.DateUtc | backend/src/controllers/playerController.js:16 | `Date.UTC(y, m, d)` is `NaN` when an argument is, and otherwise is a UTC midnight within the time-value range, on day `MakeDay(FullYear(y), m, d)`, where `FullYear` reads years 0 to 99 as 1900 to 1999; TimeClip keeps every midnight within ±8.64e15 ms and makes any other `NaN` |
| UtcDate.MakeDayCountsDates | backend/src/controllers/playerController.js:17 | `d + 1` in `Date.UTC` is always the following day number, whatever the month length |
| UtcDate.DayFromYearStep | backend/src/controllers/playerController.js:16-17 | consecutive years start exactly one year length apart under the Gregorian leap rule |
| UtcDate.MonthsFillYear | backend/src/controllers/playerController.js:16-17 | the twelve month lengths add up to the year length |
| UtcDate.NextDate | backend/src/controllers/playerController.js:17 | the calendar successor of a real date is a real date |
| UtcDate.DayAfterIsNextDate | backend/src/controllers/playerController.js:104 | MakeDay's normalisation of day `d + 1` lands on the next calendar date, across month ends, year ends and leap days |
| UtcDate.NextDateIsNextDay | backend/src/controllers/playerController.js:17 | the next calendar date is numbered exactly one more |
| UtcDate.DayNumberMonotone | backend/src/controllers/playerController.js:16-17 | day numbers follow calendar order |
| UtcDate.DayNumberInjective | backend/src/controllers/playerController.js:16-17 | different real dates have different day numbers, so their day ranges never coincide |
| UtcDate.DateUtcOfCivilDate | backend/src/controllers/playerController.js:16 | `Date.UTC` of a real calendar date is its UTC midnight |
| UtcDate.DateUtcOfDayAfter | backend/src/controllers/playerController.js:17 | `Date.UTC` of the day after a real date is the next calendar date's UTC midnight |
| UtcDate.InDayIffDayOf | backend/src/controllers/playerController.js:24-27 | a time value is inside `[start, end)` of a day exactly when it rounds down to that day |
| JsText.Split | backend/src/controllers/playerController.js:94 | `split('-')` gives at least one piece, and no piece holds a dash |
| JsText.JoinSplit | backend/src/controllers/playerController.js:94 | joining the pieces with the separator gives back the parameter |
| JsText.SplitJoin | backend/src/controllers/playerController.js:94 | splitting dash-free pieces joined by dashes gives back the pieces |
| JsText.SplitCons | backend/src/controllers/playerController.js:94 | the first piece is everything before the first dash |
| JsText.ParseInt | backend/src/controllers/playerController.js:94 | `parseInt` gives a number only for text that, after leading white space, starts with a digit or a sign, and a negative number only after a minus sign |
| JsText.DigitPrefixLength | backend/src/controllers/playerController.js:94 | `parseInt` reads the longest run of digits and stops at the first non-digit |
| JsText.ParseIntReadsDecimalPrefix | backend/src/controllers/playerController.js:94 | `parseInt` of a digit run followed by a non-digit, non-hex-marker text reads the digit run alone |
| JsText.ToDecimal | backend/src/controllers/playerController.js:94 | a number's decimal numeral is a non-empty digit string denoting that number |
| JsText.ParseIntToDecimal | backend/src/controllers/playerController.js:94 | `parseInt` reads every decimal numeral back as its number |
| CrosswordCell.UpperCase | frontend/src/components/player/CrosswordCell.jsx:41 | `toUpperCase` of one character yields at least one character |
| CrosswordCell.NormalizeStoredCase | frontend/src/components/player/CrosswordCell.jsx:41 | upper-casing a stored character again changes nothing, so the stored form is a fixed point |
| CrosswordCell.Upper | frontend/src/components/player/CrosswordCell.jsx:114 | the text stored for an accepted character is never empty, and under the corrected rules it is one character, a letter in stored form whenever the character is a letter |
| CrosswordCell.Letters | frontend/src/components/player/CrosswordCell.jsx:112-113 | the global match returns only accepted characters, and returns none exactly when the text has no accepted character |
| CrosswordCell.Navigation | frontend/src/components/player/CrosswordCell.jsx:49-53 | a navigation is reported exactly when `onNavigate` is given, and it is the requested direction |
| CrosswordCell.OnInput | frontend/src/components/player/CrosswordCell.jsx:34-60 | an emptied field clears the cell and does not move; if the last character's upper case is a letter, it fills the cell, is reported and asks for `next`; anything else changes nothing and reports nothing |
| CrosswordCell.ArrowDirection | frontend/src/components/player/CrosswordCell.jsx:80-92 | `ArrowLeft`, `ArrowRight`, `ArrowUp` and `ArrowDown` map to left, right, up and down, and a key maps to a direction only if it is that direction's arrow key |
| CrosswordCell.OnKeyDown | frontend/src/components/player/CrosswordCell.jsx:62-99 | Backspace clears a filled cell without moving, and on an empty cell asks for `previous`; other keys report no value; arrows ask for their direction; a letter key empties the field |
| CrosswordCell.OnPaste | frontend/src/components/player/CrosswordCell.jsx:107-125 | the pasted text's last letter, upper-cased, fills the cell, is reported and asks for `next`; text without a letter changes nothing |
| CrosswordCell.Step | frontend/src/components/player/CrosswordCell.jsx:127-137 | a non-black cell passes typing to `OnInput`, key presses to `OnKeyDown` and pasting to `OnPaste`; a black cell has no field, so no typing, key or paste event changes it or reports anything; only a new `value` reaches it; a reported value is always the new text; `next` follows only a filled cell, and `previous` only an empty one |
| CrosswordCell.NormalizeLetter | frontend/src/components/player/CrosswordCell.jsx:114 | the stored form of a letter is a letter, already in stored form |
| CrosswordCell.StepKeepsCellWellFormed | frontend/src/components/player/CrosswordCell.jsx:34-60 | under the corrected rules, every event keeps a cell empty or holding one upper-case letter |
| CrosswordCell.TypingAndPastingAgree | frontend/src/components/player/CrosswordCell.jsx:107-125 | typing a letter and pasting it have the same effect |
| CrosswordCell.LettersIgnoreTrailingNonLetters | frontend/src/components/player/CrosswordCell.jsx:112 | characters after the last letter do not change the list of letters |
| CrosswordCell.PasteTakesLastLetter | frontend/src/components/player/CrosswordCell.jsx:111-116 | pasting text whose last letter is `c` fills the cell with `c` upper-cased |
| CrosswordCell.BackspaceClearsThenMovesBack | frontend/src/components/player/CrosswordCell.jsx:64-77 | on a filled cell, a first Backspace clears it and a second asks for `previous` |
| CrosswordCell.SharpSFillsCellWithTwoLetters | frontend/src/components/player/CrosswordCell.jsx:41-46 | as written, a typed or pasted `ß` fills the cell with the two letters `SS` |
| CrosswordCell.LetterClassIsCaseInsensitive | frontend/src/components/player/CrosswordCell.jsx:44 | on Latin-1, the `i` flag makes the letter class ignore case: a character is in it exactly when its one-character upper case is |
| CrosswordCell.NonLetterTypedIsIgnored | frontend/src/components/player/CrosswordCell.jsx:41-46 | typing a Latin-1 character outside the letter class (a digit, a sign, a space) changes nothing and reports nothing |
| CrosswordCell.DotlessIFillsCellWithI | frontend/src/components/player/CrosswordCell.jsx:41-46 | the class is tested after upper-casing: typed `ı`, outside the class, fills the cell with `I` |
| CrosswordCell.SignsPassLetterClass | frontend/src/components/player/CrosswordCell.jsx:44 | as written, the signs `×` and `÷` are accepted as letters |
| PuzzleList.Fetch | frontend/src/components/player/PuzzleList.jsx:17-26 | without a fetcher nothing happens; otherwise the list starts loading and asks for that page, ten per page, sending no language when the language is empty |
| PuzzleList.Succeeded | frontend/src/components/player/PuzzleList.jsx:28-30 | after an answer the list shows its puzzles (none if missing), and its page count, or 1 when that is missing or 0; the list is loaded |
| PuzzleList.Failed | frontend/src/components/player/PuzzleList.jsx:31-37 | after a failure the list is empty on one page and no longer loading |
| PuzzleList.Step | frontend/src/components/player/PuzzleList.jsx:17-61 | the mount effect runs once: the first mount fetches page 1 of all languages unless the list has already loaded, and any later mount does nothing; going to page `p` with `1 <= p <= totalPages` moves there and fetches that page in the current language, and any other page changes nothing; choosing a language sets it, resets to page 1, closes the dropdown and fetches page 1 of it; the toggle flips the dropdown; an answer is applied by `Succeeded`, a failure by `Failed`, and neither sends a request; every request asks for ten |
| PuzzleList.StepKeepsInvariant | frontend/src/components/player/PuzzleList.jsx:56-61 | no event brings the page or the page count below 1 |
| PuzzleList.Run | frontend/src/components/player/PuzzleList.jsx:17-26 | over any run of events, every request sent asks for ten per page, on a page of at least 1 |
| PuzzleList.RunKeepsInvariant | frontend/src/components/player/PuzzleList.jsx:28-34 | over any run of events, the page and the page count stay at least 1 |
| PuzzleList.RunFromInitial | frontend/src/components/player/PuzzleList.jsx:13-14 | from the initial page 1 of 1, the invariant holds after any events |
| PuzzleList.ToggleTwiceRestores | frontend/src/components/player/PuzzleList.jsx:52-54 | toggling the dropdown twice restores it |
| PuzzleList.NextThenPreviousReturns | frontend/src/components/player/PuzzleList.jsx:140-157 | "next" from a page before the last moves one page on, and "previous" then moves back |
| PuzzleList.MountRunsOnce | frontend/src/components/player/PuzzleList.jsx:39-43 | after a mount, whatever events follow, a further mount changes nothing and sends nothing |
| PuzzleList.RunKeepsMounted | frontend/src/components/player/PuzzleList.jsx:39-43 | once the mount effect has run, no sequence of events makes it run again |
| PuzzleList.MountRequestsFirstPage | frontend/src/components/player/PuzzleList.jsx:39-43 | on first mount the list asks for page 1 of all languages, ten per page |
| PuzzleList.Answer | frontend/src/components/player/PuzzleList.jsx:22-26 | the backend always answers a request of the list with a listing |
| PuzzleList.ShownPageCountMatchesBackend | frontend/src/components/player/PuzzleList.jsx:29 | after the backend's answer the list shows the answer's puzzles, and the listing's page count, or 1 page for an empty listing |

## Left out

- The database and the web framework are not modelled. Each query is a pure filter, ordering and window over a sequence of puzzles, and each response is a value. A query that throws is a `Failure`, read as status 500.
- `JSON.parse` of the stored grid, clue and numbering columns is not modelled. Puzzles carry parsed values, and a parse failure would be a generic 500. The submitted solution is taken to be a grid of strings, compared structurally; `JSON.stringify` equality on other JSON shapes is not modelled.
- Inputs that depend on the server's local time zone are parameters:
  - the local calendar day of `getTodaysPuzzles` (lines 10-13);
  - the non-dash `new Date(date)` branch of `getPuzzlesByDate` (lines 96-99);
  - the local-day window of the statistics lookup (lines 235-240), modelled as an abstract day key.
- Statistics updates race when submissions run concurrently (read, then write). The model is sequential.
- The statistics lookup filters by `language`, taken from the request body. When that is `undefined`, the store may ignore the filter. This is not modelled: the bucket key is (day, language) as given.
- The query parameters `page` and `limit` are strings in the source. `(page - 1) * limit` coerces them to numbers. `parseInt(limit)` can give `NaN`, and a non-numeric page gives a `NaN` skip. Both are modelled as integers. A negative skip or take is modelled as a store error; the store's own handling of a negative take (reading backwards) is not modelled.
- Pagination.TotalPages: defined for a positive page size only. A page size of 0 gives `totalPages: null` after JSON encoding of `Infinity`, which `AllPuzzles` models as `None`.
- `parseInt` is exact on unbounded integers. Its precision loss above 2^53 is not modelled.
- The order among puzzles with equal sort keys, and which row `distinct` keeps per date, are left to the store. The model keeps equal keys in stored order and keeps the first puzzle of each date. Contracts therefore state only what holds for any such choice.
- PlayerController.FindById: states the lookup by identifier but not which row is found when identifiers repeat. Identifiers are unique in the store.
- `timeSpent` is taken as an integer. Its absence (`undefined`, making the total `NaN`) is not modelled.
- CrosswordCell.UpperCase: covers Latin-1 and every character outside it whose upper case contains a character of the letter class (`ı`, `ſ`, `ŉ`, `ǰ`, `ẖ` to `ẚ`, the Latin ligatures). Every other character is taken as its own upper case; the rest of Unicode case mapping is not modelled. This changes no reaction of a cell: for every character taken as its own upper case, either that is exact (as for `Ÿ`, U+0178, the one character outside Latin-1 in the letter class), or neither the character nor its real upper case is in the letter class.
- CrosswordCell.InLetterClass: the class `[A-ZÀ-ÿ]` with the `i` flag is modelled as A-Z, a-z, U+00C0 to U+00FF, and U+0178. Other case-folding equivalences are not modelled.
- UTF-16 surrogate pairs are not modelled: a character is one string element.
- The 50 ms `setTimeout` before navigation is not modelled. Navigation is an emitted direction, without timing.
- Focus handling, click and hover callbacks, and rendering are not modelled.
- The list's own `loading` prop is not modelled: it only affects what is rendered.
- PuzzleList.Step: the component has no mount flag. React runs its mount effect once, and the model records that in `mounted`. So a first mount of a list that has already loaded changes the state's `mounted` field, although it sends nothing and changes nothing the component holds.
- `usePuzzles.js`, `PuzzleArchive.jsx`, `CluesPanel.jsx`, the route table, the database scripts, the browser-automation script and the entry point are not part of this model.
- Clue and grid consistency is not checked by any code shown, so it is not stated.

## Findings

| source | as written | input that shows it | evidently intended | confidence | as-written member | corrected member |
|---|---|---|---|---|---|---|
| frontend/src/components/player/CrosswordCell.jsx:41-46 | the last character is upper-cased with `toUpperCase` and stored whole if it matches the letter class | typing or pasting `ß`: `'ß'.toUpperCase()` is `"SS"`, so the cell holds two letters | one letter per cell | not executed | CrosswordCell.SharpSFillsCellWithTwoLetters | CrosswordCell.StepKeepsCellWellFormed |
| frontend/src/components/player/CrosswordCell.jsx:44 | letters are recognised by `/[A-ZÀ-ÿ]/i` | typing `×` (U+00D7) or `÷` (U+00F7): both lie in the range `À-ÿ`, so the sign is stored | only alphabetic characters, as the comment at line 43 says | not executed | CrosswordCell.SignsPassLetterClass | CrosswordCell.StepKeepsCellWellFormed |

The corrected rules have three parts:

- they accept only `IsLetter` characters: the class without `×` and `÷`;
- they store `Normalize(c)`, the one-character upper case, or `c` itself when upper-casing would give several characters;
- `StepKeepsCellWellFormed` proves that every event then leaves the cell empty or holding one letter in stored form.

Typed `ǰ` and `ẖ` to `ẚ` fill the cell as written with a letter and a combining mark, as `ß` fills it with two letters; the corrected rules ignore them. Typed `ı` and `ſ` are accepted under both rules, because their upper cases `I` and `S` are in the class. Pasting them is ignored, because the paste handler tests the character before upper-casing it.
