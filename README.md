# Burndown engine of `burndown.py`

`burndown.py` reads the cards of a team's project board and reports progress
against a fixed course window. It does four things:

- It reads a story-point estimate out of each card's title. Two regular
  expressions are tried in order: a bracketed number such as `(5)`, `[13P]` or
  `(2.5]`, then an inline `weight: N`. A card with neither is worth one point.
- It turns every card into a task. The title is the note without its trailing
  whitespace, or the linked issue's title. A card in a done column also gets a
  completion time: the issue's close time, or the card's last update.
- It splits the board into a list of tasks still to do and a list of tasks
  done. A column is done when its name contains `Done`.
- It computes the data of the burndown chart: a straight ideal line, and an
  actual curve that subtracts the points completed on each day. It also
  computes a velocity, in points per day.

The model is split into modules that follow those steps:

- `Common`: optional values, results, the two failures, instants and day offsets.
- `Text`: Python's whitespace class, `rstrip` and substring search.
- `Points`: the two patterns. Each has a matcher that follows the regex
  engine's backtracking order, next to a declarative description of the
  strings the pattern accepts. Lemmas tie the two together: soundness and
  completeness. The bracket pattern has at most one capture at a position. The
  inline pattern can admit two there (`5` and `5.5` in `weight: 5.5 x`), and
  its matcher takes the longest one. The lemmas also cover leftmost search,
  first-pattern-wins and round trips from written points back to their value.
- `Cards`: the card and task records and the per-card functions.
- `Board`: column classification, and the partition loop as a method proved
  against a filter over the board's task list.
- `Burndown`: the ideal curve; the per-day `Counter` and the running loop,
  both as methods proved against a bucket-free definition of the actual
  curve; and the velocity.
- `Report`: the two text helpers.
- `Scenarios`: worked examples, including one board followed all the way to
  its actual curve.

Instants are whole seconds on one absolute clock. A day offset is
`(t - start).days`, which rounds down, so an instant one second before the
start falls on day -1. Story points are `real` numbers. Reading a captured
numeral with `Decimal` is exact, and so is the model, but the program's default
`Decimal` context rounds every sum, difference, product and quotient to 28
significant digits; the model computes all of them exactly (see "## Left out").

Three behaviours of the program are easy to misread; the model follows the
code:

- `ideal_burndown` with an end before the start has a negative day count.
  `range(days, 0, -1)` is then empty, so the result is an empty curve. Only a
  day count of zero is an error.
- A task completed before the window or after its last day is never
  subtracted from the actual curve. The running loop only reads the buckets of
  days 0 to `len(ideal) - 1` (`Burndown.OutOfWindowIgnored`).
- A note made only of whitespace is truthy. It gives an empty title and does
  not fall back to the linked content (`Cards.BlankNoteGivesEmptyTitle`).

## Model

| member | source | states |
|---|---|---|
| Common.DayOffset | burndown.py:147 | `(t - start).days` is the whole number of days d with start + d days <= t < start + d+1 days, rounded down for instants before the start |
| Text.RStrip | burndown.py:46 | `rstrip` keeps a prefix of the note, removes only whitespace, and leaves no whitespace at the end |
| Text.Contains | burndown.py:83 | `keyword in name` holds exactly when the keyword occurs in the name as a contiguous substring |
| Text.IsSpace | burndown.py:46 | the whitespace that `str.rstrip` removes, which is also what `\s` accepts in the inline pattern (burndown.py:19); it is never a word character or a decimal point, so a greedy `\s+` never gives a character back (the class itself is carried by RStrip and the inline lemmas) |
| Points.NumeralValue | burndown.py:68 | `Decimal(pts)` is the whole part plus a fraction in [0, 1), and exactly the whole part when there is no fraction |
| Points.WordBoundaryAt | burndown.py:19 | `\b` after a word character holds exactly at the end of the title or before a character that is not a word character |
| Points.RunEnd | burndown.py:16-19 | a greedy `\d+` or `\s+` run covers only characters of its class and stops before the next one that is not |
| Points.ParenNumeralAt | burndown.py:16 | the bracket pattern tried at one position; its own contract only says a capture is a valid numeral, and its meaning is given by ParenSound and ParenComplete |
| Points.ParenSound | burndown.py:16 | whatever the bracket matcher captures at a position is a match of the bracket pattern there |
| Points.ParenComplete | burndown.py:16 | every match of the bracket pattern at a position is the matcher's capture, so the capture at a position is unique |
| Points.InlineNumeralAt | burndown.py:19 | the inline pattern tried at one position; its own contract only says a capture is a valid numeral, and its meaning is given by InlineSound and InlineComplete |
| Points.InlineNumeralFrom | burndown.py:19 | `\d+(\.\d+)?\b` after the whitespace, fraction tried first; its own contract only says a capture is a valid numeral, and its meaning is given by InlineFromSound and InlineFromComplete |
| Points.InlineFromSound | burndown.py:19 | the numeral captured after `weight:` and the whitespace stands at that point and is followed by a word boundary |
| Points.InlineSound | burndown.py:19 | whatever the inline matcher captures is a match of `weight:\s+N\b` |
| Points.InlineFromComplete | burndown.py:19 | after the whitespace the matcher captures the longest numeral followed by a word boundary, and exactly N when N has a fraction or no fraction follows it |
| Points.InlineComplete | burndown.py:19 | wherever the inline pattern matches, the matcher succeeds with a capture at least as long, and captures exactly N when N has a fraction or no fraction follows it |
| Points.InlineLongestCaptured | burndown.py:19 | at a position where the inline pattern matches, the matcher captures exactly the longest numeral the pattern admits there |
| Points.InlineFractionGivenBack | burndown.py:19 | when the fraction after the whole digits runs into another word character, `\b` fails after it and the capture is the whole digits alone, the longest match there |
| Points.SearchFrom | burndown.py:66 | `search` from a position; its own contract only says a capture is a valid numeral, and its meaning is given by SearchFromFindsLeftmost, SearchFromFails and SearchFromFound |
| Points.Search | burndown.py:66 | `search` over the whole title; its own contract only says a capture is a valid numeral, and its meaning is given by SearchFindsLeftmost and SearchFails |
| Points.SearchFromFindsLeftmost | burndown.py:66 | `search` returns the first position from which the pattern matches, with its capture |
| Points.SearchFromFails | burndown.py:66 | `search` fails when the pattern matches at no position |
| Points.SearchFromFound | burndown.py:66 | what `search` returns is a match, and no earlier position matches |
| Points.SearchFindsLeftmost | burndown.py:66 | searching a whole title finds its leftmost match |
| Points.SearchFails | burndown.py:66 | searching a title with no match anywhere finds nothing |
| Points.FirstMatch | burndown.py:65-68 | the loop over `PTS_RES` finds nothing exactly when every pattern fails; otherwise it returns the capture of the first pattern that matches, and every earlier pattern failed |
| Points.TitlePoints | burndown.py:63-69 | the story points of a title are never negative |
| Points.TitlePointsByPattern | burndown.py:63-69 | a bracket match decides; otherwise a `weight:` match decides; otherwise the points are DEFAULT_STORY_POINTS |
| Points.BracketWins | burndown.py:15-21 | the leftmost bracketed numeral gives exactly its value, even when a `weight:` marker also appears |
| Points.WeightWhenNoBracket | burndown.py:18-21 | with no bracketed numeral anywhere, the leftmost `weight:` match decides, and of the numerals the pattern admits there the longest gives exactly its value (`weight: 5.5x` gives 5) |
| Points.DefaultWhenNoMatch | burndown.py:63-69 | a title that neither pattern matches is worth one point |
| Points.DefaultWithoutMarkers | burndown.py:63-69 | a title with no open bracket and no `weight:` is worth one point |
| Points.LeadingBracketWins | burndown.py:15-21 | `(N)`, `[N]`, `(NP)`, `[Np]` or a mixed pair such as `(N]`, after text with no open bracket, gives exactly N |
| Points.BracketRoundTrip | burndown.py:15-16 | any numeral written in round brackets reads back as its own value |
| Points.WholeRoundTrip | burndown.py:15-16 | `(N)` of a whole number N reads back as N |
| Points.TenthsValue | burndown.py:68 | the text `N.d` is worth N + d/10 exactly |
| Points.TenthsRoundTrip | burndown.py:15-16 | `(N.d)` reads back as N + d/10 exactly |
| Cards.CardTitle | burndown.py:45-46 | fails exactly for a card with neither note nor content; a non-empty note gives its rstrip, otherwise the content's title |
| Cards.CardClosedDate | burndown.py:53-58 | the content's close time when the content exists and is closed, otherwise the card's update time |
| Cards.CardStoryPoints | burndown.py:63-69 | succeeds exactly when the title can be read, and the points are never negative |
| Cards.MakeTask | burndown.py:96-111 | the Task of a card has the card's title and points, a completion time in a done column and none elsewhere, and fails exactly when the title does |
| Cards.BlankNoteGivesEmptyTitle | burndown.py:46 | a whitespace-only note gives the empty title, not the content's title |
| Board.IsDoneColumn | burndown.py:82-83 | a column is done exactly when some keyword is a case-sensitive substring of its name |
| Board.ColumnTasks | burndown.py:94-113 | the comprehension over a column's cards builds one task per card, in card order, and fails exactly when some card has no title |
| Board.Where | burndown.py:93-114 | the filtered list holds only tasks of the requested kind and is no longer than the input |
| Board.WhereExtend | burndown.py:93-114 | extending the board by one column's tasks extends exactly one of the two lists by exactly those tasks |
| Board.ColumnTasksKind | burndown.py:96-110 | tasks read from a done column carry a completion time and the others do not |
| Board.GetTodoDoneTasks | burndown.py:86-115 | succeeds exactly when every card has a title; the todo list and the done list are the board's tasks still to do and done, in board order |
| Board.BoardTasksCount | burndown.py:90-114 | the board yields exactly one task per card |
| Board.PartitionComplete | burndown.py:86-115 | the two lists together hold as many tasks as the board has cards |
| Board.ListsFollowColumns | burndown.py:86-115 | the done list is the tasks of the done columns and the todo list those of the other columns, in column order and card order |
| Burndown.CourseLength | burndown.py:11-13 | the course window is 46 days |
| Burndown.TotalPoints | burndown.py:140 | the sum of non-negative story points is non-negative |
| Burndown.TotalPointsAppend | burndown.py:140 | the total of `[*todo, *done]` is the total of todo plus the total of done |
| Burndown.IdealBurndown | burndown.py:120-123 | fails exactly when the window is zero days; otherwise has one entry per day, and none when the window is negative |
| Burndown.IdealShape | burndown.py:120-123 | entry i is total × (days - i) / days: it starts at the total, falls by the same rate each day, and ends at one rate, not zero |
| Burndown.IdealStrictlyDecreasing | burndown.py:120-123 | with a positive total the ideal curve falls strictly and stays above zero |
| Burndown.CompletedByDay | burndown.py:143-148 | each day's Counter entry is the sum of the points of the done tasks completed that day, and the Counter's keys are the days that occur |
| Burndown.ActualBurndown | burndown.py:150-154 | the running loop yields one entry per day; entry i is the total minus the points completed on days 0 to i |
| Burndown.BurndownChart | burndown.py:140-154 | fails exactly when the window is zero days; otherwise gives the ideal curve of the total of all tasks and an actual curve of the same length |
| Burndown.ActualIsRunningBuckets | burndown.py:150-154 | entry i of the actual curve is the total minus the sum of the buckets of days 0 to i |
| Burndown.ActualNonIncreasing | burndown.py:150-154 | with non-negative points the actual curve never goes up |
| Burndown.OutOfWindowIgnored | burndown.py:146-154 | a task completed before the window or after its last day leaves the actual curve unchanged |
| Burndown.FinalEntryIsTodoPoints | burndown.py:140-154 | when every done task falls inside the window, the last entry of the actual curve is the points still to do |
| Burndown.Velocity | burndown.py:182-186 | fails exactly when no whole day has elapsed; otherwise velocity × elapsed days is the points done |
| Report.Heading | burndown.py:72-73 | the text, a newline, as many `=` as the text has characters, and a newline |
| Report.FmtTask | burndown.py:76-79 | `DONE ` or `TODO `, the title, then ` Done: `, the date and a space for a done task or two spaces for a task to do, then the points and a final `p`, with nothing else in the line |
| Scenarios.MixedBracketExample | burndown.py:16 | `Fix login (5]` is worth 5 |
| Scenarios.BracketOverWeightExample | burndown.py:15-21 | `weight: 2 then [13P]` is worth 13 |
| Scenarios.FractionFallbackExample | burndown.py:19 | `weight: d.ex`, with digits d and e and a letter or underscore x (such as `weight: 5.5x`), is worth d |
| Scenarios.WeightWithoutSpaceExample | burndown.py:19 | `weight:5` is worth the default 1 |
| Scenarios.ColumnExamples | burndown.py:82-83 | `Done` is a done column; `In progress` and `done` are not |
| Scenarios.IdealExample | burndown.py:120-123 | 40 points over 10 days give 40, 36, ..., 4 |
| Scenarios.VelocityExample | burndown.py:182-186 | 21 points after 7 whole days is 3 points a day |
| Scenarios.EndToEndExample | burndown.py:86-154 | a board with an 8-point card done on day 3 and a 1-point card to do splits into those two tasks and gives the actual curve 9, 9, 9, 1, 1 |

## Left out

- The GitHub client and the environment setup (burndown.py:27-41) are left out, as are the calls `get_columns`, `get_cards` and `get_content`. Their results are the inputs of the model: a sequence of columns, each with its cards, each card with its linked content.
- Plotting is left out: the matplotlib import, its failure path, `plot`, `show` and `savefig` (burndown.py:128-138, 156-167). `Burndown.BurndownChart` returns the two series that would be plotted.
- From `main` (burndown.py:170-202), argument handling, the one-project unpacking and all printing are left out. The clock is read there, so `Burndown.Velocity` takes `now` as a parameter.
- The time-zone conversion `.replace(tzinfo=None).astimezone(tz=TIMEZONE)` (burndown.py:56, 58) is left out. It reinterprets a UTC time in the host's local zone. The model treats every timestamp as an instant on one absolute clock.
- Locale-dependent `:n` formatting, `.2` formatting and `%Y-%m-%d` date formatting (burndown.py:78-79, 189-190) are left out. `Report.FmtTask` takes the rendering of a date and of a number as parameters.
- Burndown.IdealBurndown: divides and multiplies exactly. `Decimal`'s rounding of `story_points / days` and of `rate * day` to 28 significant digits is not modelled.
- Burndown.Velocity: divides exactly, with the same rounding left out.
- Points.TitlePoints: `\d` and `\w` are restricted to ASCII. Python also accepts other Unicode decimal digits and letters there, and `Decimal` reads such digits.
- Burndown.TotalPoints: adds exactly. The program's `sum` of `Decimal` points rounds each partial sum to 28 significant digits, so a title such as `(12345678901234567890123456789)` gives a rounded total there and an exact one here.
- Burndown.CompletedByDay: adds exactly. The Counter's `+=` on `Decimal` points rounds to 28 significant digits, which is not modelled.
- Burndown.ActualBurndown: subtracts exactly. The rounding of `pts_left -= ...` to 28 significant digits is not modelled.
- Burndown.TotalPoints: the empty sum is the real 0. Python's empty `sum` gives the integer 0, which has the same value.
- A missing note and an empty note are both falsy to the program, so both are the empty string in the model.
