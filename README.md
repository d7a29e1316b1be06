# Voting engine of sct-voting-machine, modelled in Dafny

sct-voting-machine is a small web application for anonymous polls. A poll has a question, two or more options, and one duplicate-vote
checking strategy:

- `none`: anyone may vote any number of times;
- `cookies`: the voter's session remembers that it voted;
- `codes`: every vote needs a one-time voting code.

A poll may also have:

- a closing time;
- a flag that hides the results until the poll is closed;
- an admin password. The person holding it may issue extra codes, close the poll at once, or change the settings.

Once a poll has votes, its results page shows a pie chart whose slices are laid out from the option vote counts.

This project models the core of that engine:

- `records.dfy` (module `Records`): the rows the engine works on (options, votes, voting codes) and the two queries it runs over the voting-code table. The first counts the unused codes of a poll. The second finds a code by id and marks it used.
- `poll.dfy` (module `Polls`): the poll record as a class with mutable settings, plus the derived `closed` and `results_visible` attributes. It also has the issuing of voting codes into the code table, which every poll shares. That table is a class too, because code creation appends to it in place.
- `poll_controller.dfy` (module `PollController`): the duplicate-vote check, vote casting with its all-or-nothing insertion and the marker it records, the admin password gate, the three kinds of admin edit, and the validation and construction of a new poll.
- `pie_chart.dfy` (module `PieChart`): the numeric part of the pie chart, including tallies, sorting by vote count, dropping zero counts, slice arcs, slice colours, legend swatches and the per-poll chart cache.

Inputs that the application takes from its environment are parameters of the model:

- the current time is one instant `now`, an integer timestamp;
- the session is a set of keys;
- the presented code and password are `Option` values;
- the shuffled base palette is a sequence of colours;
- new poll, option and code ids are parameters or come from a counter.

## Model

| member | source | states |
|---|---|---|
| Records.VoteCount | app/Http/Controllers/PollController.php:205 | An option's vote count is the number of votes cast for it, and never exceeds the number of votes. |
| Records.UseCode | app/Http/Controllers/PollController.php:302-305 | Defined as: the row found by the presented id gets its used flag set, and the table stays as it was when no row has that id. Its effect on the counts is in UnusedCodeCountMarkUsed and AdmittedCodeIsOwn. |
| Records.UnusedCodeCount | app/Poll.php:59 | The number of unused codes of a poll never exceeds the size of the code table. |
| Records.UnusedCodeCountZero | app/Poll.php:59 | The unused-code count of a poll is zero exactly when no row of the table is an unused code of that poll. |
| Records.UnusedCodeCountAppend | app/Poll.php:51 | Saving a batch of codes at the end of the table adds the batch's own unused count to every poll's count. |
| Records.UnusedCodeCountOfFresh | app/Poll.php:44-51 | A batch of new, unused codes of a poll adds exactly its size to that poll's count. |
| Records.UnusedCodeCountMarkUsed | app/Http/Controllers/PollController.php:302-305 | Marking a row used lowers a poll's count by one when the row was an unused code of that poll. Otherwise the count stays the same. |
| Records.FindCode | app/Http/Controllers/PollController.php:255 | The lookup by id returns an in-range row with that id and no earlier row with it. It returns nothing exactly when no row carries the id. |
| Records.FindCodeMarkUsed | app/Http/Controllers/PollController.php:255-257 | Marking a code used changes no id, so a later lookup of any id finds the same row as before. |
| Polls.Poll.CreateVotingCodes | app/Poll.php:44-54 | Creates exactly n codes of this poll, all unused, with ids new to the table, appended to the table in order after the existing rows, which stay as they were. The poll's unused count rises by exactly n. |
| Polls.Poll.Valid | app/Http/Controllers/PollController.php:286-297 | Defined as: the poll's option ids are distinct, and each of its votes is for one of its options. CreatePoll establishes it, and Vote and Edit preserve it (a vote row is saved only for an option the poll's lookup found). |
| Polls.Poll.HasOption | app/Http/Controllers/PollController.php:288 | Defined as: the lookup among this poll's options finds the id. |
| Polls.Poll.Closed | app/Poll.php:56-60 | Defined as: the closing time is set and in the past, or the poll is a codes poll with no unused code. ClosedIff restates it over the code rows. |
| Polls.Poll.ResultsVisible | app/Poll.php:62-65 | Defined as: the hide flag is off, or the poll is closed. See ResultsVisibleWhen. |
| Polls.OpenWithoutDeadlineOrCodes | app/Poll.php:56-60 | A poll with no closing time that is not a codes poll is never closed. |
| Polls.StaysClosed | app/Poll.php:58 | Once the closing time has passed, the poll is closed at every later instant. |
| Polls.ClosedIff | app/Poll.php:56-60 | A poll is closed exactly when its closing time is set and earlier than now, or it is a codes poll none of whose codes is unused. |
| Polls.ResultsVisibleWhen | app/Poll.php:62-65 | Results are visible when the hide flag is off, and always once the poll is closed. Before closing they are visible exactly when the flag is off. |
| Polls.IssuedCodesOpen | app/Poll.php:44-60 | After at least one new code is issued to a codes poll whose closing time has not passed, the poll is open, whatever its earlier codes. |
| PollController.HasVotedAsWritten | app/Http/Controllers/PollController.php:248-263 | Defined as hasVoted is written: no check for `none`, the session key for `cookies`, and for `codes` a missing or used code found by id over the whole table. See HasVotedAsWrittenByStrategy. |
| PollController.HasVoted | app/Http/Controllers/PollController.php:248-263 | Defined as the corrected hasVoted, which the engine uses: as written, except that a code issued for another poll counts as missing. See HasVotedByStrategy. |
| PollController.HasVotedAsWrittenByStrategy | app/Http/Controllers/PollController.php:248-263 | As written, hasVoted blocks as follows. `none` never blocks. `cookies` blocks exactly when the session holds the poll's id. `codes` admits exactly when some row of the whole table has the presented id and is unused, whatever poll it belongs to. |
| PollController.ForeignCodeAdmitted | app/Http/Controllers/PollController.php:255-258 | Counterexample: the check as written admits an unused code issued for another poll, where the corrected check blocks it. Spending that code leaves this poll's unused count unchanged. |
| PollController.HasVotedByStrategy | app/Http/Controllers/PollController.php:248-263 | Corrected hasVoted: `none` and `cookies` behave as written. `codes` admits exactly when the presented id names an unused code of this poll. |
| PollController.AdmittedCodeIsOwn | app/Http/Controllers/PollController.php:299-306 | A code vote that the corrected check admits spends exactly one of this poll's own unused codes. Its count drops by one. |
| PollController.MarkerBlocksRepeat | app/Http/Controllers/PollController.php:299-306 | After an admitted vote records its marker (the poll id in the session, or the code marked used), hasVoted is true for the same credential. |
| PollController.SelectionValidAsWritten | app/Http/Controllers/PollController.php:275-283 | Defined as the option rules behave: at least one option, and exactly one when a single answer is allowed. `distinct` on the array attribute compares nothing (see Findings). |
| PollController.SelectionValid | app/Http/Controllers/PollController.php:275-283 | Defined as the intended option rules, which the engine uses: at least one option, no duplicates, and exactly one when a single answer is allowed. |
| PollController.DuplicateSelectionAdmitted | app/Http/Controllers/PollController.php:275-278 | Counterexample: on a poll with multiple answers, the ballot naming one option twice passes the rules as they behave but not the intended rules, and it would cast two votes for that option. |
| PollController.DistinctBallotCounts | app/Http/Controllers/PollController.php:286-297 | A ballot without duplicates casts exactly one vote for each option it names and none for any other. |
| PollController.Vote | app/Http/Controllers/PollController.php:265-310 | Vote uses the corrected checks of the Findings rows: it calls HasVoted for the duplicate-vote check and SelectionValid for the option rules. Each outcome holds exactly under its guard, in the source's order: closed, already voted, invalid selection (missing, duplicated, or not exactly one when a single answer is allowed), unknown option. The poll stays consistent (Poll.Valid). Every refusal leaves votes, codes and session untouched, including an unknown option met after earlier votes, which is rolled back. A successful vote appends one vote per selected option in order. For `cookies` it adds the poll id to the session. For `codes` it marks the presented code used. That lowers the poll's unused count by one, and hasVoted is then true. |
| PollController.Authorized | app/Http/Controllers/PollController.php:317 | Defined as the gate of admin and edit: refuse when no non-empty password is stored, or the presented one differs. Line 334 repeats it. See AuthorizedIff. |
| PollController.AuthorizedIff | app/Http/Controllers/PollController.php:317-319 | The admin gate admits exactly when a stored password exists, it is not empty, and the presented password equals it. |
| PollController.SettingsValid | app/Http/Controllers/PollController.php:363-369 | Defined as the settings rules: a closing time is required when automatic closing is asked for, and must lie after now; a non-empty password is required when setting one is asked for. |
| PollController.Edit | app/Http/Controllers/PollController.php:332-384 | An edit keeps the poll consistent (Poll.Valid) and does the following. Without authorization, it changes nothing. Asking for extra codes on a poll that is not a codes poll changes nothing. A count below one is rejected. Otherwise exactly that many unused codes of the poll are issued. Close now sets the closing time to now and nothing else. The settings form is saved only when its closing time lies after now and a requested password is given, and then it writes exactly the three fields. |
| PollController.ClosedAfterCloseNow | app/Http/Controllers/PollController.php:352-354 | After close now, the poll is closed at every later instant. At the instant it was closed, its deadline has not yet passed (a codes poll with no unused code is closed even then). |
| PollController.PresentOptions | app/Http/Controllers/PollController.php:30-32 | Dropping the empty option entries never lengthens the list. A text remains exactly when it was submitted, and as many times as it was submitted. |
| PollController.CreateFormValidAsWritten | app/Http/Controllers/PollController.php:39-50 | Defined as the create rules behave: the intended rules without the distinctness of the options, since `distinct` on the array attribute compares nothing (see Findings). |
| PollController.CreateFormValid | app/Http/Controllers/PollController.php:39-50 | Defined as the intended create rules, which the engine uses: a non-empty question, at least two filled-in and distinct options, a valid closing time and password, and at least two codes, always given for a codes poll. |
| PollController.DuplicateTextsAdmitted | app/Http/Controllers/PollController.php:41 | Counterexample: a form with two options of the same text passes the create rules as they behave but not the intended ones. |
| PollController.CreateFormValidIff | app/Http/Controllers/PollController.php:39-50 | The intended create rules are exactly the rules as they behave plus distinct option texts. |
| PollController.CreatePoll | app/Http/Controllers/PollController.php:28-88 | No poll is created exactly when the form breaks a validation rule. A valid form yields a new poll carrying the form's settings, no votes, and one option per filled-in entry in order with consecutive ids, so the poll is consistent (Poll.Valid). A codes poll also gets the requested number of new unused codes, and a new poll is never closed. |
| PieChart.ShuffledPaletteValid | app/Http/Controllers/PollController.php:182-183 | Every reordering of the seven base colours is a palette of seven colours whose channels all lie below 255. |
| PieChart.SortByDesc | app/Http/Controllers/PollController.php:205 | The options come out ordered by non-increasing vote count. The result is a permutation of the input. |
| PieChart.NonZero | app/Http/Controllers/PollController.php:206 | Filtering keeps exactly the options with a positive count, with their multiplicities. |
| PieChart.NonZeroSorted | app/Http/Controllers/PollController.php:205-206 | Filtering a sorted sequence leaves it sorted. |
| PieChart.PlottedTallies | app/Http/Controllers/PollController.php:205-206 | Defined as: the options' tallies sorted by descending count, then the zero counts dropped. See PlottedTalliesSpec. |
| PieChart.PlottedTalliesPlottable | app/Http/Controllers/PollController.php:176 | Each plotted count is positive and at most the poll's vote count, so every share is at most the whole. |
| PieChart.PlottedTalliesTotal | app/Http/Controllers/PollController.php:176-206 | With distinct option ids, the plotted counts add up to at most the poll's vote count. They add up to exactly that count when every vote is for one of the options. |
| PieChart.PollPlottedTotal | app/Http/Controllers/PollController.php:176-206 | For a consistent poll (Poll.Valid), the plotted counts add up to exactly its number of votes, so the shares make up the whole circle. |
| PieChart.PlottedTalliesSpec | app/Http/Controllers/PollController.php:204-206 | The plotted options are sorted by non-increasing vote count. Each has a positive count, and they are exactly the options with votes, each option once. |
| PieChart.NoVotesNoSlices | app/Http/Controllers/PollController.php:176-208 | A poll without votes has no slice to draw. |
| PieChart.Degrees | app/Http/Controllers/PollController.php:212 | The arc of a share is the share of 360 degrees rounded half up, and never exceeds 360 for a share of at most the whole. |
| PieChart.StartAt | app/Http/Controllers/PollController.php:204-213 | Every start angle lies within 0 to 360. |
| PieChart.StartAtMonotone | app/Http/Controllers/PollController.php:213-231 | Start angles never decrease from slice to slice. |
| PieChart.Channel | app/Http/Controllers/PollController.php:215-219 | A colour channel lies between its base value and 255 (excluded). For the first round of slices through the palette, it is the base value itself. |
| PieChart.SliceColour | app/Http/Controllers/PollController.php:215-220 | Defined as: the palette colour of the slice's position, each channel moved toward white for the later rounds through the palette. See SliceColourBounds. |
| PieChart.SliceColourBounds | app/Http/Controllers/PollController.php:215-220 | Each slice colour is at least its palette colour channel by channel, and below white. The first seven slices take the palette colours as they are. |
| PieChart.Layout | app/Http/Controllers/PollController.php:204-231 | Defined as: one slice per plotted tally, from its start angle to the next start angle, in the slice's colour. See LayoutArcs and LayoutNonDecreasing. |
| PieChart.LayoutArcs | app/Http/Controllers/PollController.php:204-231 | One slice per plotted option, in order. The first starts at 0. Each ends where the next starts, at its start plus its rounded share clamped to 360. Every angle lies within 0 to 360. |
| PieChart.LayoutNonDecreasing | app/Http/Controllers/PollController.php:213-231 | The slices follow each other around the circle: angles never decrease along the layout. |
| PieChart.LayoutExample | app/Http/Controllers/PollController.php:212-213 | For counts 6, 3 and 1 out of 10, the arcs are 0 to 216, 216 to 324 and 324 to 360. |
| PieChart.SwatchMap | app/Http/Controllers/PollController.php:226-229 | Defined as: the colour of each slice stored under its option id, in slice order. See SwatchMapSpec. |
| PieChart.SwatchMapSpec | app/Http/Controllers/PollController.php:226-229 | The legend has an entry for every drawn option and no other entries. Each entry is the colour of a slice of its option, and it is the colour of the last slice drawn for that option. |
| PieChart.LayOutSlices | app/Http/Controllers/PollController.php:202-232 | The drawing loop produces exactly the specified layout and the legend map built from it. |
| PieChart.CacheHit | app/Http/Controllers/PollController.php:178 | Defined as: an entry is cached under the poll's id and its vote count is the current one. |
| PieChart.CreatePieChart | app/Http/Controllers/PollController.php:174-245 | A cached chart whose vote count matches the poll's is kept as it is. Otherwise the chart of the poll's current votes is stored under its id, and no other entry changes. Afterwards the cache holds a chart for the current count. |

## Left out

- HTTP handling, redirects, views, JSON responses and flashed session flags (`changed`, `extraCodes`, `alreadyClosed`, `voted`) are left out. The model returns an outcome value instead.
- The admin page (lines 312-330 of the controller) is modelled only by its password gate, `Authorized`. Everything else on it is presentation.
- Drawing is left out: GD image creation, arc filling, supersampling, resampling and data-URI encoding. A slice is its start and end angle and its colour; a legend swatch is its colour.
- The shuffle of the base palette is random. The palette is a parameter, and `ShuffledPaletteValid` shows that every reordering is acceptable.
- PieChart.Degrees: PHP computes the share in floating point before rounding. The model rounds the exact rational half up, so rounding errors of the division are not modelled.
- PieChart.Channel: the channel is computed exactly and truncated toward zero (the operands are non-negative). The float intermediate is not modelled.
- PieChart.SortByDesc: the collection sort's order among options with equal counts is not specified by the model. It is modelled by an insertion sort, and only its ordering is claimed.
- The cache entry's one-day expiry is left out, and so is the cache being shared across processes.
- Time parsing by Carbon is left out (times are integers). So is the server time zone.
- UUID generation for polls and codes is left out. The poll id is a parameter, option ids are consecutive from a parameter, and code ids come from a counter that yields ids new to the table.
- The lookup of the new poll by its `created_at` timestamp in create is modelled as returning the poll just saved. Two polls created in the same instant are not modelled.
- Concurrent requests and the database transaction's isolation are left out. The rollback of a partly inserted vote is modelled as restoring the earlier votes.
- `debug()` calls have no effect on the state and are left out.
- PollController.AuthorizedIff: PHP's loose `!=` also equates distinct numeric strings such as "1" and "01". The model compares passwords as strings. An empty stored password counts as no password, as PHP's `== null` has it.
- Laravel's `distinct` rule is not part of this model. Two Findings rows rest on how it treats an attribute without `.*`: it matches no entries, so it compares nothing. The engine uses the intended rules (SelectionValid, CreateFormValid).
- app/PollOption.php, app/PollVote.php and app/PollVotingCode.php are not part of this model. An option's vote count is taken to be the number of its vote rows, and a code row to carry an id, its poll and a used flag.
- PollController.Edit: a request carrying several of `extra_codes`, `close_now` and settings fields is served by the first branch the source tests. The model takes the request kind as already chosen.

## Findings

| source | as written | input that shows it | evidently intended | confidence | as-written member | corrected member |
|---|---|---|---|---|---|---|
| app/Http/Controllers/PollController.php:255 | hasVoted finds the presented code by id among the codes of every poll. The vote then marks that code used (line 302). | A codes poll A with a code of its own, and an unused code issued for another poll B. Voting on A with B's code is admitted. It spends B's code, and A's unused count stays the same. | Only an unused code issued for this poll admits a vote, so a poll with N codes takes at most N code votes. | high; not executed | PollController.HasVotedAsWritten, PollController.ForeignCodeAdmitted | PollController.HasVoted, PollController.AdmittedCodeIsOwn |
| app/Http/Controllers/PollController.php:277 | The rule `distinct` names the `options` array, not its entries (`options.*`), so it matches no entry and compares nothing. | A poll allowing multiple answers, and a ballot naming one option twice. Both votes are saved, and one voter adds two votes to that option. | No option is named twice on a ballot, so a ballot gives each of its options one vote. | medium; rests on Laravel's handling of `distinct`, which is not part of this model; not executed | PollController.SelectionValidAsWritten, PollController.DuplicateSelectionAdmitted | PollController.SelectionValid, PollController.DistinctBallotCounts |
| app/Http/Controllers/PollController.php:41 | The same `distinct` rule on the `options` array of create compares nothing. | A form whose two options have the same text is accepted. | The options of a poll have distinct texts. | medium; rests on Laravel's handling of `distinct`, which is not part of this model; not executed | PollController.CreateFormValidAsWritten, PollController.DuplicateTextsAdmitted | PollController.CreateFormValid, PollController.CreateFormValidIff |
