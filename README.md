# Message counting of the chat-statistics script

The script loads a chat channel exported as JSON and counts, for every local
calendar day, how many messages each person sent, together with the overall
number of messages per person. This project models the message loop of
`collect_data_from_json` in `graph.py`:

- **Filter.** A message is skipped when its `type` is `"GuildMemberJoin"` or
  its author's `isBot` flag is set (`Graph.Qualifies`).
- **Timestamp repair.** When the timestamp contains `:`, two digits and
  `+00:00` (whole seconds with no fraction), its last six characters are
  replaced by `.000+00:00`, so the text fits the parse format
  `%Y-%m-%dT%H:%M:%S.%f+00:00` (`Graph.RepairTimestamp`). The search for the
  pattern is a leftmost-match scan (`Graph.FindPattern`). As in the code, the
  last six characters are replaced wherever the match was found.
- **Day key.** The local date text, a space and the weekday abbreviation from
  `WEEK` (`Graph.DayKey`).
- **Counting.** Each counted message raises `date_data[day][author]`,
  `author_counts[author]` and `overall_author_dict[author]` by one, each read
  with a default of 0. A day's bucket is created when `date_data.get(day, {})`
  is empty.

The loop itself is `Graph.CollectDataFromJson`, a method over three map-valued
variables, with the same branches in the same order as the source. It is proved
equal to `Graph.Collect`, a fold of `Graph.Step` over the messages. Lemmas about
`Collect` then give the invariants of the result:

- the two per-author dictionaries are equal;
- every stored count is at least 1 and no day bucket is empty;
- each author's total is the sum of that author's counts over all days;
- the grand total is the number of counted messages.

A second, independent definition counts the qualifying messages directly
(`AuthorTotal`, `DayAuthorTotal`, `DayTotal`). Every counter the pass produces is
proved equal to its count.

Parsing the timestamp and converting it to the `US/Central` zone are library
calls. They are a parameter of the model: a total function `Converter` from the
repaired timestamp to an optional local date, given as its date text and its
weekday index in 0..6. `None` stands for the `ValueError` the parser raises on
text that does not fit the format. That error is not caught, so it ends the
pass: the model returns `ParseError` with the rejected text.

The source comments say the repair is for timestamps "without millisecond
granularity". The regular expression `:[0-9][0-9]\+00:00` matches a seconds
field followed directly by the offset. The model follows the code: it repairs
whole-second timestamps. It does not repair a two-digit fraction.

## Model

| member | source | states |
|---|---|---|
| `Graph.CollectDataFromJson` | graph.py:33-77 | the loop returns exactly `Collect` of the messages and keeps `Promised`: on success the tallies are consistent (equal per-author maps, counts at least 1, per-author total is the sum over days, grand total is the number of counted messages) and equal to the reference counts; it fails exactly when some counted message's timestamp does not parse |
| `Graph.Qualifies` | graph.py:42-45 | defines the skip test: a message counts unless its `type` is `"GuildMemberJoin"` or its author's `isBot` is set |
| `Graph.Qualifying` | graph.py:42-45 | the kept messages are exactly the messages of the input that are neither member-join notices nor bot messages |
| `Graph.QualifyingCounts` | graph.py:42-45 | each qualifying message is kept exactly as many times as it occurs in the input and every other message is dropped, so the length of the filtered list is the number of counted messages |
| `Graph.QualifyingIdempotent` | graph.py:42-45 | filtering an already filtered list returns it unchanged |
| `Graph.CollectSkips` | graph.py:42-45 | appending a member-join notice or a bot message leaves the whole outcome of the pass unchanged |
| `Graph.MatchesAt` | graph.py:47 | defines an occurrence of the regular expression `:[0-9][0-9]\+00:00` at one position |
| `Graph.FindPattern` | graph.py:47-48 | the search returns the leftmost position at or after `from` where `:`, two digits and `+00:00` occur, or none when the pattern occurs nowhere there |
| `Graph.RepairTimestamp` | graph.py:47-52 | when the pattern occurs, the result is the input minus its last six characters followed by `.000+00:00`; otherwise the input unchanged; an input ending in `+00:00` gives a result ending in `+00:00`; everything but the last six characters survives, so the date and time text is kept |
| `Graph.RepairSettles` | graph.py:47-52 | when the pattern's only occurrence is the tail, the repaired text no longer contains the pattern, so repairing twice is repairing once |
| `Graph.RepairAddsFraction` | graph.py:47-52 | text ending in `:`, two digits and `+00:00` gets `.000` inserted before the offset, e.g. `12:34:56+00:00` becomes `12:34:56.000+00:00` |
| `Graph.RepairKeepsFraction` | graph.py:47-52 | a UTC timestamp whose only `+` is the offset and that has no `:` three places before it (a fraction such as `56.123+00:00`) is left unchanged |
| `Graph.DayKey` | graph.py:57-59 | defines the day key: `str(date)`, a space, and `WEEK[weekday]` |
| `Graph.DayKeyLastSpace` | graph.py:57-59 | a day key is the date text, a space, then an entry of `WEEK`; its last space is the one after the date |
| `Graph.DayKeyInjective` | graph.py:14-20 | two local dates give the same day key exactly when they are equal, since the seven weekday abbreviations are distinct and contain no space |
| `MapSums.Get` | graph.py:63 | defines `d.get(k, 0)`: the stored count, or 0 for an absent key |
| `Graph.Bucket` | graph.py:64 | defines `date_data.get(day, {})`: the day's counts, or an empty map for an absent day |
| `MapSums.Bump` | graph.py:63 | `d[k] = d.get(k, 0) + 1` adds `k` to the keys, sets it one above its old count and leaves every other key's count alone |
| `Graph.Step` | graph.py:62-74 | defines the effect of one counted message: its day bucket, `author_counts` and `overall_author_dict` each gain one for its author |
| `Graph.Collect` | graph.py:40-74 | defines the whole pass as a left-to-right fold: skipped messages change nothing, a counted message is one `Step`, and the first unparsable timestamp ends the pass with that error |
| `Graph.StepBumpsOne` | graph.py:63-74 | counting a message adds its day to the days, raises `date_data[day][author]` and `overall_author_dict[author]` by one, changes no other (day, author) entry and no other author's total, and removes no author from an existing day bucket |
| `Graph.ResetOnlyWhenAbsent` | graph.py:64-69 | in a consistent state a day's bucket reads as empty exactly when the day is absent, so the re-initialisation only creates new buckets |
| `Graph.ColumnAfterStep` | graph.py:69 | counting a message raises the sum over days of its author's counts by one and leaves every other author's sum alone |
| `Graph.StepConsistent` | graph.py:62-74 | counting one message keeps the invariants and raises the grand total by one |
| `Graph.CollectCounts` | graph.py:54-74 | a counted message whose timestamp parses is one `Step` on its day key and author name |
| `Graph.CollectConsistent` | graph.py:40-74 | every completed pass is consistent, with grand total equal to the number of qualifying messages |
| `Graph.CollectMatchesReference` | graph.py:40-74 | each author's total equals the number of that author's qualifying messages; each `date_data[day][author]` equals the number of that author's qualifying messages on that day; a day has a bucket exactly when some qualifying message falls on it |
| `Graph.CollectFails` | graph.py:54-55 | the pass fails exactly when some qualifying message's repaired timestamp does not parse, and it reports the first such timestamp |
| `Graph.CollectSummary` | graph.py:40-74 | every pass keeps `Promised`: consistency and reference counts on success, and failure exactly when some counted timestamp does not parse |
| `Graph.ErrorPersists` | graph.py:54-55 | once a prefix of the messages has failed, the whole pass ends with that same error |

## Left out

- `export_json` (graph.py:23-30) runs an external export program in a subprocess. It is I/O only.
- Opening the file, `json.load` and reading `channel.name` (graph.py:36-39). The input is an already decoded sequence of messages, and the channel title is not part of the model.
- `datetime.strptime`, the conversion to UTC and to `US/Central`, and `date().weekday()` (graph.py:54-57) are library calendar and time-zone arithmetic. They are the `Converter` parameter. The model does not tie the weekday index to the date text.
- Messages with missing fields. A missing `type` reads as `None`, which differs from `"GuildMemberJoin"`, so the message is counted; the model covers it by any `kind` other than `"GuildMemberJoin"`. A missing `isBot` reads as falsy and the message is counted; the model covers it by `isBot == false`. A missing `author` stops the pass with an attribute error (graph.py:44), and a missing `timestamp` stops it with a type error in the regular-expression search (graph.py:48); the model's messages always carry both. A missing `name` makes `None` a dictionary key (graph.py:62); author names are strings in the model, so that key cannot be represented.
- Python dictionary insertion order is not modelled; the maps are unordered.
- `plot_data` (graph.py:80-86) draws the chart with pandas and matplotlib.
- The `__main__` block and the `print` calls (graph.py:30, 76, 89-97).
- `Graph.CollectDataFromJson` returns all three dictionaries. The source returns `date_data` and the channel title, prints `overall_author_dict`, and drops `author_counts`.
- Per-author peak days, the chattiest author per day and the reaction tallies are not computed in `graph.py`, so they are not part of this model.
