/**
 The message-counting pass of the chat-statistics script: which messages are
 counted, how a timestamp without fractional seconds is repaired, how the
 local day key is built, and how per-day and per-author counters are updated.
 */
module Graph {

  import opened MapSums

  datatype Option<T> = None | Some(value: T)

  // ---------------------------------------------------------------------------
  // Messages as decoded from the exported JSON document

  /** The `author` object of a message: its `name` and its `isBot` flag. */
  datatype Author = Author(name: string, isBot: bool)

  /** One entry of the document's `messages` array (`type`, `author`, `timestamp`). */
  datatype Message = Message(kind: string, author: Author, timestamp: string)

  const MemberJoin: string := "GuildMemberJoin"

  /** A message sent by a person: not a member-join notice and not from a bot. */
  predicate Qualifies(m: Message)
  {
    m.kind != MemberJoin && !m.author.isBot
  }

  /** The qualifying messages, in order. */
  function Qualifying(ms: seq<Message>): (q: seq<Message>)
    ensures |q| <= |ms|
    ensures forall m :: m in q ==> m in ms && Qualifies(m)
    ensures forall m :: m in ms && Qualifies(m) ==> m in q
    decreases |ms|
  {
    if ms == [] then []
    else
      var m := ms[|ms| - 1];
      var rest := Qualifying(ms[..|ms| - 1]);
      assert forall x :: x in ms ==> x in ms[..|ms| - 1] || x == m;
      if Qualifies(m) then rest + [m] else rest
  }

  /** Each qualifying message is kept exactly as many times as it occurs; the others are dropped. */
  lemma {:induction false} QualifyingCounts(ms: seq<Message>)
    ensures forall m :: multiset(Qualifying(ms))[m] == if Qualifies(m) then multiset(ms)[m] else 0
    decreases |ms|
  {
    if ms != [] {
      QualifyingCounts(ms[..|ms| - 1]);
      assert ms == ms[..|ms| - 1] + [ms[|ms| - 1]];
    }
  }

  /** Filtering an already filtered list changes nothing. */
  lemma {:induction false} QualifyingIdempotent(ms: seq<Message>)
    ensures Qualifying(Qualifying(ms)) == Qualifying(ms)
    decreases |ms|
  {
    if ms != [] {
      var m := ms[|ms| - 1];
      var rest := Qualifying(ms[..|ms| - 1]);
      QualifyingIdempotent(ms[..|ms| - 1]);
      if Qualifies(m) {
        assert (rest + [m])[..|rest + [m]| - 1] == rest;
      }
    }
  }

  // ---------------------------------------------------------------------------
  // Timestamp repair

  predicate IsDigit(c: char)
  {
    '0' <= c <= '9'
  }

  /** The pattern `:[0-9][0-9]\+00:00` occurs at position `i` of `ts`. */
  predicate MatchesAt(ts: string, i: int)
  {
    0 <= i && i + 9 <= |ts|
    && ts[i] == ':' && IsDigit(ts[i + 1]) && IsDigit(ts[i + 2])
    && ts[i + 3..i + 9] == "+00:00"
  }

  /** The pattern occurs somewhere in `ts`: a seconds field directly followed by a UTC offset. */
  ghost predicate HasSecondsOnlyUtc(ts: string)
  {
    exists i :: MatchesAt(ts, i)
  }

  /** The string ends in the UTC offset `+00:00`. */
  predicate EndsWithUtc(ts: string)
  {
    |ts| >= 6 && ts[|ts| - 6..] == "+00:00"
  }

  /** The leftmost occurrence of the pattern at or after `from`, as a regular-expression search finds it. */
  function FindPattern(ts: string, from: nat): (r: Option<nat>)
    ensures r.Some? ==> from <= r.value && MatchesAt(ts, r.value)
    ensures r.Some? ==> forall j :: from <= j < r.value ==> !MatchesAt(ts, j)
    ensures r.None? ==> forall j :: from <= j ==> !MatchesAt(ts, j)
    decreases |ts| - from
  {
    if from + 9 > |ts| then None
    else if MatchesAt(ts, from) then Some(from)
    else FindPattern(ts, from + 1)
  }

  /**
   A timestamp with whole seconds and a UTC offset gets a zero fraction, so that it
   fits `%Y-%m-%dT%H:%M:%S.%f+00:00`: its last six characters are replaced.
   */
  function RepairTimestamp(ts: string): (r: string)
    ensures HasSecondsOnlyUtc(ts) ==> |ts| >= 9 && r == ts[..|ts| - 6] + ".000+00:00"
    ensures !HasSecondsOnlyUtc(ts) ==> r == ts
    ensures EndsWithUtc(ts) ==> EndsWithUtc(r)
    ensures |ts| >= 6 ==> |r| >= |ts| - 6 && r[..|ts| - 6] == ts[..|ts| - 6]
  {
    match FindPattern(ts, 0)
    case Some(_) => ts[..|ts| - 6] + ".000+00:00"
    case None => ts
  }

  /** A timestamp whose one occurrence of the pattern is its tail is repaired once and for all. */
  lemma RepairSettles(ts: string)
    requires forall i :: MatchesAt(ts, i) ==> i == |ts| - 9
    ensures !HasSecondsOnlyUtc(RepairTimestamp(ts))
    ensures RepairTimestamp(RepairTimestamp(ts)) == RepairTimestamp(ts)
  {
    var r := RepairTimestamp(ts);
    if HasSecondsOnlyUtc(ts) {
      var n := |ts|;
      var tail := ".000+00:00";
      assert r == ts[..n - 6] + tail;
      assert forall k :: 0 <= k < n - 6 ==> r[k] == ts[k];
      assert forall k :: n - 6 <= k < |r| ==> r[k] == tail[k - (n - 6)];
      forall j | 0 <= j
        ensures !MatchesAt(r, j)
      {
        if j + 9 <= n - 6 {
          assert r[j + 3..j + 9] == ts[j + 3..j + 9];
          assert MatchesAt(r, j) ==> MatchesAt(ts, j);
        } else if j + 9 <= |r| {
          if j + 3 >= n - 6 {
            var k := j + 3 - (n - 6);
            assert 0 <= k <= 4 && r[j + 3] == tail[k];
            if k == 4 {
              assert r[j] == tail[1];
            }
          } else {
            assert r[j + 3..j + 9][n - 6 - (j + 3)] == r[n - 6] == '.';
          }
        }
      }
    }
  }

  /** A timestamp ending in whole seconds and the UTC offset gains a zero fraction before the offset. */
  lemma RepairAddsFraction(seconds: string)
    requires |seconds| >= 3 && seconds[|seconds| - 3] == ':'
    requires IsDigit(seconds[|seconds| - 2]) && IsDigit(seconds[|seconds| - 1])
    ensures RepairTimestamp(seconds + "+00:00") == seconds + ".000+00:00"
  {
    var ts := seconds + "+00:00";
    assert ts[..|seconds|] == seconds && ts[|seconds|..] == "+00:00";
    assert MatchesAt(ts, |seconds| - 3);
  }

  /**
   A UTC timestamp whose offset is the only `+` and is not preceded by `:` and two
   characters (it has a fraction, as in `12:34:56.123+00:00`) is left alone.
   */
  lemma RepairKeepsFraction(ts: string)
    requires |ts| >= 9 && EndsWithUtc(ts) && ts[|ts| - 9] != ':'
    requires forall k :: 0 <= k < |ts| - 6 ==> ts[k] != '+'
    ensures RepairTimestamp(ts) == ts
  {
    forall i | 0 <= i && i + 9 <= |ts|
      ensures !MatchesAt(ts, i)
    {
      assert ts[i + 3..i + 9][0] == ts[i + 3];
    }
  }

  // ---------------------------------------------------------------------------
  // Day keys

  /** Weekday abbreviations indexed by `date.weekday()` (Monday is 0). */
  const WEEK: seq<string> := ["Mon", "Tues", "Wed", "Thu", "Fri", "Sat", "Sun"]

  type Weekday = w: int | 0 <= w < 7

  /** A local calendar date: its ISO text `str(date)` and its weekday index. */
  datatype LocalDate = LocalDate(date: string, weekday: Weekday)

  /**
   Parsing a repaired timestamp and converting it to the local zone. `None` stands
   for the parse error the library raises when the text does not fit the format.
   */
  type Converter = string -> Option<LocalDate>

  /** The bucket key of a local date: the date, a space, the weekday abbreviation. */
  function DayKey(local: LocalDate): string
  {
    local.date + " " + WEEK[local.weekday]
  }

  /** The last space of a day key is the one after the date: no weekday abbreviation contains a space. */
  lemma DayKeyLastSpace(local: LocalDate)
    ensures var key := DayKey(local);
      && key[..|local.date|] == local.date
      && key[|local.date|] == ' '
      && key[|local.date| + 1..] in WEEK
      && forall k :: |local.date| < k < |key| ==> key[k] != ' '
  {
  }

  /** Distinct local dates get distinct keys. */
  lemma DayKeyInjective(x: LocalDate, y: LocalDate)
    ensures DayKey(x) == DayKey(y) <==> x == y
  {
    DayKeyLastSpace(x);
    DayKeyLastSpace(y);
    if DayKey(x) == DayKey(y) && |x.date| == |y.date| {
      var key := DayKey(x);
      assert WEEK[x.weekday] == key[|x.date| + 1..] == WEEK[y.weekday];
    }
  }

  // ---------------------------------------------------------------------------
  // Counting

  /** `date_data`: day key to per-author counts on that day. */
  type DateData = map<string, Counts>

  /** The three dictionaries of the pass: `date_data`, `author_counts`, `overall_author_dict`. */
  datatype Tallies = Tallies(dateData: DateData, authorCounts: Counts, overall: Counts)

  /** The counts of one day, empty when the day has no bucket (`date_data.get(day, {})`). */
  function Bucket(dateData: DateData, day: string): Counts
  {
    if day in dateData then dateData[day] else map[]
  }

  /** The counts of one author across all days. */
  function Column(dateData: DateData, author: string): Counts
  {
    map day | day in dateData :: Get(dateData[day], author)
  }

  /** The sum over all days of one author's per-day count, absent entries read as zero. */
  ghost function SumOverDays(dateData: DateData, author: string): int
  {
    Sum(Column(dateData, author))
  }

  /** Counting one qualifying message of `author` on `day`. */
  function Step(t: Tallies, day: string, author: string): Tallies
  {
    Tallies(t.dateData[day := Bump(Bucket(t.dateData, day), author)],
            Bump(t.authorCounts, author),
            Bump(t.overall, author))
  }

  /** The outcome of the pass: the tallies, or the timestamp the parser rejected. */
  datatype Outcome = Collected(tallies: Tallies) | ParseError(timestamp: string)

  /** The pass over `ms`, one message after the other; a parse error ends it. */
  function Collect(ms: seq<Message>, convert: Converter): Outcome
    decreases |ms|
  {
    if ms == [] then Collected(Tallies(map[], map[], map[]))
    else
      var m := ms[|ms| - 1];
      match Collect(ms[..|ms| - 1], convert)
      case ParseError(ts) => ParseError(ts)
      case Collected(t) =>
        if !Qualifies(m) then Collected(t)
        else
          var ts := RepairTimestamp(m.timestamp);
          match convert(ts)
          case None => ParseError(ts)
          case Some(local) => Collected(Step(t, DayKey(local), m.author.name))
  }

  /** The invariants the pass keeps after `n` qualifying messages. */
  ghost predicate Consistent(t: Tallies, n: int)
  {
    && t.authorCounts == t.overall
    && (forall day :: day in t.dateData ==> t.dateData[day] != map[])
    && (forall day, author :: day in t.dateData && author in t.dateData[day] ==> t.dateData[day][author] >= 1)
    && (forall author :: author in t.overall ==> t.overall[author] >= 1)
    && (forall author :: Get(t.overall, author) == SumOverDays(t.dateData, author))
    && Sum(t.overall) == n
  }

  /** Counting a message raises exactly one per-day entry and one total, by one. */
  lemma StepBumpsOne(t: Tallies, day: string, author: string)
    ensures var s := Step(t, day, author);
      && s.dateData.Keys == t.dateData.Keys + {day}
      && Get(Bucket(s.dateData, day), author) == Get(Bucket(t.dateData, day), author) + 1
      && (forall d, a :: (d != day || a != author) ==> Get(Bucket(s.dateData, d), a) == Get(Bucket(t.dateData, d), a))
      && Get(s.overall, author) == Get(t.overall, author) + 1
      && (forall a :: a != author ==> Get(s.overall, a) == Get(t.overall, a))
      && (forall a :: a in Bucket(t.dateData, day) ==> a in Bucket(s.dateData, day))
  {
  }

  /** A day's bucket is only (re)created when the day has none: every existing bucket is non-empty. */
  lemma ResetOnlyWhenAbsent(t: Tallies, n: int, day: string)
    requires Consistent(t, n)
    ensures Bucket(t.dateData, day) == map[] <==> day !in t.dateData
  {
  }

  /** The per-day column of one author after a step: only the stepped day moves. */
  lemma ColumnAfterStep(t: Tallies, day: string, author: string, a: string)
    ensures SumOverDays(Step(t, day, author).dateData, a)
         == SumOverDays(t.dateData, a) + (if a == author then 1 else 0)
  {
    var dd := t.dateData;
    var bucket := Bump(Bucket(dd, day), author);
    var dd' := dd[day := bucket];
    assert Column(dd', a) == Column(dd, a)[day := Get(bucket, a)];
    SumUpdate(Column(dd, a), day, Get(bucket, a));
    assert Get(Column(dd, a), day) == Get(Bucket(dd, day), a);
  }

  /** Counting one message keeps the invariants and raises the grand total by one. */
  lemma StepConsistent(t: Tallies, n: int, day: string, author: string)
    requires Consistent(t, n)
    ensures Consistent(Step(t, day, author), n + 1)
  {
    var s := Step(t, day, author);
    forall a
      ensures Get(s.overall, a) == SumOverDays(s.dateData, a)
    {
      ColumnAfterStep(t, day, author, a);
    }
    SumUpdate(t.overall, author, Get(t.overall, author) + 1);
  }

  /** A member-join notice or a bot message changes nothing. */
  lemma CollectSkips(ms: seq<Message>, m: Message, convert: Converter)
    requires !Qualifies(m)
    ensures Collect(ms + [m], convert) == Collect(ms, convert)
  {
  }

  /** A counted message whose timestamp parses is one `Step` on its day key and author. */
  lemma CollectCounts(ms: seq<Message>, m: Message, convert: Converter, local: LocalDate)
    requires Qualifies(m)
    requires convert(RepairTimestamp(m.timestamp)) == Some(local)
    ensures Collect(ms + [m], convert)
         == match Collect(ms, convert)
            case Collected(t) => Collected(Step(t, DayKey(local), m.author.name))
            case ParseError(ts) => ParseError(ts)
  {
  }

  /** Every completed pass is consistent, with a grand total equal to the number of counted messages. */
  lemma {:induction false} CollectConsistent(ms: seq<Message>, convert: Converter)
    requires Collect(ms, convert).Collected?
    ensures Consistent(Collect(ms, convert).tallies, |Qualifying(ms)|)
    decreases |ms|
  {
    if ms == [] {
      assert Column(map[], "") == map[];
      forall author
        ensures Get(map[], author) == SumOverDays(map[], author)
      {
        assert Column(map[], author) == map[];
      }
    } else {
      var init := ms[..|ms| - 1];
      var m := ms[|ms| - 1];
      CollectConsistent(init, convert);
      if Qualifies(m) {
        var local := convert(RepairTimestamp(m.timestamp)).value;
        StepConsistent(Collect(init, convert).tallies, |Qualifying(init)|, DayKey(local), m.author.name);
      }
    }
  }

  // ---------------------------------------------------------------------------
  // Reference counts, written independently of the pass

  /** The number of counted messages of `author`. */
  function AuthorTotal(ms: seq<Message>, author: string): nat
    decreases |ms|
  {
    if ms == [] then 0
    else
      var m := ms[|ms| - 1];
      AuthorTotal(ms[..|ms| - 1], author) + (if Qualifies(m) && m.author.name == author then 1 else 0)
  }

  /** The day key a counted message lands in, if its timestamp parses. */
  function DayOf(m: Message, convert: Converter): Option<string>
  {
    match convert(RepairTimestamp(m.timestamp))
    case None => None
    case Some(local) => Some(DayKey(local))
  }

  /** The number of counted messages of `author` on `day`. */
  function DayAuthorTotal(ms: seq<Message>, convert: Converter, day: string, author: string): nat
    decreases |ms|
  {
    if ms == [] then 0
    else
      var m := ms[|ms| - 1];
      DayAuthorTotal(ms[..|ms| - 1], convert, day, author)
        + (if Qualifies(m) && m.author.name == author && DayOf(m, convert) == Some(day) then 1 else 0)
  }

  /** The number of counted messages on `day`. */
  function DayTotal(ms: seq<Message>, convert: Converter, day: string): nat
    decreases |ms|
  {
    if ms == [] then 0
    else
      var m := ms[|ms| - 1];
      DayTotal(ms[..|ms| - 1], convert, day) + (if Qualifies(m) && DayOf(m, convert) == Some(day) then 1 else 0)
  }

  /** A message the pass cannot parse: it is counted and its repaired timestamp is rejected. */
  predicate Unparsable(m: Message, convert: Converter)
  {
    Qualifies(m) && convert(RepairTimestamp(m.timestamp)).None?
  }

  /** Every count the pass produces is the number of counted messages it stands for. */
  lemma {:induction false} CollectMatchesReference(ms: seq<Message>, convert: Converter)
    requires Collect(ms, convert).Collected?
    ensures var t := Collect(ms, convert).tallies;
      && (forall author :: Get(t.overall, author) == AuthorTotal(ms, author))
      && (forall day, author :: Get(Bucket(t.dateData, day), author) == DayAuthorTotal(ms, convert, day, author))
      && (forall day :: day in t.dateData <==> DayTotal(ms, convert, day) > 0)
    decreases |ms|
  {
    if ms != [] {
      var init := ms[..|ms| - 1];
      CollectMatchesReference(init, convert);
    }
  }

  /** The pass fails exactly when a counted message's timestamp does not parse, and reports the first. */
  lemma {:induction false} CollectFails(ms: seq<Message>, convert: Converter)
    ensures Collect(ms, convert).ParseError? <==> exists i :: 0 <= i < |ms| && Unparsable(ms[i], convert)
    ensures Collect(ms, convert).ParseError? ==>
      exists i :: 0 <= i < |ms| && Unparsable(ms[i], convert)
        && (forall j :: 0 <= j < i ==> !Unparsable(ms[j], convert))
        && Collect(ms, convert).timestamp == RepairTimestamp(ms[i].timestamp)
    decreases |ms|
  {
    if ms != [] {
      var init := ms[..|ms| - 1];
      CollectFails(init, convert);
      assert forall i :: 0 <= i < |init| ==> ms[i] == init[i];
    }
  }

  /**
   What a pass over `ms` promises: on success the tallies are consistent and equal
   to the reference counts; it fails exactly when a counted timestamp does not parse.
   */
  ghost predicate Promised(ms: seq<Message>, convert: Converter, r: Outcome)
  {
    && (r.Collected? ==> Consistent(r.tallies, |Qualifying(ms)|))
    && (r.Collected? ==> forall author :: Get(r.tallies.overall, author) == AuthorTotal(ms, author))
    && (r.Collected? ==> forall day, author ::
          Get(Bucket(r.tallies.dateData, day), author) == DayAuthorTotal(ms, convert, day, author))
    && (r.ParseError? <==> exists i :: 0 <= i < |ms| && Unparsable(ms[i], convert))
  }

  /** Every pass keeps its promises, gathered from the lemmas above. */
  lemma CollectSummary(ms: seq<Message>, convert: Converter)
    ensures Promised(ms, convert, Collect(ms, convert))
  {
    if Collect(ms, convert).Collected? {
      CollectConsistent(ms, convert);
      CollectMatchesReference(ms, convert);
    }
    CollectFails(ms, convert);
  }

  /** Once a prefix has failed, the whole pass reports that failure. */
  lemma {:induction false} ErrorPersists(ms: seq<Message>, k: nat, convert: Converter)
    requires k <= |ms|
    requires Collect(ms[..k], convert).ParseError?
    ensures Collect(ms, convert) == Collect(ms[..k], convert)
    decreases |ms| - k
  {
    if k < |ms| {
      assert ms[..k + 1][..k] == ms[..k];
      ErrorPersists(ms, k + 1, convert);
    } else {
      assert ms[..k] == ms;
    }
  }

  // ---------------------------------------------------------------------------
  // The loop of collect_data_from_json

  /**
   The message loop: skips member-join notices and bot messages, repairs the
   timestamp, builds the local day key and raises the three counters; a timestamp
   the parser rejects ends the pass with that error.
   */
  method CollectDataFromJson(messages: seq<Message>, convert: Converter) returns (r: Outcome)
    ensures r == Collect(messages, convert)
    ensures Promised(messages, convert, r)
  {
    var overallAuthorDict: Counts := map[];
    var dateData: DateData := map[];
    var authorCounts: Counts := map[];
    for i := 0 to |messages|
      invariant Collect(messages[..i], convert) == Collected(Tallies(dateData, authorCounts, overallAuthorDict))
    {
      var m := messages[i];
      ghost var before := Tallies(dateData, authorCounts, overallAuthorDict);
      assert messages[..i + 1] == messages[..i] + [m];
      if m.kind == MemberJoin {
        CollectSkips(messages[..i], m, convert);
        continue;
      }
      if m.author.isBot {
        CollectSkips(messages[..i], m, convert);
        continue;
      }
      var timestamp := RepairTimestamp(m.timestamp);
      var parsed := convert(timestamp);
      if parsed.None? {
        assert messages[..i + 1][..i] == messages[..i];
        ErrorPersists(messages, i + 1, convert);
        CollectSummary(messages, convert);
        return ParseError(timestamp);
      }
      var local := parsed.value;
      var weekday := WEEK[local.weekday];
      var day := local.date + " " + weekday;
      assert day == DayKey(local);

      var author := m.author.name;
      authorCounts := authorCounts[author := Get(authorCounts, author) + 1];
      var authorDict := if day in dateData then dateData[day] else map[];
      if authorDict == map[] {
        dateData := dateData[day := map[]];
      }
      assert dateData[day] == Bucket(before.dateData, day);
      dateData := dateData[day := dateData[day][author := Get(dateData[day], author) + 1]];
      assert dateData == before.dateData[day := Bump(Bucket(before.dateData, day), author)];

      var authorCount := Get(overallAuthorDict, author);
      overallAuthorDict := overallAuthorDict[author := authorCount + 1];
      assert Tallies(dateData, authorCounts, overallAuthorDict) == Step(before, day, author);
      CollectCounts(messages[..i], m, convert, local);
    }
    assert messages[..|messages|] == messages;
    r := Collected(Tallies(dateData, authorCounts, overallAuthorDict));
    CollectSummary(messages, convert);
  }
}
