/**
 * Usage statistics (src/stats.rs): recovering cumulative counters from the
 * search log, merging them with the stored counters, and the update one
 * search makes. Reading and writing files, JSON (de)serialisation and the
 * lock are left to the caller: file contents arrive as `Option` values and
 * parsing one log line is a function parameter.
 */
module Stats {
  import opened Common
  import opened Text

  const U64_MAX: nat := U64_LIMIT - 1

  /** `u64::saturating_add`. */
  function SatAdd(a: nat, b: nat): (r: nat)
    ensures r == Min(a + b, U64_MAX)
  {
    if a + b > U64_MAX then U64_MAX else a + b
  }

  /** `u64::saturating_mul` by 4. */
  function SatTimes4(a: nat): (r: nat)
    ensures r == Min(4 * a, U64_MAX)
  {
    if 4 * a > U64_MAX then U64_MAX else 4 * a
  }

  datatype Stats = Stats(
    totalSearches: nat,
    lastSearchAt: Option<string>,
    totalOutputChars: nat,
    totalEstimatedTokens: nat)

  const Default := Stats(0, None, 0, 0)

  // ── Recovering counters from the search log ───────────────────────────────

  /** The fields of one log line that recovery reads; each may be absent. */
  datatype LogEntry = LogEntry(ts: Option<string>, tokens: Option<nat>, outcome: Option<string>)

  /** Legacy entries carry no outcome and were successes; only `success` counts otherwise. */
  predicate Counts(e: LogEntry)
  {
    e.outcome.None? || e.outcome.value == "success"
  }

  /** The entries of the log's lines: blank lines and lines that do not parse are skipped. */
  function Entries(lines: seq<string>, parse: string -> Option<LogEntry>): seq<LogEntry>
  {
    if |lines| == 0 then []
    else
      var init := Entries(lines[..|lines| - 1], parse);
      var t := Trim(lines[|lines| - 1]);
      if |t| == 0 || parse(t).None? then init else init + [parse(t).value]
  }

  /** The entries that count, in log order. */
  function Counted(es: seq<LogEntry>): seq<LogEntry>
  {
    Filter(es, Counts)
  }

  function TokensOf(e: LogEntry): nat
  {
    if e.tokens.Some? then e.tokens.value else 0
  }

  /** Unbounded sum of the tokens. */
  function SumTokens(es: seq<LogEntry>): nat
  {
    if |es| == 0 then 0 else SumTokens(es[..|es| - 1]) + TokensOf(es[|es| - 1])
  }

  /** The timestamp of the last entry that has one. */
  function LastTs(es: seq<LogEntry>): Option<string>
  {
    if |es| == 0 then None
    else if es[|es| - 1].ts.Some? then es[|es| - 1].ts
    else LastTs(es[..|es| - 1])
  }

  /** `LastTs` is absent only when no entry has a stamp, and otherwise is a stamp no later entry overrides. */
  lemma {:induction false} LastTsIsLast(es: seq<LogEntry>)
    ensures LastTs(es).Some? <==> exists k :: 0 <= k < |es| && es[k].ts.Some?
    ensures LastTs(es).Some? ==> exists k :: 0 <= k < |es| && es[k].ts == LastTs(es) &&
                                   forall j :: k < j < |es| ==> es[j].ts.None?
  {
    if |es| > 0 && es[|es| - 1].ts.None? {
      var init := es[..|es| - 1];
      LastTsIsLast(init);
      assert forall k :: 0 <= k < |init| ==> init[k] == es[k];
      if LastTs(es).Some? {
        var k :| 0 <= k < |init| && init[k].ts == LastTs(init) && forall j :: k < j < |init| ==> init[j].ts.None?;
        assert es[k].ts == LastTs(es);
      }
    }
  }

  /**
   * What recovery yields, in closed form: nothing when no entry counts;
   * otherwise the number of counted entries, their token sum and four times
   * that sum, each capped at `u64::MAX`, and the last timestamp among them.
   */
  function Recovered(es: seq<LogEntry>): Option<Stats>
  {
    var c := Counted(es);
    if |c| == 0 then None
    else Some(Stats(Min(|c|, U64_MAX), LastTs(c), Min(4 * SumTokens(c), U64_MAX), Min(SumTokens(c), U64_MAX)))
  }

  /** One loop step: the counters after a counted entry. */
  function Step(s: Stats, e: LogEntry): Stats
  {
    var tokens := s.totalEstimatedTokens;
    var chars := s.totalOutputChars;
    Stats(SatAdd(s.totalSearches, 1),
          if e.ts.Some? then e.ts else s.lastSearchAt,
          if e.tokens.Some? then SatAdd(chars, SatTimes4(e.tokens.value)) else chars,
          if e.tokens.Some? then SatAdd(tokens, e.tokens.value) else tokens)
  }

  /**
   * `recover_stats_from_search_log`: walks the log's lines in order and
   * folds the counted entries into saturating counters.
   */
  method RecoverFromSearchLog(content: Option<string>, parse: string -> Option<LogEntry>)
    returns (r: Option<Stats>)
    ensures content.None? ==> r.None?
    ensures content.Some? ==> r == Recovered(Entries(Lines(content.value), parse))
  {
    if content.None? {
      return None;
    }
    var lines := Lines(content.value);
    var stats := Default;
    var hasSuccess := false;
    var i := 0;
    while i < |lines|
      invariant 0 <= i <= |lines|
      invariant Kept(Entries(lines[..i], parse), stats, hasSuccess)
    {
      stats, hasSuccess := ScanLine(lines, i, parse, stats, hasSuccess);
      i := i + 1;
    }
    assert lines[..|lines|] == lines;
    r := if hasSuccess then Some(stats) else None;
  }

  /** One line of the log: a counted entry advances the counters; any other line leaves them. */
  method ScanLine(lines: seq<string>, i: nat, parse: string -> Option<LogEntry>, stats: Stats, hasSuccess: bool)
    returns (next: Stats, nextHasSuccess: bool)
    requires i < |lines|
    requires Kept(Entries(lines[..i], parse), stats, hasSuccess)
    ensures Kept(Entries(lines[..i + 1], parse), next, nextHasSuccess)
  {
    next, nextHasSuccess := stats, hasSuccess;
    var trimmed := Trim(lines[i]);
    var parsed := if |trimmed| > 0 then parse(trimmed) else None;
    if parsed.Some? && Counts(parsed.value) {
      CountedLine(lines, i, parse, stats, hasSuccess);
      next, nextHasSuccess := Step(stats, parsed.value), true;
    } else {
      SkippedLine(lines, i, parse, stats, hasSuccess);
    }
  }

  /** The loop invariant: the counters so far are the closed form of the entries so far. */
  predicate Kept(es: seq<LogEntry>, s: Stats, started: bool)
  {
    (started <==> |Counted(es)| > 0) &&
    (started ==> Some(s) == Recovered(es)) &&
    (!started ==> s == Default)
  }

  /** A line holding a counted entry advances the counters by one step. */
  lemma CountedLine(lines: seq<string>, i: nat, parse: string -> Option<LogEntry>, s: Stats, started: bool)
    requires i < |lines|
    requires |Trim(lines[i])| > 0 && parse(Trim(lines[i])).Some? && Counts(parse(Trim(lines[i])).value)
    requires Kept(Entries(lines[..i], parse), s, started)
    ensures Kept(Entries(lines[..i + 1], parse), Step(s, parse(Trim(lines[i])).value), true)
  {
    EntriesStep(lines, i, parse);
    StepRecovered(Entries(lines[..i], parse), parse(Trim(lines[i])).value, s, started);
  }

  /** A blank line, a line that does not parse or an entry that does not count changes nothing. */
  lemma SkippedLine(lines: seq<string>, i: nat, parse: string -> Option<LogEntry>, s: Stats, started: bool)
    requires i < |lines|
    requires |Trim(lines[i])| == 0 || parse(Trim(lines[i])).None? || !Counts(parse(Trim(lines[i])).value)
    requires Kept(Entries(lines[..i], parse), s, started)
    ensures Kept(Entries(lines[..i + 1], parse), s, started)
  {
    EntriesStep(lines, i, parse);
    var t := Trim(lines[i]);
    if |t| > 0 && parse(t).Some? {
      CountedSkips(Entries(lines[..i], parse), parse(t).value);
    }
  }

  lemma EntriesStep(lines: seq<string>, i: nat, parse: string -> Option<LogEntry>)
    requires i < |lines|
    ensures var t := Trim(lines[i]);
            Entries(lines[..i + 1], parse) ==
              if |t| == 0 || parse(t).None? then Entries(lines[..i], parse)
              else Entries(lines[..i], parse) + [parse(t).value]
  {
    assert lines[..i + 1][..i] == lines[..i];
  }

  /** An entry that does not count leaves the counted entries alone. */
  lemma CountedSkips(es: seq<LogEntry>, e: LogEntry)
    requires !Counts(e)
    ensures Counted(es + [e]) == Counted(es)
    ensures Recovered(es + [e]) == Recovered(es)
  {
    FilterAppend(es, [e], Counts);
    assert Filter([e], Counts) == [];
  }

  /** The loop step keeps the counters equal to the closed form. */
  lemma StepRecovered(es: seq<LogEntry>, e: LogEntry, s: Stats, started: bool)
    requires Counts(e)
    requires Kept(es, s, started)
    ensures Kept(es + [e], Step(s, e), true)
  {
    var c := Counted(es);
    CountedAppend(es, e);
    SnocFacts(c, e);
    if started {
      SatSteps(|c|, SumTokens(c), TokensOf(e));
    } else {
      assert c == [];
      SatSteps(0, 0, TokensOf(e));
    }
  }

  lemma CountedAppend(es: seq<LogEntry>, e: LogEntry)
    requires Counts(e)
    ensures Counted(es + [e]) == Counted(es) + [e]
  {
    FilterAppend(es, [e], Counts);
    assert Filter([e], Counts) == [e];
  }

  lemma SnocFacts(c: seq<LogEntry>, e: LogEntry)
    ensures SumTokens(c + [e]) == SumTokens(c) + TokensOf(e)
    ensures LastTs(c + [e]) == if e.ts.Some? then e.ts else LastTs(c)
  {
    assert (c + [e])[..|c|] == c;
  }

  /** Saturating steps keep the capped totals. */
  lemma SatSteps(n: nat, sum: nat, t: nat)
    ensures SatAdd(Min(n, U64_MAX), 1) == Min(n + 1, U64_MAX)
    ensures SatAdd(Min(sum, U64_MAX), t) == Min(sum + t, U64_MAX)
    ensures SatAdd(Min(4 * sum, U64_MAX), SatTimes4(t)) == Min(4 * (sum + t), U64_MAX)
  {
  }

  /** Recovery yields nothing exactly when no entry counts. */
  lemma RecoveredNoneIff(es: seq<LogEntry>)
    ensures Recovered(es).None? <==> forall k :: 0 <= k < |es| ==> !Counts(es[k])
  {
    if forall k :: 0 <= k < |es| ==> !Counts(es[k]) {
      FilterKeepsNone(es, Counts);
    } else {
      var k :| 0 <= k < |es| && Counts(es[k]);
      assert es[k] in Counted(es);
    }
  }

  /** Only counted entries matter: dropping the others changes nothing. */
  lemma OnlyCountedMatter(es: seq<LogEntry>)
    ensures Recovered(Counted(es)) == Recovered(es)
  {
    FilterIdempotent(es, Counts);
  }

  /** Output characters are four times the tokens, as long as neither counter saturates. */
  lemma CharsAreFourTimesTokens(es: seq<LogEntry>)
    requires Recovered(es).Some?
    ensures var s := Recovered(es).value;
            s.totalOutputChars == Min(4 * s.totalEstimatedTokens, U64_MAX)
  {
  }

  /** `read_stats_recovers_only_success_entries_from_v2_log`: a success, a no-result search and an error count as one search. */
  lemma OnlySuccessCounted(ts1: string, ts2: string, ts3: string)
    ensures Recovered([LogEntry(Some(ts1), Some(100), Some("success")),
                       LogEntry(Some(ts2), Some(10), Some("no_results")),
                       LogEntry(Some(ts3), Some(0), Some("error"))])
            == Some(Stats(1, Some(ts1), 400, 100))
  {
    var a := LogEntry(Some(ts1), Some(100), Some("success"));
    var b := LogEntry(Some(ts2), Some(10), Some("no_results"));
    var c := LogEntry(Some(ts3), Some(0), Some("error"));
    assert !Counts(b) && !Counts(c);
    assert [a, b, c] == [a] + [b] + [c];
    CountedSkips([a] + [b], c);
    CountedSkips([a], b);
    assert Counted([a]) == [a];
    assert SumTokens([a]) == 100 by {
      assert [a][..0] == [];
    }
  }

  /** Two legacy entries without outcomes both count; the later timestamp wins. */
  lemma LegacyEntriesCount(ts1: string, ts2: string)
    ensures Recovered([LogEntry(Some(ts1), Some(100), None), LogEntry(Some(ts2), Some(50), None)])
            == Some(Stats(2, Some(ts2), 600, 150))
  {
    var a := LogEntry(Some(ts1), Some(100), None);
    var b := LogEntry(Some(ts2), Some(50), None);
    FilterKeepsAll([a, b], Counts);
    assert [a, b][..1] == [a];
    assert [a][..0] == [];
    assert SumTokens([a]) == 100;
    assert SumTokens([a, b]) == 150;
    assert LastTs([a, b]) == Some(ts2);
  }

  // ── Merging and reading ───────────────────────────────────────────────────

  /** Lexicographic `<=` on strings, character by character (Rust's `String` order). */
  predicate LexLe(a: string, b: string)
  {
    |a| == 0 || (|b| > 0 && (a[0] < b[0] || (a[0] == b[0] && LexLe(a[1..], b[1..]))))
  }

  lemma {:induction false} LexLeRefl(a: string)
    ensures LexLe(a, a)
  {
    if |a| > 0 {
      LexLeRefl(a[1..]);
    }
  }

  /** Any two strings are ordered one way or the other. */
  lemma {:induction false} LexLeTotal(a: string, b: string)
    ensures LexLe(a, b) || LexLe(b, a)
  {
    if |a| > 0 && |b| > 0 && a[0] == b[0] {
      LexLeTotal(a[1..], b[1..]);
    }
  }

  /** Strings ordered both ways are equal. */
  lemma {:induction false} LexLeAntisym(a: string, b: string)
    ensures LexLe(a, b) && LexLe(b, a) ==> a == b
  {
    if |a| > 0 && |b| > 0 {
      LexLeAntisym(a[1..], b[1..]);
      assert a == [a[0]] + a[1..];
      assert b == [b[0]] + b[1..];
    }
  }

  /** `latest_timestamp`: the lexicographically greater of two optional stamps. */
  function LatestTimestamp(a: Option<string>, b: Option<string>): (r: Option<string>)
    ensures r == a || r == b
    ensures r.None? <==> a.None? && b.None?
  {
    match (a, b)
    case (Some(x), Some(y)) => if LexLe(y, x) then Some(x) else Some(y)
    case (Some(x), None) => Some(x)
    case (None, Some(y)) => Some(y)
    case (None, None) => None
  }

  /** The latest stamp is no smaller than either input. */
  lemma LatestIsMax(a: Option<string>, b: Option<string>)
    ensures a.Some? ==> LexLe(a.value, LatestTimestamp(a, b).value)
    ensures b.Some? ==> LexLe(b.value, LatestTimestamp(a, b).value)
  {
    if a.Some? {
      LexLeRefl(a.value);
    }
    if b.Some? {
      LexLeRefl(b.value);
    }
    if a.Some? && b.Some? {
      LexLeTotal(a.value, b.value);
    }
  }

  /** The order of the arguments does not matter. */
  lemma LatestCommutes(a: Option<string>, b: Option<string>)
    ensures LatestTimestamp(a, b) == LatestTimestamp(b, a)
  {
    if a.Some? && b.Some? {
      LexLeTotal(a.value, b.value);
      LexLeAntisym(a.value, b.value);
    }
  }

  /**
   * `merge_cumulative_stats`: the field-wise maximum; every merged counter is
   * at least both inputs' counter and equals one of them.
   */
  function Merge(f: Stats, l: Stats): (m: Stats)
    ensures m.totalSearches >= f.totalSearches && m.totalSearches >= l.totalSearches
    ensures m.totalSearches == f.totalSearches || m.totalSearches == l.totalSearches
    ensures m.totalOutputChars >= f.totalOutputChars && m.totalOutputChars >= l.totalOutputChars
    ensures m.totalOutputChars == f.totalOutputChars || m.totalOutputChars == l.totalOutputChars
    ensures m.totalEstimatedTokens >= f.totalEstimatedTokens && m.totalEstimatedTokens >= l.totalEstimatedTokens
    ensures m.totalEstimatedTokens == f.totalEstimatedTokens || m.totalEstimatedTokens == l.totalEstimatedTokens
    ensures m.lastSearchAt == f.lastSearchAt || m.lastSearchAt == l.lastSearchAt
  {
    Stats(Max(f.totalSearches, l.totalSearches),
          LatestTimestamp(f.lastSearchAt, l.lastSearchAt),
          Max(f.totalOutputChars, l.totalOutputChars),
          Max(f.totalEstimatedTokens, l.totalEstimatedTokens))
  }

  /** Merging is symmetric and merging a value with itself returns it. */
  lemma MergeCommutesIdem(f: Stats, l: Stats)
    ensures Merge(f, l) == Merge(l, f)
    ensures Merge(f, f) == f
  {
    LatestCommutes(f.lastSearchAt, l.lastSearchAt);
    if f.lastSearchAt.Some? {
      LexLeRefl(f.lastSearchAt.value);
    }
  }

  /**
   * `read_stats`: the stored counters, the recovered ones, their merge, or the
   * defaults; each counter read is the largest among the present sources.
   */
  function ReadStats(fromFile: Option<Stats>, fromLog: Option<Stats>): (r: Stats)
    ensures fromFile.None? && fromLog.None? ==> r == Default
    ensures fromFile.Some? && fromLog.None? ==> r == fromFile.value
    ensures fromFile.None? && fromLog.Some? ==> r == fromLog.value
    ensures fromFile.Some? && fromLog.Some? ==>
              (r.totalSearches == fromFile.value.totalSearches || r.totalSearches == fromLog.value.totalSearches)
              && (r.totalOutputChars == fromFile.value.totalOutputChars || r.totalOutputChars == fromLog.value.totalOutputChars)
              && (r.totalEstimatedTokens == fromFile.value.totalEstimatedTokens
                  || r.totalEstimatedTokens == fromLog.value.totalEstimatedTokens)
              && (r.lastSearchAt == fromFile.value.lastSearchAt || r.lastSearchAt == fromLog.value.lastSearchAt)
    ensures fromFile.Some? ==> r.totalSearches >= fromFile.value.totalSearches
    ensures fromLog.Some? ==> r.totalSearches >= fromLog.value.totalSearches
    ensures fromFile.Some? ==> r.totalEstimatedTokens >= fromFile.value.totalEstimatedTokens
    ensures fromLog.Some? ==> r.totalEstimatedTokens >= fromLog.value.totalEstimatedTokens
    ensures fromFile.Some? ==> r.totalOutputChars >= fromFile.value.totalOutputChars
    ensures fromLog.Some? ==> r.totalOutputChars >= fromLog.value.totalOutputChars
  {
    match (fromFile, fromLog)
    case (Some(f), Some(l)) => Merge(f, l)
    case (Some(f), None) => f
    case (None, Some(l)) => l
    case (None, None) => Default
  }

  /** `read_stats_uses_higher_cumulative_totals_from_log`: a log holding more than the stored file wins field by field. */
  lemma LogOutweighsResetFile(stamp: string, later: string)
    requires LexLe(stamp, later) && stamp != later
    ensures ReadStats(Some(Stats(11, Some(stamp), 5793, 1444)),
                      Recovered([LogEntry(Some(later), Some(50000), Some("success"))]))
            == Stats(11, Some(later), 200000, 50000)
  {
    var e := LogEntry(Some(later), Some(50000), Some("success"));
    FilterKeepsAll([e], Counts);
    assert [e][..0] == [];
    assert SumTokens([e]) == 50000;
    assert Recovered([e]) == Some(Stats(1, Some(later), 200000, 50000));
    LexLeAntisym(stamp, later);
  }

  // ── Recording a search ────────────────────────────────────────────────────

  /**
   * The update of `record_search_inner`: one more search, the output's
   * characters, and a quarter of them (rounded down) as tokens.
   */
  function RecordSearch(s: Stats, outputChars: nat, now: string): (r: Stats)
    requires s.totalSearches < U64_MAX
    requires s.totalOutputChars + outputChars <= U64_MAX
    requires s.totalEstimatedTokens + outputChars / 4 <= U64_MAX
    ensures r.totalSearches <= U64_MAX && r.totalOutputChars <= U64_MAX && r.totalEstimatedTokens <= U64_MAX
    ensures r.totalSearches == s.totalSearches + 1 && r.lastSearchAt == Some(now)
    ensures r.totalOutputChars - s.totalOutputChars == outputChars
    ensures var added := r.totalEstimatedTokens - s.totalEstimatedTokens;
            0 <= 4 * added <= outputChars < 4 * added + 4
  {
    Stats(s.totalSearches + 1, Some(now), s.totalOutputChars + outputChars,
          s.totalEstimatedTokens + outputChars / 4)
  }

  /** A run of searches, each with its output size and clock reading, from `s`. */
  function RecordAll(s: Stats, calls: seq<(nat, string)>): Stats
  {
    if |calls| == 0 then s
    else
      var prior := RecordAll(s, calls[..|calls| - 1]);
      var (chars, now) := calls[|calls| - 1];
      if prior.totalSearches < U64_MAX && prior.totalOutputChars + chars <= U64_MAX
         && prior.totalEstimatedTokens + chars / 4 <= U64_MAX
      then RecordSearch(prior, chars, now)
      else prior
  }

  function SumChars(calls: seq<(nat, string)>): nat
  {
    if |calls| == 0 then 0 else SumChars(calls[..|calls| - 1]) + calls[|calls| - 1].0
  }

  function SumQuarters(calls: seq<(nat, string)>): nat
  {
    if |calls| == 0 then 0 else SumQuarters(calls[..|calls| - 1]) + calls[|calls| - 1].0 / 4
  }

  /**
   * While nothing overflows, recorded searches add up: the count of calls,
   * the sum of their sizes, the sum of their quarters, and the last clock reading.
   */
  lemma {:induction false} RecordAllTotals(s: Stats, calls: seq<(nat, string)>)
    requires s.totalSearches + |calls| <= U64_MAX
    requires s.totalOutputChars + SumChars(calls) <= U64_MAX
    requires s.totalEstimatedTokens + SumQuarters(calls) <= U64_MAX
    ensures var r := RecordAll(s, calls);
            r.totalSearches == s.totalSearches + |calls| &&
            r.totalOutputChars == s.totalOutputChars + SumChars(calls) &&
            r.totalEstimatedTokens == s.totalEstimatedTokens + SumQuarters(calls) &&
            r.lastSearchAt == (if |calls| == 0 then s.lastSearchAt else Some(calls[|calls| - 1].1))
  {
    if |calls| > 0 {
      RecordAllTotals(s, calls[..|calls| - 1]);
    }
  }

  /** `record_and_read_round_trip`: 400 then 200 characters make 2 searches, 600 characters, 150 tokens. */
  lemma RecordTwice(now1: string, now2: string)
    ensures var s1 := RecordSearch(ReadStats(None, None), 400, now1);
            var s2 := RecordSearch(ReadStats(Some(s1), None), 200, now2);
            s2 == Stats(2, Some(now2), 600, 150)
  {
  }
}
