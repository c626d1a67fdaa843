/**
 * The pure parts of index writing (src/indexer/writer.rs): the UTC timestamp
 * rendering of epoch seconds, the schema-version gate of `open_index`, the
 * `.gitignore` entry recogniser and the two symbol fields of a document.
 */
module Writer {
  import opened Common
  import opened Text

  // ── Schema gate ───────────────────────────────────────────────────────────

  /** The schema version this build writes and accepts. */
  const SCHEMA_VERSION: nat := 2

  /** The fields of `.ns/meta.json`. */
  datatype IndexMeta = IndexMeta(schemaVersion: nat, indexedAt: string, gitCommit: Option<string>,
                                 fileCount: nat, indexSizeBytes: nat)

  /** The error `open_index` reports for an index written under another schema. */
  datatype NsError = SchemaVersionMismatch(found: nat, expected: nat)

  datatype Result<T> = Ok(value: T) | Err(error: NsError)

  /** The version gate of `open_index`, applied to the metadata read from disk. */
  function CheckSchema(meta: IndexMeta): (r: Result<IndexMeta>)
    ensures r.Err? <==> meta.schemaVersion != SCHEMA_VERSION
    ensures r.Err? ==> r.error.found == meta.schemaVersion && r.error.expected == SCHEMA_VERSION
    ensures r.Ok? ==> r.value == meta
  {
    if meta.schemaVersion != SCHEMA_VERSION then
      Err(SchemaVersionMismatch(meta.schemaVersion, SCHEMA_VERSION))
    else Ok(meta)
  }

  /** Metadata written by this build always passes the gate; any other version never does. */
  lemma SchemaGate(meta: IndexMeta, v: nat)
    ensures CheckSchema(meta.(schemaVersion := SCHEMA_VERSION)) == Ok(meta.(schemaVersion := SCHEMA_VERSION))
    ensures v != SCHEMA_VERSION ==> CheckSchema(meta.(schemaVersion := v)) == Err(SchemaVersionMismatch(v, 2))
  {
  }

  // ── Timestamps ────────────────────────────────────────────────────────────

  const SECONDS_PER_DAY: nat := 86400

  /** Whole days since the epoch and the time of day. */
  datatype Clock = Clock(days: nat, hours: nat, minutes: nat, seconds: nat)

  /** A proleptic Gregorian calendar date. */
  datatype Civil = Civil(year: nat, month: nat, day: nat)

  /** Breaks epoch seconds into days and a time of day. */
  function SplitSeconds(secs: nat): (c: Clock)
    ensures c.hours < 24 && c.minutes < 60 && c.seconds < 60
    ensures c.days * SECONDS_PER_DAY + c.hours * 3600 + c.minutes * 60 + c.seconds == secs
  {
    var tod := secs % SECONDS_PER_DAY;
    Clock(secs / SECONDS_PER_DAY, tod / 3600, (tod % 3600) / 60, tod % 60)
  }

  /**
   * Bounds of the year-of-era step of the civil-from-days algorithm: a day of
   * a 400-year era falls in a year of that era (0..399) at a day of that
   * March-based year (0..365).
   */
  lemma YearOfEraBounds(doe: int)
    requires 0 <= doe <= 146096
    ensures var yoe := (doe - doe / 1460 + doe / 36524 - doe / 146096) / 365;
            0 <= yoe <= 399 && 0 <= doe - (365 * yoe + yoe / 4 - yoe / 100) <= 365
  {
    if doe < 146096 {
      var c, q, r, e := EraDecomposition(doe);
      YearOfEraFrom(doe, c, q, r, e);
    }
  }

  /**
   * `doe = 36524 * c + 1461 * q + r`: centuries, four-year cycles and days of
   * the cycle, with `e` the extra day the division by 1460 picks up.
   */
  lemma EraDecomposition(doe: int) returns (c: int, q: int, r: int, e: int)
    requires 0 <= doe < 146096
    ensures 0 <= c <= 3 && 0 <= q <= 24 && 0 <= r <= 1460 && 0 <= e <= 1
    ensures doe == 36524 * c + 1461 * q + r
    ensures doe / 36524 == c && doe / 1460 == 25 * c + q + e && doe / 146096 == 0
    ensures e == 1 ==> r >= 1
  {
    c := doe / 36524;
    var n1 := doe - 36524 * c;
    q := n1 / 1461;
    r := n1 - 1461 * q;
    assert doe == 1460 * (25 * c + q) + (24 * c + q + r);
    e := (24 * c + q + r) / 1460;
  }

  lemma YearOfEraFrom(doe: int, c: int, q: int, r: int, e: int)
    requires 0 <= c <= 3 && 0 <= q <= 24 && 0 <= r <= 1460 && 0 <= e <= 1
    requires doe == 36524 * c + 1461 * q + r
    requires doe / 36524 == c && doe / 1460 == 25 * c + q + e && doe / 146096 == 0
    requires e == 1 ==> r >= 1
    ensures var yoe := (doe - doe / 1460 + doe / 36524 - doe / 146096) / 365;
            0 <= yoe <= 399 && 0 <= doe - (365 * yoe + yoe / 4 - yoe / 100) <= 365
  {
    var y3 := (r - e) / 365;
    assert 0 <= y3 <= 3;
    assert doe - doe / 1460 + doe / 36524 - doe / 146096 == 365 * (100 * c + 4 * q) + (r - e);
    var yoe := (doe - doe / 1460 + doe / 36524 - doe / 146096) / 365;
    assert yoe == 100 * c + 4 * q + y3;
    assert yoe / 4 == 25 * c + q;
    assert yoe / 100 == c;
  }

  /** The month-and-day step: a March-based day of year (0..365) is a month index 0..11 and a day 1..31. */
  lemma MonthDayBounds(doy: int)
    requires 0 <= doy <= 365
    ensures var mp := (5 * doy + 2) / 153;
            0 <= mp <= 11 && 1 <= doy - (153 * mp + 2) / 5 + 1 <= 31
  {
  }

  /** The era and year-of-era of day `days` in the civil-from-days algorithm. */
  lemma EraBounds(days: nat)
    ensures var z := days + 719468;
            var era := z / 146097;
            0 <= z - era * 146097 <= 146096 && era * 400 <= z / 365
  {
    var z := days + 719468;
    var era := z / 146097;
    assert era * 146097 <= z;
    assert era * 400 * 365 <= era * 146097;
  }

  /** The calendar date of a day count since 1970-01-01 (Hinnant's civil-from-days). */
  function CivilFromDays(days: nat): (c: Civil)
    ensures 1 <= c.month <= 12 && 1 <= c.day <= 31
    ensures c.year <= (days + 719468) / 365 + 400
  {
    var z := days + 719468;
    var era := z / 146097;
    EraBounds(days);
    CivilOfEra(era, z - era * 146097)
  }

  /** The date of day `doe` of the 400-year era `era` (eras start on 0000-03-01). */
  function CivilOfEra(era: nat, doe: nat): (c: Civil)
    requires doe <= 146096
    ensures 1 <= c.month <= 12 && 1 <= c.day <= 31
    ensures c.year <= era * 400 + 400
  {
    YearOfEraBounds(doe);
    var yoe := (doe - doe / 1460 + doe / 36524 - doe / 146096) / 365;
    CivilOfYear(era * 400 + yoe, doe - (365 * yoe + yoe / 4 - yoe / 100))
  }

  /** The date of day `doy` of the March-based year `y`: January and February belong to year `y + 1`. */
  function CivilOfYear(y: nat, doy: nat): (c: Civil)
    requires doy <= 365
    ensures 1 <= c.month <= 12 && 1 <= c.day <= 31
    ensures c.year <= y + 1
  {
    MonthDayBounds(doy);
    var mp := (5 * doy + 2) / 153;
    var d := doy - (153 * mp + 2) / 5 + 1;
    var m := if mp < 10 then mp + 3 else mp - 9;
    Civil(if m <= 2 then y + 1 else y, m, d)
  }

  /** `{:0w}`: the decimal digits of `n`, zero-padded to at least `w` characters. */
  function ZeroPad(n: nat, w: nat): string
  {
    PadLeft(NatToString(n), w, '0')
  }

  /** A number below 10^w zero-pads to exactly `w` digits. */
  lemma ZeroPadWidth(n: nat, w: nat)
    requires 1 <= w && n < Pow10(w)
    ensures |ZeroPad(n, w)| == w && AllDigits(ZeroPad(n, w))
  {
    NatToStringLength(n, w);
    PadLeftDigits(NatToString(n), w, n);
  }

  /** Three digit fields of widths `w1`, `w2`, `w3` separated by `sep`: `YYYY-MM-DD` or `HH:MM:SS`. */
  predicate Fields3(s: string, sep: char, w1: nat, w2: nat, w3: nat)
  {
    && |s| == w1 + w2 + w3 + 2
    && s[w1] == sep && s[w1 + 1 + w2] == sep
    && AllDigits(s[..w1]) && AllDigits(s[w1 + 1..w1 + 1 + w2]) && AllDigits(s[w1 + 2 + w2..])
  }

  /** `YYYY-MM-DDTHH:MM:SSZ`: twenty characters, digits except at the six punctuation positions. */
  predicate TimestampShape(s: string)
  {
    |s| == 20 && Fields3(s[..10], '-', 4, 2, 2) && s[10] == 'T' && Fields3(s[11..19], ':', 2, 2, 2) && s[19] == 'Z'
  }

  lemma Fields3Of(a: string, sep: char, b: string, c: string)
    requires AllDigits(a) && AllDigits(b) && AllDigits(c)
    ensures Fields3(a + [sep] + b + [sep] + c, sep, |a|, |b|, |c|)
  {
    var s := a + [sep] + b + [sep] + c;
    assert s[..|a|] == a;
    assert s[|a| + 1..|a| + 1 + |b|] == b;
    assert s[|a| + 2 + |b|..] == c;
  }

  /** The date part and the time part of a rendered timestamp. */
  function DatePart(c: Civil): string
  {
    ZeroPad(c.year, 4) + "-" + ZeroPad(c.month, 2) + "-" + ZeroPad(c.day, 2)
  }

  function TimePart(k: Clock): string
  {
    ZeroPad(k.hours, 2) + ":" + ZeroPad(k.minutes, 2) + ":" + ZeroPad(k.seconds, 2)
  }

  /** The `format!` of `utc_timestamp_iso8601` applied to a date and a clock. */
  function RenderTimestamp(c: Civil, k: Clock): string
  {
    DatePart(c) + "T" + TimePart(k) + "Z"
  }

  /**
   * `utc_timestamp_iso8601` with the clock reading given as `secs`. It always
   * contains a `T` and ends in `Z`; for years below 10000 it has the exact
   * twenty-character shape.
   */
  function UtcTimestamp(secs: nat): (r: string)
    ensures 'T' in r && r[|r| - 1] == 'Z'
    ensures CivilFromDays(secs / SECONDS_PER_DAY).year < 10000 ==> TimestampShape(r)
  {
    var k := SplitSeconds(secs);
    var c := CivilFromDays(k.days);
    var r := RenderTimestamp(c, k);
    RenderMarkers(c, k);
    if c.year < 10000 then
      RenderShape(c, k);
      r
    else r
  }

  /** A rendered timestamp separates date and time by `T` and ends in `Z`. */
  lemma RenderMarkers(c: Civil, k: Clock)
    ensures 'T' in RenderTimestamp(c, k)
    ensures RenderTimestamp(c, k)[|RenderTimestamp(c, k)| - 1] == 'Z'
  {
    var d := DatePart(c);
    var t := TimePart(k);
    var r := d + "T" + t + "Z";
    assert r[|d|] == 'T';
  }

  /** With a four-digit year every field of a rendered timestamp has its exact width. */
  lemma RenderShape(c: Civil, k: Clock)
    requires c.year < 10000 && c.month < 100 && c.day < 100
    requires k.hours < 100 && k.minutes < 100 && k.seconds < 100
    ensures TimestampShape(RenderTimestamp(c, k))
  {
    ZeroPadWidth(c.year, 4);
    ZeroPadWidth(c.month, 2);
    ZeroPadWidth(c.day, 2);
    ZeroPadWidth(k.hours, 2);
    ZeroPadWidth(k.minutes, 2);
    ZeroPadWidth(k.seconds, 2);
    Fields3Of(ZeroPad(c.year, 4), '-', ZeroPad(c.month, 2), ZeroPad(c.day, 2));
    Fields3Of(ZeroPad(k.hours, 2), ':', ZeroPad(k.minutes, 2), ZeroPad(k.seconds, 2));
    var s := RenderTimestamp(c, k);
    assert s[..10] == DatePart(c);
    assert s[11..19] == TimePart(k);
  }

  /** Day zero of the epoch is 1970-01-01. */
  lemma EpochDates()
    ensures CivilFromDays(0) == Civil(1970, 1, 1)
  {
    assert 719468 / 146097 == 4;
    var doe := 719468 - 4 * 146097;
    assert doe == 135080;
    assert doe / 1460 == 92 && doe / 36524 == 3 && doe / 146096 == 0;
    assert (doe - 92 + 3 - 0) / 365 == 369;
    assert 369 / 4 == 92 && 369 / 100 == 3;
    assert CivilFromDays(0) == CivilOfEra(4, doe);
    assert CivilOfEra(4, doe) == CivilOfYear(1969, 306);
    assert (5 * 306 + 2) / 153 == 10;
    assert (153 * 10 + 2) / 5 == 306;
  }

  // ── .gitignore check ──────────────────────────────────────────────────────

  /** A `.gitignore` line (already trimmed) that ignores the `.ns` directory. */
  predicate IsNsIgnoreEntry(trimmed: string)
  {
    trimmed == ".ns/" || trimmed == ".ns" || trimmed == "/.ns/" || trimmed == "/.ns"
  }

  /** `.ns` with an optional leading and an optional trailing `/`. */
  function SlashForm(lead: bool, trail: bool): string
  {
    (if lead then "/" else "") + ".ns" + (if trail then "/" else "")
  }

  /** The accepted entries are exactly `.ns` with an optional `/` on either side. */
  lemma NsEntryForms(t: string)
    ensures IsNsIgnoreEntry(t) <==> exists lead: bool, trail: bool :: t == SlashForm(lead, trail)
  {
    if IsNsIgnoreEntry(t) {
      var lead, trail := t[0] == '/', t[|t| - 1] == '/';
      assert t == SlashForm(lead, trail);
    } else {
      forall lead: bool, trail: bool
        ensures t != SlashForm(lead, trail)
      {
        assert IsNsIgnoreEntry(SlashForm(lead, trail));
      }
    }
  }

  /**
   * `check_gitignore_warning`: in a git repository, warn unless the readable
   * `.gitignore` (`None` when missing or unreadable) has a line that trims to
   * an `.ns` entry; outside a git repository never warn.
   */
  predicate ShouldWarnGitignore(isGitRepo: bool, gitignore: Option<string>)
  {
    isGitRepo &&
    !(gitignore.Some? && exists k :: 0 <= k < |Lines(gitignore.value)| && IsNsIgnoreEntry(Trim(Lines(gitignore.value)[k])))
  }

  /** Appending a `.ns/` line to a `.gitignore` that ends in a newline (or is empty) silences the warning. */
  lemma AppendEntrySilencesWarning(content: string, entry: string)
    requires |content| == 0 || content[|content| - 1] == '\n'
    requires IsNsIgnoreEntry(entry)
    ensures !ShouldWarnGitignore(true, Some(content + entry + "\n"))
  {
    NsEntryPlain(entry);
    LinesOfLine(entry);
    if |content| > 0 {
      assert content + entry + "\n" == content + (entry + "\n");
      LinesAppend(content, entry + "\n");
    } else {
      assert content + entry + "\n" == entry + "\n";
    }
    var ls := Lines(content + entry + "\n");
    assert ls[|ls| - 1] == entry;
  }

  /**
   * An entry line silences the warning wherever it stands in the file and
   * however it is indented.
   */
  lemma EntryLineSilencesWarning(pre: string, line: string, post: string)
    requires |pre| == 0 || pre[|pre| - 1] == '\n'
    requires '\n' !in line && '\r' !in line && IsNsIgnoreEntry(Trim(line))
    ensures !ShouldWarnGitignore(true, Some(pre + line + "\n" + post))
  {
    var tail := line + "\n" + post;
    var f := pre + tail;
    assert pre + line + "\n" + post == f;
    var k := EntryLineIndex(pre, tail, line, post);
    assert 0 <= k < |Lines(f)| && IsNsIgnoreEntry(Trim(Lines(f)[k]));
  }

  /** Where the line after `pre` lands among the lines of `pre + line + "\n" + post`. */
  lemma EntryLineIndex(pre: string, tail: string, line: string, post: string) returns (k: nat)
    requires |pre| == 0 || pre[|pre| - 1] == '\n'
    requires '\n' !in line && '\r' !in line && tail == line + "\n" + post
    ensures k < |Lines(pre + tail)| && Lines(pre + tail)[k] == line
  {
    LinesCons(line, post);
    if |pre| > 0 {
      LinesAppend(pre, tail);
      k := |Lines(pre)|;
    } else {
      assert pre + tail == tail;
      k := 0;
    }
  }

  /** The `.ns` entries hold no line break, carriage return or surrounding whitespace. */
  lemma NsEntryPlain(entry: string)
    requires IsNsIgnoreEntry(entry)
    ensures '\n' !in entry && StripCR(entry) == entry && Trim(entry) == entry
  {
    assert entry[0] in "./" && entry[|entry| - 1] in "/s";
    TrimNoop(entry);
    assert forall k :: 0 <= k < |entry| ==> entry[k] in "./ns";
  }

  /** Without a git repository there is never a warning; with one, a missing `.gitignore` always warns. */
  lemma GitignoreWarningCases(gitignore: Option<string>)
    ensures !ShouldWarnGitignore(false, gitignore)
    ensures ShouldWarnGitignore(true, None)
    ensures ShouldWarnGitignore(true, Some(""))
  {
  }

  // ── Symbol fields ─────────────────────────────────────────────────────────

  /** The two document fields built from a file's symbol names. */
  datatype SymbolFields = SymbolFields(symbols: string, symbolsRaw: string)

  /**
   * `symbols` is space-separated for tokenised search; `symbols_raw` is
   * `|`-separated for display. The two fields have the same length and
   * differ only where one has a space and the other a `|`.
   */
  function SymbolFieldsOf(names: seq<string>): (r: SymbolFields)
    ensures |r.symbols| == |r.symbolsRaw|
    ensures forall i :: 0 <= i < |r.symbols| && r.symbols[i] != r.symbolsRaw[i] ==>
              r.symbols[i] == ' ' && r.symbolsRaw[i] == '|'
    ensures names == [] ==> r.symbols == [] && r.symbolsRaw == []
  {
    JoinSeparatorSwap(names, ' ', '|');
    SymbolFields(Join(names, " "), Join(names, "|"))
  }

  /** Joining with two one-character separators differs only at the separators. */
  lemma {:induction false} JoinSeparatorSwap(parts: seq<string>, a: char, b: char)
    ensures |Join(parts, [a])| == |Join(parts, [b])|
    ensures forall i :: 0 <= i < |Join(parts, [a])| && Join(parts, [a])[i] != Join(parts, [b])[i] ==>
              Join(parts, [a])[i] == a && Join(parts, [b])[i] == b
    decreases |parts|
  {
    if |parts| > 1 {
      JoinSeparatorSwap(parts[1..], a, b);
      var x, y := Join(parts[1..], [a]), Join(parts[1..], [b]);
      var ja, jb, p := Join(parts, [a]), Join(parts, [b]), parts[0];
      assert ja == p + [a] + x && jb == p + [b] + y;
      forall i | 0 <= i < |ja| && ja[i] != jb[i]
        ensures ja[i] == a && jb[i] == b
      {
        if i > |p| {
          assert ja[i] == x[i - |p| - 1] && jb[i] == y[i - |p| - 1];
        }
      }
    }
  }

  /**
   * Both fields give the names back: `symbols_raw` split on `|` when no name
   * holds a `|`, and `symbols` split on whitespace when every name is
   * non-empty and free of whitespace.
   */
  lemma SymbolFieldsRoundTrip(names: seq<string>)
    requires forall i :: 0 <= i < |names| ==> |names[i]| > 0 && '|' !in names[i]
    requires forall i, k :: 0 <= i < |names| && 0 <= k < |names[i]| ==> !IsWhitespace(names[i][k])
    ensures |names| > 0 ==> Split(SymbolFieldsOf(names).symbolsRaw, '|') == names
    ensures SplitWhitespace(SymbolFieldsOf(names).symbols) == names
  {
    if |names| > 0 {
      SplitOfJoin(names, '|');
    }
    SplitWhitespaceOfJoin(names);
  }
}
