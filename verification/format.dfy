/**
 * Result formatting (src/searcher/format.rs): the one-line search summary,
 * the human-readable rendering of one result with its context lines, and
 * the decisions the JSON rendering makes. Scores are floating point in the
 * program and are kept abstract here: each arrives already rendered as text.
 */
module Format {
  import opened Common
  import opened Text
  import opened Context

  // ── Data ──────────────────────────────────────────────────────────────────

  datatype SearchStats = SearchStats(totalResults: nat, filesSearched: nat, elapsedMs: nat)

  /** A ranked hit; `score`, `scoreContent` and `scoreSymbols` are their `{:.1}` renderings. */
  datatype SearchResult = SearchResult(
    path: string,
    score: string,
    lang: Option<string>,
    symbolsRaw: seq<string>,
    scoreContent: string,
    scoreSymbols: string,
    matchedFields: seq<string>)

  datatype DisplayResult = DisplayResult(
    rank: nat,
    result: SearchResult,
    contextLines: seq<ContextLine>,
    truncatedCount: nat)

  // ── Summary ───────────────────────────────────────────────────────────────

  function ResultWord(n: nat): string
  {
    if n == 1 then "result" else "results"
  }

  function FileWord(n: nat): string
  {
    if n == 1 then "file" else "files"
  }

  /**
   * `format_summary`: `{n} result(s) (searched {f} file(s) in {ms}ms)`, the
   * template's seven space-separated words.
   */
  function FormatSummary(stats: SearchStats): (r: string)
    ensures StartsWith(r, NatToString(stats.totalResults) + " ")
    ensures |r| >= 3 && r[|r| - 3..] == "ms)"
  {
    var w := SummaryWords(stats);
    JoinCons(w[0], w[1..], " ");
    assert [w[0]] + w[1..] == w;
    JoinSnoc(w[..6], w[6], " ");
    assert w[..6] + [w[6]] == w;
    Join(w, " ")
  }

  function SummaryWords(stats: SearchStats): seq<string>
  {
    [NatToString(stats.totalResults), ResultWord(stats.totalResults), "(searched",
     NatToString(stats.filesSearched), FileWord(stats.filesSearched), "in",
     NatToString(stats.elapsedMs) + "ms)"]
  }

  /**
   * Splitting the summary at spaces gives back its seven words: the counts
   * read back as numbers, and each noun is singular exactly when its count is 1.
   */
  lemma SummaryReadsBack(stats: SearchStats)
    requires stats.totalResults < U64_LIMIT && stats.filesSearched < U64_LIMIT
    ensures var w := Split(FormatSummary(stats), ' ');
            |w| == 7 &&
            ParseU64(w[0]) == Some(stats.totalResults) &&
            ParseU64(w[3]) == Some(stats.filesSearched) &&
            (w[1] == "result" <==> stats.totalResults == 1) &&
            (w[4] == "file" <==> stats.filesSearched == 1)
  {
    SummarySplit(stats);
    NumberReadsBack(stats.totalResults);
    NumberReadsBack(stats.filesSearched);
  }

  lemma NumberReadsBack(n: nat)
    requires n < U64_LIMIT
    ensures ParseU64(NatToString(n)) == Some(n)
  {
    NatToStringValue(n);
    ParseDigits(NatToString(n));
  }

  lemma SummarySplit(stats: SearchStats)
    ensures Split(FormatSummary(stats), ' ') == SummaryWords(stats)
  {
    var w := SummaryWords(stats);
    NoSpaceInDigits(NatToString(stats.totalResults));
    NoSpaceInDigits(NatToString(stats.filesSearched));
    NoSpaceInDigits(NatToString(stats.elapsedMs));
    assert forall k :: 0 <= k < |w| ==> ' ' !in w[k];
    SplitOfJoin(w, ' ');
  }

  lemma NoSpaceInDigits(d: string)
    requires AllDigits(d)
    ensures ' ' !in d && ' ' !in d + "ms)"
  {
  }

  // ── Text rendering ────────────────────────────────────────────────────────

  /** The line marking a gap between two groups of context lines. */
  const GapLine: string := "          ..."

  /** ` [rank] path  (score: s, lang: l)`, `unknown` standing for a missing language. */
  function Header(d: DisplayResult): (r: string)
    ensures StartsWith(r, " [" + NatToString(d.rank) + "] " + d.result.path + "  (score: " + d.result.score + ", lang: ")
    ensures d.result.lang.None? ==> EndsWith(r, ", lang: unknown)")
    ensures d.result.lang.Some? ==> EndsWith(r, ", lang: " + d.result.lang.value + ")")
  {
    var lang := if d.result.lang.Some? then d.result.lang.value else "unknown";
    var front := " [" + NatToString(d.rank) + "] " + d.result.path + "  (score: " + d.result.score;
    FourPartEnds(front, ", lang: ", lang, ")");
    UnknownSuffix();
    front + ", lang: " + lang + ")"
  }

  lemma UnknownSuffix()
    ensures ", lang: " + "unknown" + ")" == ", lang: unknown)"
  {
  }

  /** `a + b + c + d` starts with `a + b` and ends with `b + c + d`. */
  lemma FourPartEnds(a: string, b: string, c: string, d: string)
    ensures StartsWith(a + b + c + d, a + b) && EndsWith(a + b + c + d, b + c + d)
  {
    var s := a + b + c + d;
    assert s[..|a + b|] == a + b;
    assert s[|s| - |b + c + d|..] == b + c + d;
  }

  predicate EndsWith(s: string, p: string)
  {
    |p| <= |s| && s[|s| - |p|..] == p
  }

  /** The `~ matched:` annotation line, which exists only when some field matched. */
  function Annotation(d: DisplayResult): seq<string>
  {
    if |d.result.matchedFields| == 0 then []
    else ["      ~ matched: " + Join(d.result.matchedFields, "+") + ", bm25_content: "
          + d.result.scoreContent + ", bm25_symbols: " + d.result.scoreSymbols]
  }

  /** `     {:>4}: text`. */
  function NumberedLine(l: ContextLine): string
  {
    "     " + PadLeft(NatToString(l.lineNumber), 4, ' ') + ": " + l.text
  }

  /**
   * The context lines in order, a gap line before each line whose number
   * exceeds the previous one by more than 1.
   */
  function ContextBlock(ls: seq<ContextLine>, prev: Option<nat>): seq<string>
    decreases |ls|
  {
    if |ls| == 0 then []
    else
      var gap := if prev.Some? && ls[0].lineNumber > prev.value + 1 then [GapLine] else [];
      gap + [NumberedLine(ls[0])] + ContextBlock(ls[1..], Some(ls[0].lineNumber))
  }

  /** The truncation line, present only when the cap dropped lines. */
  function Truncation(d: DisplayResult): seq<string>
  {
    if d.truncatedCount > 0 then [TruncationLine(d.truncatedCount)] else []
  }

  function TruncationLine(k: nat): string
  {
    "      ... (" + NatToString(k) + " more matching lines)"
  }

  /** Every line of one result's text rendering, without line terminators. */
  function OutputLines(d: DisplayResult): seq<string>
  {
    [Header(d)] + Annotation(d) + ContextBlock(d.contextLines, None) + Truncation(d)
  }

  /** Each line followed by `\n`. */
  function Terminate(ls: seq<string>): (r: string)
    ensures |ls| > 0 ==> |r| > 0 && r[|r| - 1] == '\n'
  {
    if |ls| == 0 then "" else ls[0] + "\n" + Terminate(ls[1..])
  }

  /** `format_single_text`: the lines, then one blank line. */
  function FormatSingleText(d: DisplayResult): (r: string)
    ensures |r| >= 2 && r[|r| - 2..] == "\n\n"
  {
    Terminate(OutputLines(d)) + "\n"
  }

  // ── Properties of the text rendering ─────────────────────────────────────

  /** Reading terminated lines back with `lines()` returns them. */
  lemma {:induction false} TerminateLines(ls: seq<string>)
    requires forall k :: 0 <= k < |ls| ==> '\n' !in ls[k]
    ensures Lines(Terminate(ls)) == StripCRAll(ls)
    decreases |ls|
  {
    if |ls| > 0 {
      LinesOfLine(ls[0]);
      LinesAppend(ls[0] + "\n", Terminate(ls[1..]));
      TerminateLines(ls[1..]);
    }
  }

  /**
   * `lines()` on the rendering gives back every output line, then the empty
   * line that separates results (a `\r` ending a line is lost, as `lines()` drops it).
   */
  lemma TextReadsBack(d: DisplayResult)
    requires forall k :: 0 <= k < |OutputLines(d)| ==> '\n' !in OutputLines(d)[k]
    ensures Lines(FormatSingleText(d)) == StripCRAll(OutputLines(d)) + [""]
  {
    var ls := OutputLines(d);
    TerminateLines(ls);
    LinesAppend(Terminate(ls), "\n");
    LinesOfLine("");
  }

  /** Line `k` of the context block: a gap line first when line `k` does not follow line `k - 1`. */
  function Entry(ls: seq<ContextLine>, k: nat): seq<string>
    requires k < |ls|
  {
    (if k > 0 && ls[k].lineNumber > ls[k - 1].lineNumber + 1 then [GapLine] else [])
      + [NumberedLine(ls[k])]
  }

  /** The entries of lines `from..` one after the other. */
  function Entries(ls: seq<ContextLine>, from: nat): seq<string>
    requires from <= |ls|
    decreases |ls| - from
  {
    if from == |ls| then [] else Entry(ls, from) + Entries(ls, from + 1)
  }

  /**
   * The context block is the concatenation of the entries: the gap line sits
   * between two consecutive context lines exactly when the later number
   * exceeds the earlier by more than 1, and never before the first line.
   */
  lemma ContextBlockEntries(ls: seq<ContextLine>)
    ensures ContextBlock(ls, None) == Entries(ls, 0)
    ensures |ls| > 0 ==> ContextBlock(ls, None)[0] == NumberedLine(ls[0])
  {
    if |ls| > 0 {
      EntriesFrom(ls, 1);
      assert Entry(ls, 0) == [NumberedLine(ls[0])];
      assert Entries(ls, 0) == [NumberedLine(ls[0])] + Entries(ls, 1);
      assert ContextBlock(ls, None) == [NumberedLine(ls[0])] + ContextBlock(ls[1..], Some(ls[0].lineNumber));
    }
  }

  /** The block from line `from` on, knowing line `from - 1`. */
  lemma {:induction false} EntriesFrom(ls: seq<ContextLine>, from: nat)
    requires 0 < from <= |ls|
    ensures ContextBlock(ls[from..], Some(ls[from - 1].lineNumber)) == Entries(ls, from)
    decreases |ls| - from
  {
    if from < |ls| {
      EntriesFrom(ls, from + 1);
      assert ls[from..][1..] == ls[from + 1..];
      assert ls[from..][0] == ls[from];
    }
  }

  /** Without gaps the block holds exactly the numbered lines. */
  lemma {:induction false} ContiguousNoGap(ls: seq<ContextLine>, prev: Option<nat>)
    requires forall k :: 0 < k < |ls| ==> ls[k].lineNumber <= ls[k - 1].lineNumber + 1
    requires |ls| > 0 && prev.Some? ==> ls[0].lineNumber <= prev.value + 1
    ensures GapLine !in ContextBlock(ls, prev)
    ensures |ContextBlock(ls, prev)| == |ls|
    decreases |ls|
  {
    if |ls| > 0 {
      ContiguousNoGap(ls[1..], Some(ls[0].lineNumber));
      NumberedNotGap(ls[0]);
    }
  }

  /** A numbered line has a colon; the gap line has none. */
  lemma NumberedNotGap(l: ContextLine)
    ensures NumberedLine(l) != GapLine
  {
    var pad := PadLeft(NatToString(l.lineNumber), 4, ' ');
    assert NumberedLine(l)[5 + |pad|] == ':';
    assert ':' !in GapLine;
  }

  /** Columns 1 and 6 of a gap or numbered line: a space, and a space or a digit. */
  predicate BlockShaped(l: string)
  {
    |l| > 6 && l[1] == ' ' && (l[6] == ' ' || IsDigit(l[6]))
  }

  lemma {:induction false} BlockLineShape(ls: seq<ContextLine>, prev: Option<nat>)
    ensures forall l :: l in ContextBlock(ls, prev) ==> BlockShaped(l)
    decreases |ls|
  {
    if |ls| > 0 {
      BlockLineShape(ls[1..], Some(ls[0].lineNumber));
      NumberedShape(ls[0]);
      assert BlockShaped(GapLine);
    }
  }

  lemma NumberedShape(l: ContextLine)
    ensures BlockShaped(NumberedLine(l))
  {
    var d := NatToString(l.lineNumber);
    var pad := PadLeft(d, 4, ' ');
    assert NumberedLine(l)[1] == ' ';
    assert NumberedLine(l)[6] == pad[1];
    if 1 >= |pad| - |d| {
      assert pad[1] == pad[|pad| - |d|..][1 - (|pad| - |d|)];
    }
  }

  /** A line is the truncation line when it opens with `      ... (`. */
  predicate IsTruncationLine(l: string)
  {
    StartsWith(l, "      ... (")
  }

  /** A line is the annotation when it opens with `      ~ matched: `. */
  predicate IsAnnotationLine(l: string)
  {
    StartsWith(l, "      ~ matched: ")
  }

  lemma TruncationColumns(l: string)
    ensures IsTruncationLine(l) ==> |l| > 6 && l[1] == ' ' && l[6] == '.'
  {
    if IsTruncationLine(l) {
      assert l[..11] == "      ... (";
    }
  }

  lemma AnnotationColumns(l: string)
    ensures IsAnnotationLine(l) ==> |l| > 6 && l[1] == ' ' && l[6] == '~'
  {
    if IsAnnotationLine(l) {
      assert l[..17] == "      ~ matched: ";
    }
  }

  /** The truncation line appears exactly when lines were cut, and then it is the last line. */
  lemma TruncationIffCut(d: DisplayResult)
    ensures (exists l :: l in OutputLines(d) && IsTruncationLine(l)) <==> d.truncatedCount > 0
    ensures d.truncatedCount > 0 ==> OutputLines(d)[|OutputLines(d)| - 1] == TruncationLine(d.truncatedCount)
  {
    var head := [Header(d)] + Annotation(d) + ContextBlock(d.contextLines, None);
    assert OutputLines(d) == head + Truncation(d);
    HeadNotTruncation(d);
    if d.truncatedCount > 0 {
      TruncationLineColumn(d.truncatedCount);
    }
  }

  lemma HeadNotTruncation(d: DisplayResult)
    ensures forall l :: l in [Header(d)] + Annotation(d) + ContextBlock(d.contextLines, None) ==> !IsTruncationLine(l)
  {
    BlockNotTruncation(d.contextLines, None);
    HeaderColumn(d);
    if Annotation(d) != [] {
      AnnotationColumn(d);
    }
  }

  lemma {:induction false} BlockNotTruncation(ls: seq<ContextLine>, prev: Option<nat>)
    ensures forall l :: l in ContextBlock(ls, prev) ==> !IsTruncationLine(l) && !IsAnnotationLine(l)
  {
    BlockLineShape(ls, prev);
    forall l | l in ContextBlock(ls, prev)
      ensures !IsTruncationLine(l) && !IsAnnotationLine(l)
    {
      TruncationColumns(l);
      AnnotationColumns(l);
    }
  }

  lemma HeaderColumn(d: DisplayResult)
    ensures !IsTruncationLine(Header(d)) && !IsAnnotationLine(Header(d))
  {
    var h := Header(d);
    assert h[..2] == " [";
    assert h[1] == '[';
    TruncationColumns(h);
    AnnotationColumns(h);
  }

  lemma AnnotationColumn(d: DisplayResult)
    requires Annotation(d) != []
    ensures IsAnnotationLine(Annotation(d)[0]) && !IsTruncationLine(Annotation(d)[0])
  {
    var a := Annotation(d)[0];
    var p := "      ~ matched: ";
    assert a == p + (Join(d.result.matchedFields, "+") + ", bm25_content: "
          + d.result.scoreContent + ", bm25_symbols: " + d.result.scoreSymbols);
    assert a[..|p|] == p;
    assert a[6] == p[6];
    TruncationColumns(a);
  }

  lemma TruncationLineColumn(k: nat)
    ensures IsTruncationLine(TruncationLine(k)) && !IsAnnotationLine(TruncationLine(k))
  {
    var t := TruncationLine(k);
    var p := "      ... (";
    assert t == p + (NatToString(k) + " more matching lines)");
    assert t[..|p|] == p;
    assert t[6] == p[6];
    AnnotationColumns(t);
  }

  /** The annotation appears exactly when some field matched, and then it is the second line. */
  lemma AnnotationIffMatched(d: DisplayResult)
    ensures (exists l :: l in OutputLines(d) && IsAnnotationLine(l)) <==> |d.result.matchedFields| > 0
    ensures |d.result.matchedFields| > 0 ==> IsAnnotationLine(OutputLines(d)[1])
  {
    if |d.result.matchedFields| > 0 {
      AnnotationSecond(d);
    } else {
      NoAnnotation(d);
    }
  }

  lemma AnnotationSecond(d: DisplayResult)
    requires |d.result.matchedFields| > 0
    ensures IsAnnotationLine(OutputLines(d)[1])
  {
    AnnotationColumn(d);
    assert OutputLines(d)[1] == Annotation(d)[0];
  }

  lemma NoAnnotation(d: DisplayResult)
    requires |d.result.matchedFields| == 0
    ensures forall l :: l in OutputLines(d) ==> !IsAnnotationLine(l)
  {
    var tail := ContextBlock(d.contextLines, None) + Truncation(d);
    assert OutputLines(d) == [Header(d)] + tail;
    HeaderColumn(d);
    BlockNotTruncation(d.contextLines, None);
    if d.truncatedCount > 0 {
      TruncationLineColumn(d.truncatedCount);
    }
    assert forall l :: l in tail ==> !IsAnnotationLine(l);
  }

  /** Joining the matched fields with `+` loses nothing when no field holds a `+`. */
  lemma MatchedFieldsReadBack(fields: seq<string>)
    requires |fields| > 0
    requires forall k :: 0 <= k < |fields| ==> '+' !in fields[k]
    ensures Split(Join(fields, "+"), '+') == fields
  {
    SplitOfJoin(fields, '+');
  }

  /** The number printed in a context line reads back as its line number. */
  lemma LineNumberReadsBack(l: ContextLine)
    requires l.lineNumber < U64_LIMIT
    ensures ParseU64(Trim(Split(NumberedLine(l), ':')[0])) == Some(l.lineNumber)
  {
    var d := NatToString(l.lineNumber);
    ColonSplit(l);
    TrimField(d);
    NumberReadsBack(l.lineNumber);
  }

  lemma ColonSplit(l: ContextLine)
    ensures Split(NumberedLine(l), ':')[0] == "     " + PadLeft(NatToString(l.lineNumber), 4, ' ')
  {
    var d := NatToString(l.lineNumber);
    var blanks := NumberField(d);
    var field := "     " + PadLeft(d, 4, ' ');
    assert NumberedLine(l) == field + [':'] + (" " + l.text);
    SplitAt(field, ':', " " + l.text);
  }

  lemma TrimField(d: string)
    requires |d| > 0 && AllDigits(d)
    ensures Trim("     " + PadLeft(d, 4, ' ')) == d
  {
    FieldTrimStart(d);
    DigitsTrimEnd(d);
  }

  lemma FieldTrimStart(d: string)
    requires |d| > 0 && AllDigits(d)
    ensures TrimStart("     " + PadLeft(d, 4, ' ')) == d
  {
    var blanks :| "     " + PadLeft(d, 4, ' ') == blanks + d && IsBlank(blanks) by {
      var b := NumberField(d);
    }
    assert IsDigit(d[0]);
    TrimStartBlank(blanks, d);
  }

  lemma DigitsTrimEnd(d: string)
    requires |d| > 0 && AllDigits(d)
    ensures TrimEnd(d) == d
  {
    assert IsDigit(d[|d| - 1]);
  }

  /** The field before the colon: the padding blanks, then the digits. */
  lemma NumberField(d: string) returns (blanks: string)
    requires |d| > 0 && AllDigits(d)
    ensures "     " + PadLeft(d, 4, ' ') == blanks + d
    ensures IsBlank(blanks)
    ensures ':' !in blanks + d
  {
    var pad := PadLeft(d, 4, ' ');
    var fill := pad[..|pad| - |d|];
    assert pad == fill + d;
    blanks := "     " + fill;
    assert forall k :: 0 <= k < |blanks| ==> blanks[k] == ' ';
    assert ':' !in blanks;
    assert ':' !in d;
  }

  // ── Matched symbols and the JSON rendering ────────────────────────────────

  /** The symbols whose lowercase form contains some query token, in their order. */
  function MatchedSymbols(symbols: seq<string>, query: string): (r: seq<string>)
    ensures IsSubseq(r, symbols)
    ensures forall s :: s in r <==> s in symbols && LineMatches(s, Tokenize(query))
  {
    var terms := Tokenize(query);
    Filter(symbols, s => LineMatches(s, terms))
  }

  /**
   * A one-token query matches a symbol exactly when the symbol's lowercase
   * form contains the token, whatever the symbol's case.
   */
  lemma MatchedIgnoringCase(symbols: seq<string>, sym: string, token: string)
    requires IsToken(token) && sym in symbols
    ensures sym in MatchedSymbols(symbols, token) <==> Contains(Lower(sym), token)
  {
    TokenizeOfJoin([token]);
    assert Join([token], " ") == token;
  }

  /** The values the JSON object carries; scores are left out. */
  datatype JsonResult = JsonResult(
    rank: nat,
    path: string,
    lang: Option<string>,
    matchedSymbols: seq<string>,
    lines: seq<ContextLine>,
    matchedFields: seq<string>,
    truncatedLines: Option<nat>)

  /** `format_single_json_value`; `truncated_lines` is only set when lines were cut. */
  function FormatJson(d: DisplayResult, query: string): (r: JsonResult)
    ensures r.truncatedLines.Some? <==> d.truncatedCount > 0
    ensures r.truncatedLines.Some? ==> r.truncatedLines.value == d.truncatedCount
    ensures r.truncatedLines != Some(0)
  {
    JsonResult(d.rank, d.result.path, d.result.lang, MatchedSymbols(d.result.symbolsRaw, query),
               d.contextLines, d.result.matchedFields,
               if d.truncatedCount > 0 then Some(d.truncatedCount) else None)
  }

  /**
   * The JSON carries `truncated_lines` exactly when the text shows a
   * truncation line, with the same count.
   */
  lemma JsonAgreesWithText(d: DisplayResult, query: string)
    ensures FormatJson(d, query).truncatedLines.Some? <==>
            (exists k :: 0 <= k < |OutputLines(d)| && IsTruncationLine(OutputLines(d)[k]))
    ensures FormatJson(d, query).truncatedLines.Some? ==>
            TruncationLine(FormatJson(d, query).truncatedLines.value) in OutputLines(d)
  {
    TruncationIffCut(d);
  }
}
