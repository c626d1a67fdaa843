/**
 * Context extraction for a matched file (src/searcher/context.rs): the query
 * is tokenised, the lines holding a token are widened by a window of lines on
 * either side, and the included lines are returned in order, optionally
 * capped with a count of what the cap dropped. The file's text is a
 * parameter (`None` when it cannot be read).
 */
module Context {
  import opened Common
  import opened Text

  // ── Query tokens ──────────────────────────────────────────────────────────

  /** A query token: non-empty, ASCII letters and digits only, no upper case. */
  predicate IsToken(t: string)
  {
    |t| > 0 && forall i :: 0 <= i < |t| ==> IsAlnum(t[i]) && !('A' <= t[i] <= 'Z')
  }

  /** `to_lowercase` applied to every piece. */
  function LowerAll(ts: seq<string>): (r: seq<string>)
    ensures |r| == |ts|
    ensures forall k :: 0 <= k < |ts| ==> r[k] == Lower(ts[k])
    ensures forall k :: 0 <= k < |r| ==> |r[k]| == |ts[k]|
    ensures forall k, i :: 0 <= k < |r| && 0 <= i < |r[k]| ==> !('A' <= r[k][i] <= 'Z')
  {
    seq(|ts|, k requires 0 <= k < |ts| => Lower(ts[k]))
  }

  /** Token separators: everything that is not an ASCII letter or digit. */
  predicate NotAlnum(c: char)
  {
    !IsAlnum(c)
  }

  predicate NonEmpty(t: string)
  {
    |t| > 0
  }

  /**
   * `tokenize_query`: split at every character that is not alphanumeric, drop
   * the empty pieces and lowercase the rest, keeping their order.
   */
  function Tokenize(query: string): (r: seq<string>)
    ensures forall k :: 0 <= k < |r| ==> IsToken(r[k])
  {
    var pieces := Filter(SplitWhere(query, NotAlnum), NonEmpty);
    TokenPieces(query, pieces);
    LowerAll(pieces)
  }

  lemma TokenPieces(query: string, pieces: seq<string>)
    requires pieces == Filter(SplitWhere(query, NotAlnum), NonEmpty)
    ensures forall k :: 0 <= k < |LowerAll(pieces)| ==> IsToken(LowerAll(pieces)[k])
  {
    var all := SplitWhere(query, NotAlnum);
    SplitWherePieces(query, NotAlnum);
    forall k | 0 <= k < |pieces|
      ensures IsToken(Lower(pieces[k]))
    {
      assert pieces[k] in all;
      var j :| 0 <= j < |all| && all[j] == pieces[k];
      assert forall i :: 0 <= i < |pieces[k]| ==> IsAlnum(all[j][i]);
    }
  }

  /** Lowercase tokens come back from their space-separated rendering, in order. */
  lemma {:induction false} TokenizeOfJoin(ts: seq<string>)
    requires forall k :: 0 <= k < |ts| ==> IsToken(ts[k])
    ensures Tokenize(Join(ts, " ")) == ts
  {
    if |ts| == 0 {
      assert SplitWhere("", NotAlnum) == [""];
      assert Filter([""], NonEmpty) == [];
    } else {
      SplitWhereOfJoin(ts, ' ', NotAlnum);
      FilterKeepsAll(ts, NonEmpty);
      forall k | 0 <= k < |ts|
        ensures Lower(ts[k]) == ts[k]
      {
        LowerOfToken(ts[k]);
      }
    }
  }

  lemma LowerOfToken(t: string)
    requires IsToken(t)
    ensures Lower(t) == t
  {
  }

  /** As in `tokenize_splits_on_punctuation`: `foo::bar_baz` gives `foo`, `bar`, `baz`. */
  lemma TokenizeExample()
    ensures Tokenize("foo" + "::" + "bar" + "_" + "baz") == ["foo", "bar", "baz"]
  {
    ExampleSplit();
    ExampleFilter();
    ExampleLower();
  }

  lemma ExampleLower()
    ensures LowerAll(["foo", "bar", "baz"]) == ["foo", "bar", "baz"]
  {
    LowerOfToken("foo");
    LowerOfToken("bar");
    LowerOfToken("baz");
  }

  lemma ExampleSplit()
    ensures SplitWhere("foo" + "::" + "bar" + "_" + "baz", NotAlnum) == ["foo", "", "bar", "baz"]
  {
    SplitTwoSeparators("foo", ':', "bar", '_', "baz");
  }

  /**
   * `a`, a separator twice, `b`, a separator and `c`, with `a`, `b`, `c`
   * alphanumeric, split into `a`, an empty piece, `b` and `c`.
   */
  lemma SplitTwoSeparators(a: string, x: char, b: string, y: char, c: string)
    requires forall k :: 0 <= k < |a| ==> IsAlnum(a[k])
    requires forall k :: 0 <= k < |b| ==> IsAlnum(b[k])
    requires forall k :: 0 <= k < |c| ==> IsAlnum(c[k])
    requires !IsAlnum(x) && !IsAlnum(y)
    ensures SplitWhere(a + [x, x] + b + [y] + c, NotAlnum) == [a, "", b, c]
  {
    SplitFirstPiece(a, x, b, y, c);
    SplitAfterSeparator([], x, b + [y] + c);
    SplitLastTwo(b, y, c);
    FourPieces(a, [], b, c);
  }

  lemma FourPieces<T>(p: T, q: T, r: T, s: T)
    ensures [p] + ([q] + [r, s]) == [p, q, r, s]
  {
  }

  lemma SplitFirstPiece(a: string, x: char, b: string, y: char, c: string)
    requires forall k :: 0 <= k < |a| ==> IsAlnum(a[k])
    requires !IsAlnum(x)
    ensures SplitWhere(a + [x, x] + b + [y] + c, NotAlnum) == [a] + SplitWhere([] + [x] + (b + [y] + c), NotAlnum)
  {
    assert a + [x, x] + b + [y] + c == a + [x] + ([] + [x] + (b + [y] + c));
    SplitAfterSeparator(a, x, [] + [x] + (b + [y] + c));
  }

  lemma SplitLastTwo(b: string, y: char, c: string)
    requires forall k :: 0 <= k < |b| ==> IsAlnum(b[k])
    requires forall k :: 0 <= k < |c| ==> IsAlnum(c[k])
    requires !IsAlnum(y)
    ensures SplitWhere(b + [y] + c, NotAlnum) == [b, c]
  {
    SplitAfterSeparator(b, y, c);
    SplitWhereNone(c, NotAlnum);
  }

  /** A separator after an alphanumeric piece ends that piece. */
  lemma SplitAfterSeparator(a: string, x: char, b: string)
    requires forall k :: 0 <= k < |a| ==> IsAlnum(a[k])
    requires !IsAlnum(x)
    ensures SplitWhere(a + [x] + b, NotAlnum) == [a] + SplitWhere(b, NotAlnum)
  {
    SplitWhereAt(a, x, b, NotAlnum);
  }

  lemma ExampleFilter()
    ensures Filter(["foo", "", "bar", "baz"], NonEmpty) == ["foo", "bar", "baz"]
  {
    assert ["foo", "", "bar", "baz"][1..] == ["", "bar", "baz"];
    assert ["", "bar", "baz"][1..] == ["bar", "baz"];
    assert ["bar", "baz"][1..] == ["baz"];
    assert ["baz"][1..] == [];
  }

  // ── Choosing lines ────────────────────────────────────────────────────────

  /** A line matches when its lowercase form contains some query token. */
  predicate LineMatches(line: string, terms: seq<string>)
  {
    exists k :: 0 <= k < |terms| && Contains(Lower(line), terms[k])
  }

  /** The indices `lo..n` that satisfy `p`, ascending (a `BTreeSet` walked in order). */
  function Select(lo: nat, n: nat, p: nat -> bool): (r: seq<nat>)
    ensures forall k :: 0 <= k < |r| ==> lo <= r[k] < n && p(r[k])
    ensures forall i :: lo <= i < n && p(i) ==> i in r
    ensures forall a, b :: 0 <= a < b < |r| ==> r[a] < r[b]
    decreases n - lo
  {
    if lo >= n then []
    else if p(lo) then [lo] + Select(lo + 1, n, p)
    else Select(lo + 1, n, p)
  }

  /** Nothing is selected when no index satisfies `p`. */
  lemma {:induction false} SelectNone(lo: nat, n: nat, p: nat -> bool)
    requires forall i :: lo <= i < n ==> !p(i)
    ensures Select(lo, n, p) == []
    decreases n - lo
  {
    if lo < n {
      SelectNone(lo + 1, n, p);
    }
  }

  /** The 0-based indices of the matching lines. */
  function MatchIndices(lines: seq<string>, terms: seq<string>): seq<nat>
  {
    Select(0, |lines|, (j: nat) => j < |lines| && LineMatches(lines[j], terms))
  }

  /** `idx.saturating_sub(w)` on `usize`. */
  function SaturatingSub(a: nat, b: nat): nat
  {
    if a >= b then a - b else 0
  }

  /** Index `i` lies in the range `idx - w ..= min(idx + w, n - 1)` of some match `idx`. */
  predicate InWindow(i: nat, matches: seq<nat>, w: nat, n: nat)
  {
    exists k :: 0 <= k < |matches| && SaturatingSub(matches[k], w) <= i <= Min(matches[k] + w, n - 1)
  }

  /** The indices every match's window covers, ascending and without repeats. */
  function IncludeIndices(matches: seq<nat>, w: nat, n: nat): seq<nat>
  {
    Select(0, n, (i: nat) => InWindow(i, matches, w, n))
  }

  // ── The result ────────────────────────────────────────────────────────────

  datatype ContextLine = ContextLine(lineNumber: nat, text: string)

  datatype ContextResult = ContextResult(lines: seq<ContextLine>, truncatedCount: nat)

  const EmptyResult := ContextResult([], 0)

  /** The numbered lines at the given 0-based indices. */
  function NumberLines(lines: seq<string>, idx: seq<nat>): (r: seq<ContextLine>)
    requires forall k :: 0 <= k < |idx| ==> idx[k] < |lines|
    ensures |r| == |idx|
    ensures forall k :: 0 <= k < |idx| ==> r[k] == ContextLine(idx[k] + 1, lines[idx[k]])
  {
    seq(|idx|, k requires 0 <= k < |idx| => ContextLine(idx[k] + 1, lines[idx[k]]))
  }

  /**
   * Every included line, before the cap: nothing when the file is unreadable
   * or empty, when the query has no tokens or when no line matches.
   */
  function Candidates(content: Option<string>, query: string, window: nat): seq<ContextLine>
  {
    if content.None? then []
    else
      var lines := Lines(content.value);
      var terms := Tokenize(query);
      if |lines| == 0 || |terms| == 0 then []
      else
        var matches := MatchIndices(lines, terms);
        if |matches| == 0 then []
        else NumberLines(lines, IncludeIndices(matches, window, |lines|))
  }

  /** The cap: `Some(0)` and `None` both mean unlimited. */
  function CapOf(maxLines: Option<nat>): Option<nat>
  {
    match maxLines
    case None => None
    case Some(n) => if n == 0 then None else Some(n)
  }

  /** Keeps the first `cap` lines and counts the rest. */
  function Capped(all: seq<ContextLine>, cap: Option<nat>): (r: ContextResult)
    ensures |r.lines| + r.truncatedCount == |all|
    ensures r.lines == all[..|r.lines|]
    ensures cap.None? ==> r == ContextResult(all, 0)
    ensures cap.Some? ==> |r.lines| == Min(|all|, cap.value)
  {
    match cap
    case None => ContextResult(all, 0)
    case Some(c) =>
      if |all| > c then ContextResult(all[..c], |all| - c) else ContextResult(all, 0)
  }

  /**
   * `extract_context`. The early returns of the empty result are the cases
   * where `Candidates` has no lines; capping no lines gives the same.
   */
  function ExtractContext(content: Option<string>, query: string, window: nat, maxLines: Option<nat>): (r: ContextResult)
    ensures content.None? ==> r == EmptyResult
    ensures |r.lines| + r.truncatedCount == |Candidates(content, query, window)|
    ensures maxLines.Some? && maxLines.value > 0 ==> |r.lines| <= maxLines.value
    ensures r.truncatedCount > 0 ==> maxLines.Some? && |r.lines| == maxLines.value
  {
    Capped(Candidates(content, query, window), CapOf(maxLines))
  }

  // ── Properties ────────────────────────────────────────────────────────────

  /** An unreadable or empty file, a query without tokens, or no matching line gives the empty result. */
  lemma EmptyCases(content: Option<string>, query: string, window: nat, maxLines: Option<nat>)
    requires content.None? || Lines(content.value) == [] || Tokenize(query) == []
             || (forall j :: 0 <= j < |Lines(content.value)| ==> !LineMatches(Lines(content.value)[j], Tokenize(query)))
    ensures ExtractContext(content, query, window, maxLines) == EmptyResult
  {
    if content.Some? && Lines(content.value) != [] && Tokenize(query) != [] {
      var lines, terms := Lines(content.value), Tokenize(query);
      SelectNone(0, |lines|, (j: nat) => j < |lines| && LineMatches(lines[j], terms));
    }
  }

  /** Returned lines are strictly ascending by line number. */
  lemma LinesInOrder(content: Option<string>, query: string, window: nat, maxLines: Option<nat>)
    ensures var r := ExtractContext(content, query, window, maxLines);
            forall a, b :: 0 <= a < b < |r.lines| ==> r.lines[a].lineNumber < r.lines[b].lineNumber
  {
    var all := Candidates(content, query, window);
    if |all| > 0 {
      CandidatesShape(content, query, window);
      var lines := Lines(content.value);
      NumberedAscending(lines, IncludeIndices(MatchIndices(lines, Tokenize(query)), window, |lines|));
      PrefixAscending(all, |ExtractContext(content, query, window, maxLines).lines|);
    }
  }

  lemma PrefixAscending(all: seq<ContextLine>, n: nat)
    requires n <= |all|
    requires forall a, b :: 0 <= a < b < |all| ==> all[a].lineNumber < all[b].lineNumber
    ensures forall a, b :: 0 <= a < b < n ==> all[..n][a].lineNumber < all[..n][b].lineNumber
  {
  }

  lemma NumberedAscending(lines: seq<string>, idx: seq<nat>)
    requires forall k :: 0 <= k < |idx| ==> idx[k] < |lines|
    requires forall a, b :: 0 <= a < b < |idx| ==> idx[a] < idx[b]
    ensures var r := NumberLines(lines, idx);
            forall a, b :: 0 <= a < b < |r| ==> r[a].lineNumber < r[b].lineNumber
  {
  }

  /** Without a cap, every line that contains a query token is returned. */
  lemma MatchesIncluded(content: string, query: string, window: nat, j: nat)
    requires j < |Lines(content)| && LineMatches(Lines(content)[j], Tokenize(query))
    ensures ContextLine(j + 1, Lines(content)[j]) in ExtractContext(Some(content), query, window, None).lines
  {
    var lines, terms := Lines(content), Tokenize(query);
    var m := MatchIndices(lines, terms);
    assert j in m;
    var inc := IncludeIndices(m, window, |lines|);
    MatchInWindow(m, window, |lines|, j);
    assert Candidates(Some(content), query, window) == NumberLines(lines, inc);
    NumberedIn(lines, inc, j);
  }

  /**
   * Every line within `window` lines of a matching line, clipped to the
   * file, is in the uncapped result with its 1-based number.
   */
  lemma WindowComplete(content: string, query: string, window: nat, i: nat, j: nat)
    requires i < |Lines(content)| && j < |Lines(content)|
    requires LineMatches(Lines(content)[j], Tokenize(query))
    requires SaturatingSub(j, window) <= i <= j + window
    ensures ContextLine(i + 1, Lines(content)[i]) in ExtractContext(Some(content), query, window, None).lines
  {
    var lines, terms := Lines(content), Tokenize(query);
    var m := MatchIndices(lines, terms);
    assert j in m;
    var inc := IncludeIndices(m, window, |lines|);
    NearMatchInWindow(m, window, |lines|, i, j);
    assert Candidates(Some(content), query, window) == NumberLines(lines, inc);
    NumberedIn(lines, inc, i);
  }

  /** A line near a match lies in that match's window. */
  lemma NearMatchInWindow(m: seq<nat>, w: nat, n: nat, i: nat, j: nat)
    requires j in m && i < n
    requires SaturatingSub(j, w) <= i <= j + w
    ensures i in IncludeIndices(m, w, n)
  {
    var k :| 0 <= k < |m| && m[k] == j;
    assert SaturatingSub(m[k], w) <= i <= Min(m[k] + w, n - 1);
    assert InWindow(i, m, w, n);
  }

  /** A match lies in its own window. */
  lemma MatchInWindow(m: seq<nat>, w: nat, n: nat, j: nat)
    requires j in m && j < n
    ensures j in IncludeIndices(m, w, n)
  {
    var k :| 0 <= k < |m| && m[k] == j;
    assert SaturatingSub(m[k], w) <= j <= Min(m[k] + w, n - 1);
    assert InWindow(j, m, w, n);
  }

  lemma NumberedIn(lines: seq<string>, idx: seq<nat>, j: nat)
    requires forall k :: 0 <= k < |idx| ==> idx[k] < |lines|
    requires j in idx
    ensures j < |lines| && ContextLine(j + 1, lines[j]) in NumberLines(lines, idx)
  {
    var k :| 0 <= k < |idx| && idx[k] == j;
    assert NumberLines(lines, idx)[k] == ContextLine(j + 1, lines[j]);
  }

  /** When there are candidates at all, they are the numbered lines of every match's window. */
  lemma CandidatesShape(content: Option<string>, query: string, window: nat)
    requires |Candidates(content, query, window)| > 0
    ensures content.Some?
    ensures var lines := Lines(content.value);
            Candidates(content, query, window) ==
              NumberLines(lines, IncludeIndices(MatchIndices(lines, Tokenize(query)), window, |lines|))
  {
  }

  /** The `k`-th numbered line of the included indices lies in the window of match `q`. */
  lemma NumberedInWindow(lines: seq<string>, m: seq<nat>, w: nat, k: nat) returns (i: nat, q: nat)
    requires |lines| > 0
    requires k < |NumberLines(lines, IncludeIndices(m, w, |lines|))|
    ensures i < |lines| && q < |m|
    ensures NumberLines(lines, IncludeIndices(m, w, |lines|))[k] == ContextLine(i + 1, lines[i])
    ensures SaturatingSub(m[q], w) <= i <= m[q] + w
  {
    var inc := IncludeIndices(m, w, |lines|);
    i := inc[k];
    assert InWindow(i, m, w, |lines|);
    q :| 0 <= q < |m| && SaturatingSub(m[q], w) <= i <= Min(m[q] + w, |lines| - 1);
  }

  /** Every element of `MatchIndices` is a matching line. */
  lemma MatchIndexMatches(lines: seq<string>, terms: seq<string>, q: nat)
    requires q < |MatchIndices(lines, terms)|
    ensures MatchIndices(lines, terms)[q] < |lines|
    ensures LineMatches(lines[MatchIndices(lines, terms)[q]], terms)
  {
  }

  /**
   * The `k`-th returned line is the numbered line `i` of the file, and `j` is
   * a matching line whose window covers `i`.
   */
  lemma ResultLine(content: Option<string>, query: string, window: nat, maxLines: Option<nat>, k: nat)
    returns (i: nat, j: nat)
    requires k < |ExtractContext(content, query, window, maxLines).lines|
    ensures content.Some? && i < |Lines(content.value)| && j < |Lines(content.value)|
    ensures ExtractContext(content, query, window, maxLines).lines[k] == ContextLine(i + 1, Lines(content.value)[i])
    ensures LineMatches(Lines(content.value)[j], Tokenize(query))
    ensures SaturatingSub(j, window) <= i <= j + window
  {
    var all := Candidates(content, query, window);
    assert ExtractContext(content, query, window, maxLines).lines[k] == all[k];
    CandidatesShape(content, query, window);
    var lines := Lines(content.value);
    var m := MatchIndices(lines, Tokenize(query));
    var q;
    i, q := NumberedInWindow(lines, m, window, k);
    MatchIndexMatches(lines, Tokenize(query), q);
    j := m[q];
  }

  /** Every returned line lies within `window` lines of a line that contains a query token. */
  lemma IncludedNearMatch(content: Option<string>, query: string, window: nat, maxLines: Option<nat>, k: nat)
    requires k < |ExtractContext(content, query, window, maxLines).lines|
    ensures var i := ExtractContext(content, query, window, maxLines).lines[k].lineNumber - 1;
            content.Some? &&
            (exists j :: 0 <= j < |Lines(content.value)| &&
              LineMatches(Lines(content.value)[j], Tokenize(query)) && i - window <= j <= i + window)
  {
    var i, j := ResultLine(content, query, window, maxLines, k);
  }

  /** With a window of 0 every returned line itself contains a query token. */
  lemma WindowZeroOnlyMatches(content: Option<string>, query: string, maxLines: Option<nat>, k: nat)
    requires k < |ExtractContext(content, query, 0, maxLines).lines|
    ensures LineMatches(ExtractContext(content, query, 0, maxLines).lines[k].text, Tokenize(query))
  {
    var i, j := ResultLine(content, query, 0, maxLines, k);
    assert i == j;
  }

  /**
   * A cap of `n > 0` returns the first `min(total, n)` of the uncapped lines
   * and counts the others as truncated; the uncapped result truncates nothing.
   */
  lemma CapIsPrefix(content: Option<string>, query: string, window: nat, n: nat)
    requires n > 0
    ensures var full := ExtractContext(content, query, window, None);
            var capped := ExtractContext(content, query, window, Some(n));
            full.truncatedCount == 0 &&
            |capped.lines| == Min(|full.lines|, n) &&
            capped.truncatedCount == |full.lines| - |capped.lines| &&
            capped.lines == full.lines[..|capped.lines|]
  {
  }

  /** `Some(0)` behaves exactly like `None`. */
  lemma ZeroCapUnlimited(content: Option<string>, query: string, window: nat)
    ensures ExtractContext(content, query, window, Some(0)) == ExtractContext(content, query, window, None)
    ensures ExtractContext(content, query, window, Some(0)).truncatedCount == 0
  {
  }
}
