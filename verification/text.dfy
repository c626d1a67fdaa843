/**
 * The parts of Rust's `str` and `char` API the program relies on, as pure
 * functions over `string` (= `seq<char>`): `lines`, `split`, `splitn`,
 * `split_whitespace`, `trim*`, `contains`, `starts_with`, `join`, decimal
 * rendering (`{}`, `{:04}`, `{:>4}`) and `u64::from_str`.
 */
module Text {
  import opened Common

  // ── Characters ────────────────────────────────────────────────────────────

  /** `char::is_whitespace`: the Unicode White_Space property. */
  predicate IsWhitespace(c: char)
  {
    c == ' ' || ('\t' <= c <= '\r') || c == '\U{85}' || c == '\U{A0}' || c == '\U{1680}'
    || ('\U{2000}' <= c <= '\U{200A}') || c == '\U{2028}' || c == '\U{2029}'
    || c == '\U{202F}' || c == '\U{205F}' || c == '\U{3000}'
  }

  /** `char::is_alphanumeric`, restricted to ASCII letters and digits. */
  predicate IsAlnum(c: char)
  {
    ('a' <= c <= 'z') || ('A' <= c <= 'Z') || ('0' <= c <= '9')
  }

  predicate IsDigit(c: char)
  {
    '0' <= c <= '9'
  }

  /** `char::to_lowercase`, restricted to ASCII. */
  function LowerChar(c: char): char
  {
    if 'A' <= c <= 'Z' then (c as int + 32) as char else c
  }

  function Lower(s: string): (r: string)
    ensures |r| == |s|
    ensures forall i :: 0 <= i < |s| ==> r[i] == LowerChar(s[i])
  {
    seq(|s|, i requires 0 <= i < |s| => LowerChar(s[i]))
  }

  // ── Searching ─────────────────────────────────────────────────────────────

  /** `p` occurs in `s` starting at index `i`. */
  predicate OccursAt(s: string, p: string, i: nat)
  {
    i + |p| <= |s| && s[i..i + |p|] == p
  }

  /** `str::contains` with a string pattern. */
  predicate Contains(s: string, p: string)
  {
    exists i: nat :: i + |p| <= |s| && OccursAt(s, p, i)
  }

  /** `str::starts_with`. */
  predicate StartsWith(s: string, p: string)
  {
    |p| <= |s| && s[..|p|] == p
  }

  /** Index of the first character satisfying `sep`, or `|s|` when there is none. */
  function FirstWhere(s: string, sep: char -> bool): (i: nat)
    ensures i <= |s|
    ensures forall k :: 0 <= k < i ==> !sep(s[k])
    ensures i < |s| ==> sep(s[i])
  {
    if |s| == 0 then 0
    else if sep(s[0]) then 0
    else 1 + FirstWhere(s[1..], sep)
  }

  function IndexOf(s: string, c: char): (i: nat)
    ensures i <= |s|
    ensures c !in s[..i]
    ensures i < |s| ==> s[i] == c
  {
    FirstWhere(s, x => x == c)
  }

  // ── Splitting ─────────────────────────────────────────────────────────────

  /** `str::split` with a character predicate: always one more piece than separators. */
  function SplitWhere(s: string, sep: char -> bool): (r: seq<string>)
    ensures |r| >= 1
    decreases |s|
  {
    var i := FirstWhere(s, sep);
    if i == |s| then [s] else [s[..i]] + SplitWhere(s[i + 1..], sep)
  }

  /** `str::split` on one character. */
  function Split(s: string, c: char): (r: seq<string>)
    ensures |r| >= 1
  {
    SplitWhere(s, x => x == c)
  }

  /** `str::splitn(3, c)`: at most three pieces; the third keeps any further separators. */
  function SplitN3(s: string, c: char): (r: seq<string>)
    ensures 1 <= |r| <= 3
    ensures c !in s ==> r == [s]
  {
    var i := IndexOf(s, c);
    if i == |s| then [s]
    else
      var rest := s[i + 1..];
      var j := IndexOf(rest, c);
      if j == |rest| then [s[..i], rest] else [s[..i], rest[..j], rest[j + 1..]]
  }

  /** `str::split_whitespace`: split on whitespace and drop the empty pieces. */
  function SplitWhitespace(s: string): seq<string>
  {
    Filter(SplitWhere(s, IsWhitespace), (t: string) => |t| > 0)
  }

  /** A string without separator characters is one piece. */
  lemma SplitWhereNone(s: string, sep: char -> bool)
    requires forall k :: 0 <= k < |s| ==> !sep(s[k])
    ensures SplitWhere(s, sep) == [s]
  {
  }

  /** Splitting `a + [x] + b` at a separator `x` not preceded by any other yields `a` first. */
  lemma SplitWhereAt(a: string, x: char, b: string, sep: char -> bool)
    requires forall k :: 0 <= k < |a| ==> !sep(a[k])
    requires sep(x)
    ensures SplitWhere(a + [x] + b, sep) == [a] + SplitWhere(b, sep)
  {
    var s := a + [x] + b;
    assert s[|a|] == x;
    assert FirstWhere(s, sep) == |a| by {
      FirstWhereAt(s, sep, |a|);
    }
    assert s[..|a|] == a;
    assert s[|a| + 1..] == b;
  }

  lemma {:induction false} FirstWhereAt(s: string, sep: char -> bool, i: nat)
    requires i < |s| && sep(s[i])
    requires forall k :: 0 <= k < i ==> !sep(s[k])
    ensures FirstWhere(s, sep) == i
    decreases i
  {
    if i > 0 {
      FirstWhereAt(s[1..], sep, i - 1);
    }
  }

  // ── Lines ─────────────────────────────────────────────────────────────────

  /** Drops one trailing carriage return. */
  function StripCR(l: string): string
  {
    if |l| > 0 && l[|l| - 1] == '\r' then l[..|l| - 1] else l
  }

  /**
   * `str::lines`: split after each `\n`; a `\r` directly before that `\n` is
   * dropped too; no empty line is produced for a final `\n`.
   */
  function Lines(s: string): (r: seq<string>)
    ensures forall k :: 0 <= k < |r| ==> '\n' !in r[k]
    ensures |s| > 0 <==> |r| > 0
    decreases |s|
  {
    if |s| == 0 then []
    else
      var i := IndexOf(s, '\n');
      if i == |s| then [s] else [StripCR(s[..i])] + Lines(s[i + 1..])
  }

  /** The lines of a text ending in `\n` are not affected by what follows. */
  lemma {:induction false} LinesAppend(a: string, b: string)
    requires |a| > 0 && a[|a| - 1] == '\n'
    ensures Lines(a + b) == Lines(a) + Lines(b)
    decreases |a|
  {
    var s := a + b;
    var i := IndexOf(a, '\n');
    assert i < |a|;
    assert s[i] == '\n' && s[..i] == a[..i];
    FirstWhereAt(s, x => x == '\n', i);
    assert IndexOf(s, '\n') == i;
    assert s[i + 1..] == a[i + 1..] + b;
    if i + 1 < |a| {
      LinesAppend(a[i + 1..], b);
    } else {
      assert a[i + 1..] == [];
      assert s[i + 1..] == b;
    }
  }

  /** One line followed by `\n`. */
  lemma LinesOfLine(l: string)
    requires '\n' !in l
    ensures Lines(l + "\n") == [StripCR(l)]
  {
    var s := l + "\n";
    FirstWhereAt(s, x => x == '\n', |l|);
    assert s[..|l|] == l;
    assert s[|l| + 1..] == [];
  }

  /** The first line is a prefix of the text. */
  lemma FirstLinePrefix(s: string)
    requires |s| > 0
    ensures |Lines(s)[0]| <= |s| && Lines(s)[0] == s[..|Lines(s)[0]|]
  {
    var i := IndexOf(s, '\n');
    if i < |s| {
      assert Lines(s)[0] == StripCR(s[..i]);
    }
  }

  /** `lines` followed by `join("\n")` and a final `\n` gives back a `\n`-terminated text without `\r`. */
  lemma {:induction false} JoinLinesInverse(c: string)
    requires |c| > 0 && c[|c| - 1] == '\n'
    requires '\r' !in c
    ensures Join(Lines(c), "\n") + "\n" == c
    decreases |c|
  {
    var i := IndexOf(c, '\n');
    var head, rest := c[..i], c[i + 1..];
    assert c == head + "\n" + rest;
    assert '\r' !in head && '\r' !in rest;
    if |rest| == 0 {
      LinesOfLine(head);
      assert c == head + "\n";
    } else {
      JoinLinesInverse(rest);
      JoinLinesStep(head, rest);
    }
  }

  lemma JoinLinesStep(head: string, rest: string)
    requires '\n' !in head && '\r' !in head
    requires |rest| > 0 && rest[|rest| - 1] == '\n'
    requires Join(Lines(rest), "\n") + "\n" == rest
    ensures Join(Lines(head + "\n" + rest), "\n") + "\n" == head + "\n" + rest
  {
    var ls := Lines(rest);
    var j := Join(ls, "\n");
    LinesCons(head, rest);
    JoinCons(head, ls, "\n");
    assert head + "\n" + j + "\n" == head + "\n" + (j + "\n");
  }

  /** A first line without `\r`, then `\n`, then more text. */
  lemma LinesCons(head: string, rest: string)
    requires '\n' !in head && '\r' !in head
    ensures Lines(head + "\n" + rest) == [head] + Lines(rest)
  {
    LinesOfLine(head);
    LinesAppend(head + "\n", rest);
    assert StripCR(head) == head;
  }

  lemma JoinCons(x: string, parts: seq<string>, sep: string)
    requires |parts| >= 1
    ensures Join([x] + parts, sep) == x + sep + Join(parts, sep)
  {
    assert ([x] + parts)[1..] == parts;
  }

  /** Appending one more part adds the separator and that part. */
  lemma {:induction false} JoinSnoc(parts: seq<string>, x: string, sep: string)
    requires |parts| >= 1
    ensures Join(parts + [x], sep) == Join(parts, sep) + sep + x
    decreases |parts|
  {
    if |parts| == 1 {
      assert (parts + [x])[1..] == [x];
    } else {
      assert (parts + [x])[1..] == parts[1..] + [x];
      JoinSnoc(parts[1..], x, sep);
    }
  }

  /** A character found in neither the parts nor the separator is not in their join. */
  lemma {:induction false} JoinFree(parts: seq<string>, sep: string, c: char)
    requires c !in sep
    requires forall i :: 0 <= i < |parts| ==> c !in parts[i]
    ensures c !in Join(parts, sep)
    decreases |parts|
  {
    if |parts| > 1 {
      JoinFree(parts[1..], sep, c);
    }
  }

  /** A join starts with the first part's first character and ends with the last part's last one. */
  lemma {:induction false} JoinEnds(parts: seq<string>, sep: string)
    requires |parts| >= 1
    requires forall i :: 0 <= i < |parts| ==> |parts[i]| > 0
    ensures |Join(parts, sep)| > 0
    ensures Join(parts, sep)[0] == parts[0][0]
    ensures Join(parts, sep)[|Join(parts, sep)| - 1] == parts[|parts| - 1][|parts[|parts| - 1]| - 1]
    decreases |parts|
  {
    if |parts| > 1 {
      JoinEnds(parts[1..], sep);
    }
  }

  /** `StripCR` applied to every line. */
  function StripCRAll(ls: seq<string>): (r: seq<string>)
    ensures |r| == |ls|
  {
    if |ls| == 0 then [] else [StripCR(ls[0])] + StripCRAll(ls[1..])
  }

  /** Joining `\n`-free lines with `\n`, plus a final `\n`, and splitting again gives the lines back. */
  lemma {:induction false} LinesOfJoin(ls: seq<string>)
    requires |ls| >= 1
    requires forall k :: 0 <= k < |ls| ==> '\n' !in ls[k]
    ensures Lines(Join(ls, "\n") + "\n") == StripCRAll(ls)
    decreases |ls|
  {
    LinesOfLine(ls[0]);
    if |ls| > 1 {
      var tail := Join(ls[1..], "\n") + "\n";
      JoinCons(ls[0], ls[1..], "\n");
      assert [ls[0]] + ls[1..] == ls;
      assert Join(ls, "\n") + "\n" == (ls[0] + "\n") + tail;
      LinesAppend(ls[0] + "\n", tail);
      LinesOfJoin(ls[1..]);
    }
  }

  // ── Trimming ──────────────────────────────────────────────────────────────

  /** `str::trim_start`. */
  function TrimStart(s: string): (r: string)
    ensures |r| <= |s| && r == s[|s| - |r|..]
    ensures |r| == 0 || !IsWhitespace(r[0])
    decreases |s|
  {
    if |s| > 0 && IsWhitespace(s[0]) then TrimStart(s[1..]) else s
  }

  /** Leading blanks are all that `trim_start` removes. */
  lemma {:induction false} TrimStartBlank(w: string, d: string)
    requires IsBlank(w)
    requires |d| == 0 || !IsWhitespace(d[0])
    ensures TrimStart(w + d) == d
    decreases |w|
  {
    if |w| > 0 {
      assert (w + d)[1..] == w[1..] + d;
      TrimStartBlank(w[1..], d);
    } else {
      assert w + d == d;
    }
  }

  /** `str::trim_end`. */
  function TrimEnd(s: string): (r: string)
    ensures |r| <= |s| && r == s[..|r|]
    ensures |r| == 0 || !IsWhitespace(r[|r| - 1])
    ensures forall k :: |r| <= k < |s| ==> IsWhitespace(s[k])
    decreases |s|
  {
    if |s| > 0 && IsWhitespace(s[|s| - 1]) then TrimEnd(s[..|s| - 1]) else s
  }

  /** `trim_end` adds no character. */
  lemma TrimEndKeepsOut(s: string, c: char)
    requires c !in s
    ensures c !in TrimEnd(s)
  {
    var r := TrimEnd(s);
    assert r == s[..|r|];
  }

  /** `str::trim`. */
  function Trim(s: string): string
  {
    TrimEnd(TrimStart(s))
  }

  /** Text that neither starts nor ends with whitespace is its own trim. */
  lemma TrimNoop(s: string)
    requires |s| == 0 || (!IsWhitespace(s[0]) && !IsWhitespace(s[|s| - 1]))
    ensures Trim(s) == s
  {
  }

  /** Trimming the start of a text with a non-blank part leaves whatever follows that part alone. */
  lemma {:induction false} TrimStartAppend(x: string, w: string)
    requires !IsBlank(x)
    ensures TrimStart(x + w) == TrimStart(x) + w
    decreases |x|
  {
    assert (x + w)[0] == x[0];
    if IsWhitespace(x[0]) {
      assert (x + w)[1..] == x[1..] + w;
      TrimStartAppend(x[1..], w);
    }
  }

  /** Trailing blanks make no difference to `trim_end`. */
  lemma {:induction false} TrimEndBlank(y: string, w: string)
    requires IsBlank(w)
    ensures TrimEnd(y + w) == TrimEnd(y)
    decreases |w|
  {
    if |w| == 0 {
      assert y + w == y;
    } else {
      assert (y + w)[..|y + w| - 1] == y + w[..|w| - 1];
      TrimEndBlank(y, w[..|w| - 1]);
    }
  }

  /** `trim_end` of a text ending in a non-blank part only touches that part. */
  lemma {:induction false} TrimEndNonBlank(y: string, z: string)
    requires !IsBlank(z)
    ensures TrimEnd(y + z) == y + TrimEnd(z)
    decreases |z|
  {
    assert (y + z)[|y + z| - 1] == z[|z| - 1];
    if IsWhitespace(z[|z| - 1]) {
      assert (y + z)[..|y + z| - 1] == y + z[..|z| - 1];
      TrimEndNonBlank(y, z[..|z| - 1]);
    }
  }

  /** Trimming leaves nothing exactly for blank text; otherwise neither end is whitespace. */
  lemma TrimEmptyIffBlank(t: string)
    ensures |Trim(t)| == 0 <==> IsBlank(t)
    ensures |Trim(t)| > 0 ==> !IsWhitespace(Trim(t)[0]) && !IsWhitespace(Trim(t)[|Trim(t)| - 1])
  {
    TrimStartEmptyIffBlank(t);
    var u := TrimStart(t);
    if |u| > 0 {
      assert !IsWhitespace(u[0]);
      assert |TrimEnd(u)| > 0;
      assert Trim(t)[0] == u[0];
    }
  }

  lemma {:induction false} TrimStartEmptyIffBlank(t: string)
    ensures |TrimStart(t)| == 0 <==> IsBlank(t)
    decreases |t|
  {
    if |t| > 0 && IsWhitespace(t[0]) {
      TrimStartEmptyIffBlank(t[1..]);
      if IsBlank(t[1..]) {
        assert forall k :: 1 <= k < |t| ==> t[k] == t[1..][k - 1];
      }
    }
  }

  /** A blank text trims to nothing. */
  lemma TrimBlank(s: string)
    requires IsBlank(s)
    ensures Trim(s) == []
  {
    TrimStartBlank(s, []);
    assert s + [] == s;
  }

  /** Whitespace after a text does not change its trim. */
  lemma TrimBlankSuffix(x: string, w: string)
    requires IsBlank(w)
    ensures Trim(x + w) == Trim(x)
  {
    if IsBlank(x) {
      assert IsBlank(x + w);
      TrimBlank(x + w);
      TrimBlank(x);
    } else {
      TrimStartAppend(x, w);
      TrimEndBlank(TrimStart(x), w);
    }
  }

  /** Dropping a final `\r` leaves a line's trim alone. */
  lemma TrimStripCR(x: string)
    ensures Trim(StripCR(x)) == Trim(x)
  {
    if |x| > 0 && x[|x| - 1] == '\r' {
      assert x == StripCR(x) + "\r";
      TrimBlankSuffix(StripCR(x), "\r");
    }
  }

  /** Trimming the end first leaves a line's trim alone. */
  lemma TrimTrimEnd(x: string)
    ensures Trim(TrimEnd(x)) == Trim(x)
  {
    var t := TrimEnd(x);
    assert x == t + x[|t|..];
    TrimBlankSuffix(t, x[|t|..]);
  }

  /** `str::trim_end_matches` with a single character. */
  function TrimEndMatches(s: string, c: char): (r: string)
    ensures |r| <= |s| && r == s[..|r|]
    decreases |s|
  {
    if |s| > 0 && s[|s| - 1] == c then TrimEndMatches(s[..|s| - 1], c) else s
  }

  /** A text consisting of whitespace only (possibly empty). */
  predicate IsBlank(s: string)
  {
    forall k :: 0 <= k < |s| ==> IsWhitespace(s[k])
  }

  // ── Joining ───────────────────────────────────────────────────────────────

  /** `[String]::join(sep)`. */
  function Join(parts: seq<string>, sep: string): string
  {
    if |parts| == 0 then []
    else if |parts| == 1 then parts[0]
    else parts[0] + sep + Join(parts[1..], sep)
  }

  /** No piece produced by `split` holds a separator character. */
  lemma {:induction false} SplitWherePieces(s: string, sep: char -> bool)
    ensures forall k, i :: 0 <= k < |SplitWhere(s, sep)| && 0 <= i < |SplitWhere(s, sep)[k]| ==> !sep(SplitWhere(s, sep)[k][i])
    decreases |s|
  {
    var j := FirstWhere(s, sep);
    if j < |s| {
      SplitWherePieces(s[j + 1..], sep);
    }
  }

  /** Splitting at separator characters undoes joining with one, when no part holds a separator. */
  lemma {:induction false} SplitWhereOfJoin(parts: seq<string>, x: char, sep: char -> bool)
    requires |parts| >= 1 && sep(x)
    requires forall i, k :: 0 <= i < |parts| && 0 <= k < |parts[i]| ==> !sep(parts[i][k])
    ensures SplitWhere(Join(parts, [x]), sep) == parts
    decreases |parts|
  {
    if |parts| == 1 {
      SplitWhereNone(parts[0], sep);
    } else {
      SplitWhereOfJoin(parts[1..], x, sep);
      SplitWhereAt(parts[0], x, Join(parts[1..], [x]), sep);
      assert parts == [parts[0]] + parts[1..];
    }
  }

  /** Splitting at the first `c` yields the text before it, then the split of the rest. */
  lemma SplitAt(a: string, c: char, b: string)
    requires c !in a
    ensures Split(a + [c] + b, c) == [a] + Split(b, c)
  {
    SplitWhereAt(a, c, b, x => x == c);
  }

  /** Splitting on `c` undoes joining with `c`, when no part holds a `c`. */
  lemma SplitOfJoin(parts: seq<string>, c: char)
    requires |parts| >= 1
    requires forall i :: 0 <= i < |parts| ==> c !in parts[i]
    ensures Split(Join(parts, [c]), c) == parts
  {
    SplitWhereOfJoin(parts, c, x => x == c);
  }

  /**
   * `split_whitespace` undoes joining with a space, when every part is
   * non-empty and free of whitespace.
   */
  lemma SplitWhitespaceOfJoin(parts: seq<string>)
    requires forall i :: 0 <= i < |parts| ==> |parts[i]| > 0
    requires forall i, k :: 0 <= i < |parts| && 0 <= k < |parts[i]| ==> !IsWhitespace(parts[i][k])
    ensures SplitWhitespace(Join(parts, " ")) == parts
  {
    if |parts| == 0 {
    } else {
      SplitWhereOfJoin(parts, ' ', IsWhitespace);
      FilterKeepsAll(parts, (t: string) => |t| > 0);
    }
  }

  // ── Decimal numbers ───────────────────────────────────────────────────────

  /** One more than `u64::MAX`. */
  const U64_LIMIT: nat := 0x1_0000_0000_0000_0000

  function Pow10(k: nat): (r: nat)
    ensures r >= 1
  {
    if k == 0 then 1 else 10 * Pow10(k - 1)
  }

  function DigitChar(d: nat): (c: char)
    requires d < 10
    ensures IsDigit(c) && c as int - '0' as int == d
  {
    ('0' as int + d) as char
  }

  predicate AllDigits(s: string)
  {
    forall k :: 0 <= k < |s| ==> IsDigit(s[k])
  }

  /** `format!("{}", n)` for an unsigned integer. */
  function NatToString(n: nat): (r: string)
    ensures 1 <= |r| && AllDigits(r)
    decreases n
  {
    if n < 10 then [DigitChar(n)] else NatToString(n / 10) + [DigitChar(n % 10)]
  }

  /** The number a string of decimal digits denotes. */
  function DigitsValue(s: string): nat
    requires AllDigits(s)
  {
    if |s| == 0 then 0 else DigitsValue(s[..|s| - 1]) * 10 + (s[|s| - 1] as int - '0' as int)
  }

  /** `<u64 as FromStr>::from_str`: an optional `+`, then one or more digits, below 2^64. */
  function ParseU64(s: string): (r: Option<nat>)
    ensures r.Some? ==> r.value < U64_LIMIT
  {
    var digits := if |s| > 0 && s[0] == '+' then s[1..] else s;
    if |digits| > 0 && AllDigits(digits) && DigitsValue(digits) < U64_LIMIT
    then Some(DigitsValue(digits))
    else None
  }

  /** Left-pads `s` with `fill` to at least `width` characters (`{:>w}` and `{:0w}`). */
  function PadLeft(s: string, width: nat, fill: char): (r: string)
    ensures |r| == Max(width, |s|)
    ensures r[|r| - |s|..] == s
    ensures forall k :: 0 <= k < |r| - |s| ==> r[k] == fill
  {
    if |s| >= width then s else seq(width - |s|, _ => fill) + s
  }

  /** Rendering a number in decimal and reading it back gives the number. */
  lemma {:induction false} NatToStringValue(n: nat)
    ensures DigitsValue(NatToString(n)) == n
    decreases n
  {
    if n >= 10 {
      NatToStringValue(n / 10);
      var s := NatToString(n / 10) + [DigitChar(n % 10)];
      assert s[..|s| - 1] == NatToString(n / 10);
    }
  }

  lemma {:induction false} ZerosValue(z: string)
    requires forall k :: 0 <= k < |z| ==> z[k] == '0'
    ensures AllDigits(z) && DigitsValue(z) == 0
    decreases |z|
  {
    if |z| > 0 {
      ZerosValue(z[..|z| - 1]);
    }
  }

  /** `u64::from_str` reads back a zero-padded rendering of any u64. */
  lemma ParsePadded(n: nat, width: nat)
    requires n < U64_LIMIT
    ensures ParseU64(PadLeft(NatToString(n), width, '0')) == Some(n)
  {
    var d := NatToString(n);
    var p := PadLeft(d, width, '0');
    PadLeftDigits(d, width, n);
    ParseDigits(p);
  }

  lemma PadLeftDigits(d: string, width: nat, n: nat)
    requires d == NatToString(n)
    ensures AllDigits(PadLeft(d, width, '0')) && DigitsValue(PadLeft(d, width, '0')) == n
  {
    var p := PadLeft(d, width, '0');
    var z := p[..|p| - |d|];
    assert p == z + d;
    ZerosValue(z);
    PaddedValue(z, d);
    NatToStringValue(n);
  }

  lemma ParseDigits(p: string)
    requires |p| > 0 && AllDigits(p) && DigitsValue(p) < U64_LIMIT
    ensures ParseU64(p) == Some(DigitsValue(p))
  {
    assert p[0] != '+';
  }

  /** Leading zeros do not change the value of a digit string. */
  lemma {:induction false} PaddedValue(z: string, d: string)
    requires AllDigits(z) && DigitsValue(z) == 0 && AllDigits(d)
    ensures AllDigits(z + d) && DigitsValue(z + d) == DigitsValue(d)
    decreases |d|
  {
    if |d| == 0 {
      assert z + d == z;
    } else {
      var d' := d[..|d| - 1];
      PaddedValue(z, d');
      assert (z + d)[..|z + d| - 1] == z + d';
      assert (z + d)[|z + d| - 1] == d[|d| - 1];
    }
  }

  /** A number below 10^w has at most w digits. */
  lemma {:induction false} NatToStringLength(n: nat, w: nat)
    requires 1 <= w && n < Pow10(w)
    ensures |NatToString(n)| <= w
    decreases w
  {
    if n >= 10 {
      assert w >= 2;
      NatToStringLength(n / 10, w - 1);
    }
  }
}
