/**
 * Incremental change detection (src/indexer/incremental.rs): parsing
 * `git diff --name-status` output, merging and filtering change sets, the
 * mtime fallback classification, the zero-change short-circuit of
 * `run_incremental` and the ISO 8601 timestamp parser, which inverts the
 * renderer of the writer.
 */
module Incremental {
  import opened Common
  import opened Text
  import opened Writer

  /** Three lists of relative paths: what changed since the last index. */
  datatype ChangeSet = ChangeSet(added: seq<string>, modified: seq<string>, deleted: seq<string>)

  const NoChanges := ChangeSet([], [], [])

  /** List-wise concatenation: the changes of `a` followed by those of `b`. */
  function Plus(a: ChangeSet, b: ChangeSet): ChangeSet
  {
    ChangeSet(a.added + b.added, a.modified + b.modified, a.deleted + b.deleted)
  }

  // ── git diff --name-status ────────────────────────────────────────────────

  /**
   * What one output line contributes: a trimmed, non-blank line with at
   * least one tab is split into at most three tab-separated fields; the
   * status letter routes the second field, and a rename also adds the third.
   */
  function ClassifyLine(raw: string): (r: ChangeSet)
    ensures '\t' !in Trim(raw) ==> r == NoChanges
    ensures |r.added| + |r.modified| + |r.deleted| <= 2
    ensures |r.modified| + |r.deleted| <= 1 && |r.added| <= 1
  {
    var line := Trim(raw);
    if |line| == 0 then NoChanges else ClassifyFields(SplitN3(line, '\t'))
  }

  /** The routing of a line's tab-separated fields by the first letter of the status field. */
  function ClassifyFields(parts: seq<string>): (r: ChangeSet)
    ensures |parts| < 2 ==> r == NoChanges
    ensures |r.modified| + |r.deleted| <= 1 && |r.added| <= 1
  {
    if |parts| < 2 then NoChanges
    else
      var status := parts[0];
      var path := parts[1];
      if |status| > 0 && status[0] == 'A' then ChangeSet([path], [], [])
      else if |status| > 0 && status[0] == 'M' then ChangeSet([], [path], [])
      else if |status| > 0 && status[0] == 'D' then ChangeSet([], [], [path])
      else if |status| > 0 && status[0] == 'R' then
        ChangeSet(if |parts| >= 3 then [parts[2]] else [], [], [path])
      else ChangeSet([], [path], [])
  }

  /** A trimmed, non-empty line is classified by its fields. */
  lemma ClassifyByFields(line: string, parts: seq<string>)
    requires |line| > 0 && Trim(line) == line && SplitN3(line, '\t') == parts
    ensures ClassifyLine(line) == ClassifyFields(parts)
  {
  }

  /** Two or three plain-ended fields joined by tabs are left alone by trimming. */
  lemma TrimFields(line: string, first: string, last: string)
    requires PlainField(first) && |last| > 0 && !IsWhitespace(last[|last| - 1])
    requires |line| >= |first| + |last| && line[..|first|] == first && line[|line| - |last|..] == last
    ensures Trim(line) == line
  {
    assert line[0] == first[0] && line[|line| - 1] == last[|last| - 1];
    TrimNoop(line);
  }

  /** The contributions `classify` assigns to each line, concatenated in line order. */
  function ParseLines(ls: seq<string>, classify: string -> ChangeSet): ChangeSet
  {
    if |ls| == 0 then NoChanges else Plus(classify(ls[0]), ParseLines(ls[1..], classify))
  }

  /**
   * `parse_name_status_output`: each output line adds at most one path and
   * removes or modifies at most one.
   */
  function ParseNameStatus(output: string): (r: ChangeSet)
    ensures |r.added| <= |Lines(output)|
    ensures |r.modified| + |r.deleted| <= |Lines(output)|
  {
    ParseClassifiedBound(Lines(output));
    ParseLines(Lines(output), ClassifyLine)
  }

  lemma {:induction false} ParseClassifiedBound(ls: seq<string>)
    ensures |ParseLines(ls, ClassifyLine).added| <= |ls|
    ensures |ParseLines(ls, ClassifyLine).modified| + |ParseLines(ls, ClassifyLine).deleted| <= |ls|
  {
    if |ls| > 0 {
      ParseClassifiedBound(ls[1..]);
    }
  }

  lemma {:induction false} ParseLinesAppend(a: seq<string>, b: seq<string>, classify: string -> ChangeSet)
    ensures ParseLines(a + b, classify) == Plus(ParseLines(a, classify), ParseLines(b, classify))
    decreases |a|
  {
    if |a| == 0 {
      assert a + b == b;
    } else {
      assert (a + b)[0] == a[0] && (a + b)[1..] == a[1..] + b;
      ParseLinesAppend(a[1..], b, classify);
      var c, x, y := classify(a[0]), ParseLines(a[1..], classify), ParseLines(b, classify);
      assert ParseLines(a + b, classify) == Plus(c, Plus(x, y));
      PlusAssoc(c, x, y);
    }
  }

  lemma PlusAssoc(a: ChangeSet, b: ChangeSet, c: ChangeSet)
    ensures Plus(Plus(a, b), c) == Plus(a, Plus(b, c))
  {
    assert (a.added + b.added) + c.added == a.added + (b.added + c.added);
    assert (a.modified + b.modified) + c.modified == a.modified + (b.modified + c.modified);
    assert (a.deleted + b.deleted) + c.deleted == a.deleted + (b.deleted + c.deleted);
  }

  /**
   * Each list keeps input order: the output of two line blocks is the output
   * of the first followed, list by list, by the output of the second.
   */
  lemma ParseNameStatusAppend(a: string, b: string)
    requires |a| > 0 && a[|a| - 1] == '\n'
    ensures ParseNameStatus(a + b) == Plus(ParseNameStatus(a), ParseNameStatus(b))
  {
    LinesAppend(a, b);
    ParseLinesAppend(Lines(a), Lines(b), ClassifyLine);
  }

  /** One line of output, terminated by a newline, contributes exactly its classification. */
  lemma ParseNameStatusLine(line: string)
    requires '\n' !in line
    ensures ParseNameStatus(line + "\n") == ClassifyLine(StripCR(line))
  {
    LinesOfLine(line);
    assert ParseLines([StripCR(line)], ClassifyLine) == Plus(ClassifyLine(StripCR(line)), NoChanges);
  }

  /** A field: non-empty, tab-free and without whitespace at either end. */
  predicate PlainField(f: string)
  {
    |f| > 0 && '\t' !in f && !IsWhitespace(f[0]) && !IsWhitespace(f[|f| - 1])
  }

  /**
   * `status\tpath` routes `path` by the first status letter: `A` to added, `M`
   * to modified, `D` and `R` to deleted, and every other letter (`C`, `T`, …)
   * to modified — into that one list only.
   */
  lemma ClassifyTwoFields(status: string, path: string)
    requires PlainField(status) && PlainField(path)
    ensures ClassifyLine(status + "\t" + path) ==
      if status[0] == 'A' then ChangeSet([path], [], [])
      else if status[0] == 'D' || status[0] == 'R' then ChangeSet([], [], [path])
      else ChangeSet([], [path], [])
  {
    TwoFieldLine(status, path);
    ClassifyByFields(status + "\t" + path, [status, path]);
  }

  lemma TwoFieldLine(status: string, path: string)
    requires PlainField(status) && PlainField(path)
    ensures |status + "\t" + path| > 0
    ensures Trim(status + "\t" + path) == status + "\t" + path
    ensures SplitN3(status + "\t" + path, '\t') == [status, path]
  {
    var line := status + "\t" + path;
    assert line[..|status|] == status && line[|line| - |path|..] == path;
    TrimFields(line, status, path);
    SplitN3Two(status, path);
  }

  lemma SplitN3Two(status: string, path: string)
    requires '\t' !in status && '\t' !in path
    ensures SplitN3(status + "\t" + path, '\t') == [status, path]
  {
    var line := status + "\t" + path;
    assert line[|status|] == '\t';
    assert line[..|status|] == status;
    assert line[|status| + 1..] == path;
  }

  /** A rename `R…\tfrom\tto` deletes `from` and adds `to` (which may itself hold tabs). */
  lemma ClassifyRename(status: string, from: string, to: string)
    requires PlainField(status) && status[0] == 'R' && PlainField(from)
    requires |to| > 0 && !IsWhitespace(to[|to| - 1])
    ensures ClassifyLine(status + "\t" + from + "\t" + to) == ChangeSet([to], [], [from])
  {
    RenameFieldsLine(status, from, to);
    ClassifyByFields(status + "\t" + from + "\t" + to, [status, from, to]);
  }

  lemma RenameFieldsLine(status: string, from: string, to: string)
    requires PlainField(status) && PlainField(from)
    requires |to| > 0 && !IsWhitespace(to[|to| - 1])
    ensures |status + "\t" + from + "\t" + to| > 0
    ensures Trim(status + "\t" + from + "\t" + to) == status + "\t" + from + "\t" + to
    ensures SplitN3(status + "\t" + from + "\t" + to, '\t') == [status, from, to]
  {
    var line := status + "\t" + from + "\t" + to;
    assert line[..|status|] == status && line[|line| - |to|..] == to;
    TrimFields(line, status, to);
    SplitN3Three(status, from, to);
  }

  lemma SplitN3Three(status: string, from: string, to: string)
    requires '\t' !in status && '\t' !in from
    ensures SplitN3(status + "\t" + from + "\t" + to, '\t') == [status, from, to]
  {
    var line := status + "\t" + from + "\t" + to;
    var rest := from + "\t" + to;
    assert line == status + "\t" + rest;
    assert line[|status|] == '\t';
    assert line[..|status|] == status;
    assert line[|status| + 1..] == rest;
    assert rest[|from|] == '\t';
    assert rest[..|from|] == from;
    assert rest[|from| + 1..] == to;
  }

  /** Lines that are blank after trimming contribute nothing. */
  lemma BlankLineSkipped(raw: string)
    requires IsBlank(raw)
    ensures ClassifyLine(raw) == NoChanges
  {
    TrimOfBlank(raw);
  }

  lemma {:induction false} TrimOfBlank(raw: string)
    requires IsBlank(raw)
    ensures Trim(raw) == ""
    decreases |raw|
  {
    if |raw| > 0 {
      assert IsBlank(raw[1..]) by {
        assert forall k :: 0 <= k < |raw[1..]| ==> raw[1..][k] == raw[k + 1];
      }
      TrimOfBlank(raw[1..]);
    }
  }

  /** `parse_name_status_added`. */
  lemma AddedExample()
    ensures ParseNameStatus("A\tsrc/new_file.rs\n") == ChangeSet(["src/new_file.rs"], [], [])
  {
    var status, path := "A", "src/new_file.rs";
    assert PlainField(path) by {
      assert path[0] == 's' && path[|path| - 1] == 's';
      assert forall k :: 0 <= k < |path| ==> path[k] != '\t';
    }
    assert status + "\t" + path + "\n" == "A\tsrc/new_file.rs\n";
    ExampleLine(status, path);
  }

  /** `parse_name_status_modified`. */
  lemma ModifiedExample()
    ensures ParseNameStatus("M\tsrc/existing.rs\n") == ChangeSet([], ["src/existing.rs"], [])
  {
    var status, path := "M", "src/existing.rs";
    assert PlainField(path) by {
      assert path[0] == 's' && path[|path| - 1] == 's';
      assert forall k :: 0 <= k < |path| ==> path[k] != '\t';
    }
    assert status + "\t" + path + "\n" == "M\tsrc/existing.rs\n";
    ExampleLine(status, path);
  }

  /** `parse_name_status_deleted`. */
  lemma DeletedExample()
    ensures ParseNameStatus("D\tsrc/old_file.rs\n") == ChangeSet([], [], ["src/old_file.rs"])
  {
    var status, path := "D", "src/old_file.rs";
    assert PlainField(path) by {
      assert path[0] == 's' && path[|path| - 1] == 's';
      assert forall k :: 0 <= k < |path| ==> path[k] != '\t';
    }
    assert status + "\t" + path + "\n" == "D\tsrc/old_file.rs\n";
    ExampleLine(status, path);
  }

  /** `parse_name_status_renamed`: the old path is deleted and the new one added. */
  lemma RenameExample()
    ensures ParseNameStatus("R100" + "\t" + "src/old.rs" + "\t" + "src/new.rs" + "\n") == ChangeSet(["src/new.rs"], [], ["src/old.rs"])
  {
    var status, from, to := "R100", "src/old.rs", "src/new.rs";
    assert PlainField(status) by {
      assert status[0] == 'R' && status[|status| - 1] == '0';
      assert forall k :: 0 <= k < |status| ==> status[k] != '\t';
    }
    assert PlainField(from) by {
      assert from[0] == 's' && from[|from| - 1] == 's';
      assert forall k :: 0 <= k < |from| ==> from[k] != '\t';
    }
    assert to[|to| - 1] == 's';
    assert '\n' !in status + "\t" + from + "\t" + to by {
      var line := status + "\t" + from + "\t" + to;
      assert forall k :: 0 <= k < |line| ==> line[k] != '\n';
    }
    RenameLine(status, from, to);
  }

  /** A newline-terminated rename line deletes `from` and adds `to`. */
  lemma RenameLine(status: string, from: string, to: string)
    requires PlainField(status) && status[0] == 'R' && PlainField(from)
    requires |to| > 0 && !IsWhitespace(to[|to| - 1])
    requires '\n' !in status + "\t" + from + "\t" + to
    ensures ParseNameStatus(status + "\t" + from + "\t" + to + "\n") == ChangeSet([to], [], [from])
  {
    var line := status + "\t" + from + "\t" + to;
    ClassifyRename(status, from, to);
    ParseNameStatusLine(line);
    assert StripCR(line) == line;
  }

  lemma ExampleLine(status: string, path: string)
    requires PlainField(status) && PlainField(path) && '\n' !in status + "\t" + path
    ensures ParseNameStatus(status + "\t" + path + "\n") == ClassifyLine(status + "\t" + path)
    ensures ClassifyLine(status + "\t" + path) ==
      if status[0] == 'A' then ChangeSet([path], [], [])
      else if status[0] == 'D' || status[0] == 'R' then ChangeSet([], [], [path])
      else ChangeSet([], [path], [])
  {
    var line := status + "\t" + path;
    ParseNameStatusLine(line);
    assert StripCR(line) == line;
    ClassifyTwoFields(status, path);
  }

  // ── Merging ───────────────────────────────────────────────────────────────

  /** Every path listed anywhere in `cs`. */
  function AllPaths(cs: ChangeSet): set<string>
  {
    set p | p in cs.added + cs.modified + cs.deleted
  }

  /**
   * `merge_changesets`: append each path of `other` to the matching list of
   * `base`, unless it already appears in any of base's three lists.
   */
  function MergeChanges(base: ChangeSet, other: ChangeSet): (r: ChangeSet)
    ensures |base.added| <= |r.added| && r.added[..|base.added|] == base.added
    ensures |base.modified| <= |r.modified| && r.modified[..|base.modified|] == base.modified
    ensures |base.deleted| <= |r.deleted| && r.deleted[..|base.deleted|] == base.deleted
    ensures forall p :: p in r.added <==> p in base.added || (p in other.added && p !in AllPaths(base))
    ensures forall p :: p in r.modified <==> p in base.modified || (p in other.modified && p !in AllPaths(base))
    ensures forall p :: p in r.deleted <==> p in base.deleted || (p in other.deleted && p !in AllPaths(base))
    ensures IsSubseq(r.added[|base.added|..], other.added)
    ensures IsSubseq(r.modified[|base.modified|..], other.modified)
    ensures IsSubseq(r.deleted[|base.deleted|..], other.deleted)
  {
    var existing := AllPaths(base);
    var unseen := (p: string) => p !in existing;
    var r := ChangeSet(base.added + Filter(other.added, unseen),
                       base.modified + Filter(other.modified, unseen),
                       base.deleted + Filter(other.deleted, unseen));
    assert r.added[|base.added|..] == Filter(other.added, unseen);
    assert r.modified[|base.modified|..] == Filter(other.modified, unseen);
    assert r.deleted[|base.deleted|..] == Filter(other.deleted, unseen);
    r
  }

  /** Merging an empty change set changes nothing. */
  lemma MergeNothing(cs: ChangeSet)
    ensures MergeChanges(cs, NoChanges) == cs
  {
  }

  /** Merging into an empty change set copies `other`, duplicates included. */
  lemma MergeIntoNothing(cs: ChangeSet)
    ensures MergeChanges(NoChanges, cs) == cs
  {
    var unseen := (p: string) => p !in AllPaths(NoChanges);
    assert AllPaths(NoChanges) == {};
    FilterKeepsAll(cs.added, unseen);
    FilterKeepsAll(cs.modified, unseen);
    FilterKeepsAll(cs.deleted, unseen);
  }

  /** Merging a change set into itself adds nothing. */
  lemma MergeSelf(cs: ChangeSet)
    ensures MergeChanges(cs, cs) == cs
  {
    var unseen := (p: string) => p !in AllPaths(cs);
    FilterKeepsNone(cs.added, unseen);
    FilterKeepsNone(cs.modified, unseen);
    FilterKeepsNone(cs.deleted, unseen);
  }

  // ── Filtering ─────────────────────────────────────────────────────────────

  /** `should_skip`: the index directory `.ns` and the `.git` directory, with `/` or `\` separators. */
  predicate ShouldSkip(path: string)
  {
    || StartsWith(path, ".ns/") || StartsWith(path, ".ns\\")
    || StartsWith(path, ".git/") || StartsWith(path, ".git\\")
    || path == ".ns" || path == ".git"
  }

  /** `path` is `root` itself or lies under it, behind a `/` or `\` separator. */
  predicate AtOrUnder(path: string, root: string)
  {
    path == root || (|path| > |root| && path[..|root|] == root && path[|root|] in {'/', '\\'})
  }

  /** A path is skipped exactly when it is the `.ns` or the `.git` directory or lies beneath one. */
  lemma ShouldSkipIff(path: string)
    ensures ShouldSkip(path) <==> AtOrUnder(path, ".ns") || AtOrUnder(path, ".git")
  {
    UnderIff(path, ".ns");
    UnderIff(path, ".git");
  }

  lemma UnderIff(path: string, root: string)
    ensures |path| > |root| && path[..|root|] == root && path[|root|] == '/' <==> StartsWith(path, root + "/")
    ensures |path| > |root| && path[..|root|] == root && path[|root|] == '\\' <==> StartsWith(path, root + "\\")
  {
    if |path| > |root| {
      assert path[..|root| + 1] == path[..|root|] + [path[|root|]];
    }
  }

  /**
   * `filter_changeset`: added and modified paths must be indexable — not
   * skipped, and accepted by `fileOk` (a regular file within the size limit,
   * without a NUL in its first 512 bytes, valid UTF-8); deleted paths need only
   * not be skipped.
   */
  function FilterChanges(cs: ChangeSet, fileOk: string -> bool): (r: ChangeSet)
    ensures forall p :: p in r.added <==> p in cs.added && !ShouldSkip(p) && fileOk(p)
    ensures forall p :: p in r.modified <==> p in cs.modified && !ShouldSkip(p) && fileOk(p)
    ensures forall p :: p in r.deleted <==> p in cs.deleted && !ShouldSkip(p)
    ensures IsSubseq(r.added, cs.added) && IsSubseq(r.modified, cs.modified) && IsSubseq(r.deleted, cs.deleted)
  {
    var indexable := (p: string) => !ShouldSkip(p) && fileOk(p);
    ChangeSet(Filter(cs.added, indexable), Filter(cs.modified, indexable),
              Filter(cs.deleted, (p: string) => !ShouldSkip(p)))
  }

  /** No list of a filtered change set names the `.ns` or `.git` directories or anything under them. */
  lemma FilteredHasNoSkippedPaths(cs: ChangeSet, fileOk: string -> bool, p: string)
    requires p in AllPaths(FilterChanges(cs, fileOk))
    ensures p != ".ns" && p != ".git"
    ensures !StartsWith(p, ".ns/") && !StartsWith(p, ".ns\\") && !StartsWith(p, ".git/") && !StartsWith(p, ".git\\")
  {
  }

  /** Filtering a filtered change set again changes nothing. */
  lemma FilterChangesIdempotent(cs: ChangeSet, fileOk: string -> bool)
    ensures FilterChanges(FilterChanges(cs, fileOk), fileOk) == FilterChanges(cs, fileOk)
  {
    var indexable := (p: string) => !ShouldSkip(p) && fileOk(p);
    FilterIdempotent(cs.added, indexable);
    FilterIdempotent(cs.modified, indexable);
    FilterIdempotent(cs.deleted, (p: string) => !ShouldSkip(p));
  }

  /** The skipped directories themselves and paths under them are skipped. */
  lemma SkippedExamples()
    ensures ShouldSkip(".ns/index/meta") && ShouldSkip(".git\\HEAD") && ShouldSkip(".git")
  {
    assert ".ns/index/meta"[..4] == ".ns/";
    assert ".git\\HEAD"[..5] == ".git\\";
  }

  /** Paths that merely resemble the skipped directories are kept. */
  lemma KeptExamples()
    ensures !ShouldSkip(".nsrc") && !ShouldSkip("src/.ns/x") && !ShouldSkip(".github/workflows/ci.yml")
  {
    NotSkipped(".nsrc", 3, 1);
    NotSkipped("src/.ns/x", 0, 0);
    NotSkipped(".github/workflows/ci.yml", 1, 4);
  }

  /**
   * A path is kept when it differs from `.ns` at index `i` and from `.git` at
   * index `j`, both within the path and within the name plus its separator.
   */
  lemma NotSkipped(path: string, i: nat, j: nat)
    requires i < 4 && i < |path| && path[i] != (".ns/")[i] && path[i] != (".ns\\")[i]
    requires j < 5 && j < |path| && path[j] != (".git/")[j] && path[j] != (".git\\")[j]
    requires i < 3 || |path| != 3
    requires j < 4 || |path| != 4
    ensures !ShouldSkip(path)
  {
    NotStartsWith(path, ".ns/", i);
    NotStartsWith(path, ".ns\\", i);
    NotStartsWith(path, ".git/", j);
    NotStartsWith(path, ".git\\", j);
  }

  lemma NotStartsWith(s: string, p: string, k: nat)
    requires k < |p| && k < |s| && s[k] != p[k]
    ensures !StartsWith(s, p)
  {
    if |p| <= |s| {
      assert s[..|p|][k] == s[k];
    }
  }

  // ── mtime fallback ────────────────────────────────────────────────────────

  /**
   * `detect_changes_mtime` over abstract path lists: `current` is the walk of
   * the working tree, `indexed` the index's paths in the order their hash set
   * yields them, `indexedAt` the parsed `indexed_at` of the metadata, and
   * `newer(p, t)` whether `p`'s modification time (when readable) is later
   * than `t`.
   */
  function DetectMtime(current: seq<string>, indexed: seq<string>, indexedAt: Option<int>,
                       newer: (string, int) -> bool): (r: ChangeSet)
    ensures forall p :: p in r.added <==> p in current && p !in indexed
    ensures forall p :: p in r.deleted <==> p in indexed && p !in current
    ensures forall p :: p in r.modified ==> p in current && p in indexed
    ensures forall p :: p in r.modified <==> p in current && p in indexed && indexedAt.Some? && newer(p, indexedAt.value)
    ensures IsSubseq(r.added, current) && IsSubseq(r.modified, current) && IsSubseq(r.deleted, indexed)
  {
    ChangeSet(
      Filter(current, (p: string) => p !in indexed),
      MtimeModified(current, indexed, indexedAt, newer),
      Filter(indexed, (p: string) => p !in current))
  }

  /** The modified list of the mtime fallback: tracked files changed since `indexedAt`. */
  function MtimeModified(current: seq<string>, indexed: seq<string>, indexedAt: Option<int>,
                         newer: (string, int) -> bool): (m: seq<string>)
    ensures forall p :: p in m <==> p in current && p in indexed && indexedAt.Some? && newer(p, indexedAt.value)
    ensures IsSubseq(m, current)
  {
    match indexedAt
    case None => []
    case Some(t) => Filter(current, (p: string) => p in indexed && newer(p, t))
  }

  /** The mtime classification never lists a path as both added and deleted, nor as both added and modified. */
  lemma MtimeListsDisjoint(current: seq<string>, indexed: seq<string>, indexedAt: Option<int>,
                           newer: (string, int) -> bool, p: string)
    ensures var r := DetectMtime(current, indexed, indexedAt, newer);
            !(p in r.added && p in r.deleted) && !(p in r.added && p in r.modified)
  {
  }

  /** An unparsable `indexed_at` reports no modified files. */
  lemma MtimeWithoutTimestamp(current: seq<string>, indexed: seq<string>, newer: (string, int) -> bool)
    ensures DetectMtime(current, indexed, None, newer).modified == []
  {
  }

  // ── run_incremental ───────────────────────────────────────────────────────

  /** A write to the index: drop every document with a path, or add a document for a path. */
  datatype IndexOp = DeleteDoc(path: string) | AddDoc(path: string)

  datatype IncrementalStats = IncrementalStats(added: nat, modified: nat, deleted: nat, elapsedMs: nat)

  /** The deletions for the deleted paths. */
  function DeleteOps(ps: seq<string>): (r: seq<IndexOp>)
    ensures |r| == |ps| && forall i :: 0 <= i < |ps| ==> r[i] == DeleteDoc(ps[i])
  {
    if |ps| == 0 then [] else [DeleteDoc(ps[0])] + DeleteOps(ps[1..])
  }

  /** Delete-then-add for each modified path; the add only when the document could be built. */
  function ReplaceOps(ps: seq<string>, buildable: string -> bool): seq<IndexOp>
  {
    if |ps| == 0 then []
    else [DeleteDoc(ps[0])] + (if buildable(ps[0]) then [AddDoc(ps[0])] else []) + ReplaceOps(ps[1..], buildable)
  }

  /** The additions for the added paths whose document could be built. */
  function AddOps(ps: seq<string>, buildable: string -> bool): seq<IndexOp>
  {
    if |ps| == 0 then []
    else (if buildable(ps[0]) then [AddDoc(ps[0])] else []) + AddOps(ps[1..], buildable)
  }

  /**
   * The index writes and the stats of `run_incremental` for a detected change
   * set; `buildable(p)` says whether `build_document` can read `p`, and
   * `elapsedMs` is the measured duration.
   */
  function RunIncremental(cs: ChangeSet, buildable: string -> bool, elapsedMs: nat): (r: (seq<IndexOp>, IncrementalStats))
    ensures |cs.added| + |cs.modified| + |cs.deleted| == 0 <==> r.0 == [] && r.1 == IncrementalStats(0, 0, 0, 0)
    ensures r.1.added == |cs.added| && r.1.modified == |cs.modified| && r.1.deleted == |cs.deleted|
  {
    if |cs.added| + |cs.modified| + |cs.deleted| == 0 then ([], IncrementalStats(0, 0, 0, 0))
    else
      var ops := DeleteOps(cs.deleted) + ReplaceOps(cs.modified, buildable) + AddOps(cs.added, buildable);
      assert |cs.deleted| > 0 ==> ops[0] == DeleteDoc(cs.deleted[0]);
      ReplaceNonEmpty(cs.modified, buildable);
      (ops, IncrementalStats(|cs.added|, |cs.modified|, |cs.deleted|, elapsedMs))
  }

  lemma ReplaceNonEmpty(ps: seq<string>, buildable: string -> bool)
    ensures |ps| > 0 ==> |ReplaceOps(ps, buildable)| > 0
  {
  }

  /** Every write names a changed path: deletions for deleted or modified paths, additions for added or modified ones. */
  lemma {:induction false} ReplaceOpsPaths(ps: seq<string>, buildable: string -> bool, op: IndexOp)
    requires op in ReplaceOps(ps, buildable)
    ensures op.path in ps && (op.AddDoc? ==> buildable(op.path))
    decreases |ps|
  {
    var head := [DeleteDoc(ps[0])] + (if buildable(ps[0]) then [AddDoc(ps[0])] else []);
    if op !in head {
      ReplaceOpsPaths(ps[1..], buildable, op);
    }
  }

  lemma {:induction false} AddOpsPaths(ps: seq<string>, buildable: string -> bool, op: IndexOp)
    requires op in AddOps(ps, buildable)
    ensures op.AddDoc? && op.path in ps && buildable(op.path)
    decreases |ps|
  {
    if op !in (if buildable(ps[0]) then [AddDoc(ps[0])] else []) {
      AddOpsPaths(ps[1..], buildable, op);
    }
  }

  /** Every modified path's old document is deleted, and each added path that can be built is added. */
  lemma {:induction false} ReplaceOpsCover(ps: seq<string>, buildable: string -> bool, p: string)
    requires p in ps
    ensures DeleteDoc(p) in ReplaceOps(ps, buildable)
    ensures buildable(p) ==> AddDoc(p) in ReplaceOps(ps, buildable)
    decreases |ps|
  {
    if ps[0] != p {
      ReplaceOpsCover(ps[1..], buildable, p);
    }
  }

  lemma {:induction false} AddOpsCover(ps: seq<string>, buildable: string -> bool, p: string)
    requires p in ps && buildable(p)
    ensures AddDoc(p) in AddOps(ps, buildable)
    decreases |ps|
  {
    if ps[0] != p {
      AddOpsCover(ps[1..], buildable, p);
    }
  }

  /**
   * The writes of a non-empty run: every deleted and modified path is
   * deleted, every buildable modified or added path is (re-)added, and
   * nothing else is touched.
   */
  lemma RunIncrementalWrites(cs: ChangeSet, buildable: string -> bool, elapsedMs: nat, op: IndexOp, p: string)
    ensures op in RunIncremental(cs, buildable, elapsedMs).0 ==>
              (op.DeleteDoc? && (op.path in cs.deleted || op.path in cs.modified)) ||
              (op.AddDoc? && buildable(op.path) && (op.path in cs.modified || op.path in cs.added))
    ensures p in cs.deleted || p in cs.modified ==> DeleteDoc(p) in RunIncremental(cs, buildable, elapsedMs).0
    ensures buildable(p) && (p in cs.added || p in cs.modified) ==> AddDoc(p) in RunIncremental(cs, buildable, elapsedMs).0
  {
    var ops := RunIncremental(cs, buildable, elapsedMs).0;
    if |cs.added| + |cs.modified| + |cs.deleted| > 0 {
      var d := DeleteOps(cs.deleted);
      var m := ReplaceOps(cs.modified, buildable);
      var a := AddOps(cs.added, buildable);
      assert ops == d + m + a;
      if op in ops {
        if op in m {
          ReplaceOpsPaths(cs.modified, buildable, op);
        } else if op in a {
          AddOpsPaths(cs.added, buildable, op);
        }
      }
      if p in cs.modified {
        ReplaceOpsCover(cs.modified, buildable, p);
      }
      if p in cs.added && buildable(p) {
        AddOpsCover(cs.added, buildable, p);
      }
    }
  }

  // ── ISO 8601 timestamps ───────────────────────────────────────────────────

  /** `filter_map(|p| p.parse::<u64>().ok())`: the pieces that parse, as numbers; the others are dropped. */
  function ParseNumbers(pieces: seq<string>): (r: seq<nat>)
    ensures |r| <= |pieces|
  {
    if |pieces| == 0 then []
    else
      match ParseU64(pieces[0])
      case Some(v) => [v] + ParseNumbers(pieces[1..])
      case None => ParseNumbers(pieces[1..])
  }

  /** The day count since 1970-01-01 of a calendar date (Hinnant's days-from-civil). */
  function DaysFromCivil(year: int, month: int, day: int): int
  {
    var y := if month <= 2 then year - 1 else year;
    var era := y / 400;
    var yoe := y - era * 400;
    var m := if month > 2 then month - 3 else month + 9;
    var doy := (153 * m + 2) / 5 + day - 1;
    var doe := yoe * 365 + yoe / 4 - yoe / 100 + doy;
    era * 146097 + doe - 719468
  }

  /** Seconds since the epoch of a time of day on the day numbered `days`. */
  function EpochSeconds(days: int, hours: int, minutes: int, seconds: int): int
  {
    days * SECONDS_PER_DAY + hours * 3600 + minutes * 60 + seconds
  }

  /**
   * `parse_iso8601_to_system_time`, as seconds since the epoch: the text must
   * split on `T` into exactly two parts, and the date (split on `-`) and the
   * time (without trailing `Z`s, split on `:`) must each hold exactly three
   * pieces that parse as numbers.
   */
  function ParseIso8601(s: string): (r: Option<int>)
    ensures r.Some? <==>
      |Split(s, 'T')| == 2 &&
      |ParseNumbers(Split(Split(s, 'T')[0], '-'))| == 3 &&
      |ParseNumbers(Split(TrimEndMatches(Split(s, 'T')[1], 'Z'), ':'))| == 3
  {
    var parts := Split(s, 'T');
    if |parts| != 2 then None
    else
      var date := ParseNumbers(Split(parts[0], '-'));
      var time := ParseNumbers(Split(TrimEndMatches(parts[1], 'Z'), ':'));
      if |date| != 3 || |time| != 3 then None
      else Some(EpochSeconds(DaysFromCivil(date[0], date[1], date[2]), time[0], time[1], time[2]))
  }

  /** Text without a `T` never parses: `"not-a-date"` and the empty string are rejected. */
  lemma ParseIso8601Rejects(s: string)
    requires 'T' !in s
    ensures ParseIso8601(s) == None
    ensures ParseIso8601("not-a-date") == None && ParseIso8601("") == None
  {
    SplitWhereNone(s, x => x == 'T');
    SplitWhereNone("not-a-date", x => x == 'T');
    SplitWhereNone("", x => x == 'T');
  }

  /** The month-and-day step inverts: the month index and day give back the day of the year. */
  lemma MonthDayInverse(doy: int)
    requires 0 <= doy <= 365
    ensures var mp := (5 * doy + 2) / 153;
            var d := doy - (153 * mp + 2) / 5 + 1;
            var m := if mp < 10 then mp + 3 else mp - 9;
            (if m > 2 then m - 3 else m + 9) == mp && (153 * mp + 2) / 5 + d - 1 == doy
  {
  }

  lemma YearInverse(era: int, yoe: int)
    requires era >= 0 && 0 <= yoe <= 399
    ensures (yoe + era * 400) / 400 == era
  {
  }

  /** Days-from-civil inverts the year step: it counts the eras, years and days that led to `doy`. */
  lemma YearRoundTrip(era: nat, yoe: nat, doy: nat)
    requires yoe <= 399 && doy <= 365
    ensures var c := CivilOfYear(era * 400 + yoe, doy);
            DaysFromCivil(c.year, c.month, c.day) == era * 146097 + (yoe * 365 + yoe / 4 - yoe / 100 + doy) - 719468
  {
    MonthDayBounds(doy);
    MonthDayInverse(doy);
    YearInverse(era, yoe);
  }

  /** Days-from-civil inverts the era step. */
  lemma EraRoundTrip(era: nat, doe: nat)
    requires doe <= 146096
    ensures var c := CivilOfEra(era, doe); DaysFromCivil(c.year, c.month, c.day) == era * 146097 + doe - 719468
  {
    var yoe, doy := EraSplit(era, doe);
    YearRoundTrip(era, yoe, doy);
  }

  /** The era step picks a year of the era and a day of that year that together make up `doe`. */
  lemma EraSplit(era: nat, doe: nat) returns (yoe: nat, doy: nat)
    requires doe <= 146096
    ensures yoe <= 399 && doy <= 365 && doe == 365 * yoe + yoe / 4 - yoe / 100 + doy
    ensures CivilOfEra(era, doe) == CivilOfYear(era * 400 + yoe, doy)
  {
    YearOfEraBounds(doe);
    yoe := (doe - doe / 1460 + doe / 36524 - doe / 146096) / 365;
    doy := doe - (365 * yoe + yoe / 4 - yoe / 100);
  }

  /** Days-from-civil inverts civil-from-days. */
  lemma CivilRoundTrip(days: nat)
    ensures var c := CivilFromDays(days); DaysFromCivil(c.year, c.month, c.day) == days
  {
    var z := days + 719468;
    EraBounds(days);
    EraRoundTrip(z / 146097, z - z / 146097 * 146097);
  }

  /**
   * `i64::MAX`: the largest seconds count `UNIX_EPOCH + duration` can reach
   * without panicking, since a Unix system time keeps its seconds signed.
   */
  const I64_MAX: nat := 0x7fff_ffff_ffff_ffff

  /** Rendering then parsing gives back the epoch seconds, for every clock reading a system time can hold. */
  lemma TimestampRoundTrip(secs: nat)
    requires secs <= I64_MAX
    ensures ParseIso8601(UtcTimestamp(secs)) == Some(secs)
  {
    var k := SplitSeconds(secs);
    var c := CivilFromDays(k.days);
    YearBelowLimit(k.days);
    CivilRoundTrip(k.days);
    assert EpochSeconds(k.days, k.hours, k.minutes, k.seconds) == secs;
    ParseRendered(c, k, secs);
    assert UtcTimestamp(secs) == RenderTimestamp(c, k);
  }

  /** The year of any day a 64-bit count of seconds reaches fits the parser's 64-bit fields. */
  lemma YearBelowLimit(days: nat)
    requires days < U64_LIMIT / SECONDS_PER_DAY + 1
    ensures CivilFromDays(days).year < U64_LIMIT
  {
    var c := CivilFromDays(days);
    assert (days + 719468) / 365 <= days + 719468;
  }

  /** Parsing a rendered date and clock gives back the seconds of that day and time. */
  lemma ParseRendered(c: Civil, k: Clock, secs: int)
    requires c.year < U64_LIMIT && c.month < 100 && c.day < 100
    requires k.hours < 100 && k.minutes < 100 && k.seconds < 100
    requires EpochSeconds(DaysFromCivil(c.year, c.month, c.day), k.hours, k.minutes, k.seconds) == secs
    ensures ParseIso8601(RenderTimestamp(c, k)) == Some(secs)
  {
    var date := DatePart(c);
    var time := TimePart(k);
    DatePieces(c);
    TimePieces(k);
    SplitRendered(date, time);
    ParseIso8601Of(RenderTimestamp(c, k), date, time + "Z", [c.year, c.month, c.day], [k.hours, k.minutes, k.seconds], secs);
  }

  /** `ParseIso8601` of a text whose two parts parse to the given date and time numbers. */
  lemma ParseIso8601Of(s: string, date: string, time: string, ds: seq<int>, ts: seq<int>, secs: int)
    requires Split(s, 'T') == [date, time]
    requires |ds| == 3 && ParseNumbers(Split(date, '-')) == ds
    requires |ts| == 3 && ParseNumbers(Split(TrimEndMatches(time, 'Z'), ':')) == ts
    requires EpochSeconds(DaysFromCivil(ds[0], ds[1], ds[2]), ts[0], ts[1], ts[2]) == secs
    ensures ParseIso8601(s) == Some(secs)
  {
  }

  /** A rendered timestamp splits on `T` into its date part and its time part with the `Z`. */
  lemma SplitRendered(date: string, time: string)
    requires 'T' !in date && 'T' !in time
    ensures Split(date + "T" + time + "Z", 'T') == [date, time + "Z"]
  {
    SplitWhereAt(date, 'T', time + "Z", x => x == 'T');
    assert date + "T" + time + "Z" == date + ['T'] + (time + "Z");
    SplitWhereNone(time + "Z", x => x == 'T');
  }

  /** The date part splits on `-` into the three padded numbers, which parse back. */
  lemma DatePieces(c: Civil)
    requires c.year < U64_LIMIT && c.month < 100 && c.day < 100
    ensures 'T' !in DatePart(c)
    ensures ParseNumbers(Split(DatePart(c), '-')) == [c.year, c.month, c.day]
  {
    PieceParses(c.year, 4, '-');
    PieceParses(c.month, 2, '-');
    PieceParses(c.day, 2, '-');
    PaddedTriple(ZeroPad(c.year, 4), ZeroPad(c.month, 2), ZeroPad(c.day, 2), c.year, c.month, c.day, '-');
  }

  /** The time part splits on `:` into the three padded numbers, which parse back. */
  lemma TimePieces(k: Clock)
    requires k.hours < 100 && k.minutes < 100 && k.seconds < 100
    ensures 'T' !in TimePart(k)
    ensures TrimEndMatches(TimePart(k) + "Z", 'Z') == TimePart(k)
    ensures ParseNumbers(Split(TimePart(k), ':')) == [k.hours, k.minutes, k.seconds]
  {
    PieceParses(k.hours, 2, ':');
    PieceParses(k.minutes, 2, ':');
    PieceParses(k.seconds, 2, ':');
    PaddedTriple(ZeroPad(k.hours, 2), ZeroPad(k.minutes, 2), ZeroPad(k.seconds, 2), k.hours, k.minutes, k.seconds, ':');
  }

  /** Three numeric pieces joined by `sep` split and parse back; a trailing `Z` trims off. */
  lemma PaddedTriple(a: string, b: string, d: string, x: nat, y: nat, z: nat, sep: char)
    requires sep != 'T' && sep != 'Z'
    requires sep !in a && sep !in b && sep !in d
    requires 'T' !in a && 'T' !in b && 'T' !in d
    requires |d| > 0 && 'Z' !in d
    requires ParseU64(a) == Some(x) && ParseU64(b) == Some(y) && ParseU64(d) == Some(z)
    ensures 'T' !in a + [sep] + b + [sep] + d
    ensures TrimEndMatches(a + [sep] + b + [sep] + d + "Z", 'Z') == a + [sep] + b + [sep] + d
    ensures ParseNumbers(Split(a + [sep] + b + [sep] + d, sep)) == [x, y, z]
  {
    ThreePieces(a, b, d, sep);
    ThreeNumbers(a, b, d, x, y, z);
    var t := a + [sep] + b + [sep] + d;
    assert t[|t| - 1] == d[|d| - 1];
    TrimOneZ(t);
  }

  /** One trailing `Z` after a text not ending in `Z` is all that `trim_end_matches` removes. */
  lemma TrimOneZ(t: string)
    requires |t| > 0 && t[|t| - 1] != 'Z'
    ensures TrimEndMatches(t + "Z", 'Z') == t
  {
    assert (t + "Z")[..|t|] == t;
  }

  /** A zero-padded number is digits only and parses back to the number. */
  lemma PieceParses(n: nat, w: nat, sep: char)
    requires n < U64_LIMIT && !IsDigit(sep)
    ensures AllDigits(ZeroPad(n, w)) && |ZeroPad(n, w)| > 0
    ensures ParseU64(ZeroPad(n, w)) == Some(n)
    ensures sep !in ZeroPad(n, w) && 'T' !in ZeroPad(n, w) && 'Z' !in ZeroPad(n, w)
  {
    PadLeftDigits(NatToString(n), w, n);
    ParsePadded(n, w);
  }

  /** Three separator-free pieces joined by `sep` split back into the pieces. */
  lemma ThreePieces(a: string, b: string, d: string, sep: char)
    requires sep !in a && sep !in b && sep !in d
    requires 'T' !in a && 'T' !in b && 'T' !in d && sep != 'T'
    ensures Split(a + [sep] + b + [sep] + d, sep) == [a, b, d]
    ensures 'T' !in a + [sep] + b + [sep] + d
  {
    var ps := [a, b, d];
    assert Join(ps, [sep]) == a + [sep] + b + [sep] + d by {
      assert ps[1..] == [b, d];
      assert [b, d][1..] == [d];
      assert Join([d], [sep]) == d;
      assert Join([b, d], [sep]) == b + [sep] + d;
    }
    SplitOfJoin(ps, sep);
  }

  lemma ThreeNumbers(a: string, b: string, d: string, x: nat, y: nat, z: nat)
    requires ParseU64(a) == Some(x) && ParseU64(b) == Some(y) && ParseU64(d) == Some(z)
    ensures ParseNumbers([a, b, d]) == [x, y, z]
  {
    assert [a, b, d][1..] == [b, d];
    assert [b, d][1..] == [d];
    assert [d][1..] == [];
    assert ParseNumbers([d]) == [z];
    assert ParseNumbers([b, d]) == [y, z];
  }
}
